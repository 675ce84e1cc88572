/**
 * `Command::FilterCards`: a navigation-only command that sends the user to the card
 * list narrowed to an explicit set of card ids, carrying the other query parameters over.
 */
module FilterCardsCommand {
  import opened Json
  import Text

  /** The card ids as the JSON array the redirect carries. */
  function IdsValue(ids: seq<int>): (v: Value)
    ensures v.List? && |v.items| == |ids|
    ensures forall i :: 0 <= i < |ids| ==> v.items[i] == Num(ids[i])
  {
    List(seq(|ids|, i requires 0 <= i < |ids| => Num(ids[i])))
  }

  /** The decimal numerals of the ids, in order. */
  function Numerals(ids: seq<int>): (parts: seq<string>)
    ensures |parts| == |ids|
    ensures forall i :: 0 <= i < |ids| ==> parts[i] == Text.ShowInt(ids[i])
  {
    seq(|ids|, i requires 0 <= i < |ids| => Text.ShowInt(ids[i]))
  }

  /** A `Command::FilterCards` record: its `card_ids` and the stored `params`. */
  datatype FilterCards = FilterCards(cardIds: seq<int>, params: map<Key, Value>) {

    /**
     * The parameters `execute` redirects with: `params.without("card_ids")` merged
     * with `card_ids:` the command's own ids. Exactly one `card_ids` parameter is left,
     * holding the command's ids; every other parameter passes through unchanged.
     */
    function RedirectParams(): (r: map<Key, Value>)
      ensures SymKey("card_ids") in r && r[SymKey("card_ids")] == IdsValue(cardIds)
      ensures forall k :: k in r && k.name == "card_ids" ==> k == SymKey("card_ids")
      ensures forall k: Key :: k.name != "card_ids" ==> (k in r <==> k in params)
      ensures forall k :: k in r && k.name != "card_ids" ==> r[k] == params[k]
    {
      (params - {StrKey("card_ids")})[SymKey("card_ids") := IdsValue(cardIds)]
    }

    /**
     * `title`: "Filter cards " and the ids joined with ", ", in stored order. Nothing
     * follows the prefix exactly when there are no ids (`TitleListsIds` reads them back).
     */
    function Title(): (title: string)
      ensures |title| >= 13 && title[..13] == "Filter cards "
      ensures cardIds == [] <==> |title| == 13
    {
      "Filter cards " + Text.Join(Numerals(cardIds), ", ")
    }
  }

  /** Redirecting with the parameters again changes nothing: the redirect is stable. */
  lemma RedirectIdempotent(cmd: FilterCards)
    ensures FilterCards(cmd.cardIds, cmd.RedirectParams()).RedirectParams() == cmd.RedirectParams()
  {
  }

  /**
   * The title lists exactly the command's ids, in stored order: after the fixed
   * prefix, splitting at ", " and reading each numeral gives the ids back.
   */
  lemma TitleListsIds(cmd: FilterCards)
    ensures var title := cmd.Title();
            && (cmd.cardIds == [] ==> title[13..] == "")
            && (cmd.cardIds != [] ==>
                  var parts := Text.Split(title[13..], ", ");
                  && |parts| == |cmd.cardIds|
                  && forall i :: 0 <= i < |parts| ==>
                       parts[i] == Text.ShowInt(cmd.cardIds[i]) && Text.ParseInt(parts[i]) == cmd.cardIds[i])
  {
    var title := cmd.Title();
    var parts := Numerals(cmd.cardIds);
    assert title[13..] == Text.Join(parts, ", ");
    if cmd.cardIds != [] {
      Text.SplitJoin(parts, ", ");
      forall i | 0 <= i < |parts|
        ensures Text.ParseInt(parts[i]) == cmd.cardIds[i]
      {
        Text.ShowIntRoundTrip(cmd.cardIds[i]);
      }
    }
  }
}
