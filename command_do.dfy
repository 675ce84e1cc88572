/**
 * `Command::Do`: engage every card in scope (move it to doing), remembering each
 * card's closed/doing/considering flags so that undo can drive it back.
 */
module DoCommand {
  import opened Wrappers
  import opened Cards

  /** One entry of `statuses_by_card_id`: `{ closed:, doing:, considering: }`. */
  datatype StatusFlags = StatusFlags(closed: bool, doing: bool, considering: bool)

  /** The flags `execute` records for a card: `closed?`, `doing?`, `considering?`. */
  function FlagsOf(s: Status): (f: StatusFlags)
    ensures f.closed <==> s == Closed
    ensures f.doing <==> s == Doing
    ensures f.considering <==> s == Considering
    ensures f.closed || f.doing || f.considering
    ensures !(f.closed && f.doing) && !(f.closed && f.considering) && !(f.doing && f.considering)
  {
    StatusFlags(s == Closed, s == Doing, s == Considering)
  }

  /** The snapshot `execute` builds: every card in scope, with its flags before it was engaged. */
  function Snapshot(cards: map<int, Card>, scope: seq<int>): (snap: map<int, StatusFlags>)
    requires InStore(cards, scope)
    ensures forall id :: id in snap <==> id in scope
    ensures forall id :: id in snap ==> snap[id] == FlagsOf(cards[id].status)
    decreases |scope|
  {
    if scope == [] then map[]
    else
      var id := scope[|scope| - 1];
      assert forall x :: x in scope <==> x in scope[..|scope| - 1] || x == id;
      Snapshot(cards, scope[..|scope| - 1])[id := FlagsOf(cards[id].status)]
  }

  /** The cards after `execute`: every card in scope is doing, every other card is as it was. */
  function Engaged(cards: map<int, Card>, scope: seq<int>): (after: map<int, Card>)
    requires InStore(cards, scope)
    ensures after.Keys == cards.Keys
    ensures forall id :: id in cards ==>
      after[id] == if id in scope then cards[id].(status := Doing) else cards[id]
    decreases |scope|
  {
    if scope == [] then cards
    else
      var id := scope[|scope| - 1];
      assert forall x :: x in scope <==> x in scope[..|scope| - 1] || x == id;
      Engaged(cards, scope[..|scope| - 1])[id := cards[id].(status := Doing)]
  }

  /**
   * The status `undo` leaves a card in when it calls `close` if the card was closed,
   * `engage` if it was doing and `reconsider` if it was considering, in that order:
   * the last of those flags that is set wins, and with none set the card keeps `s`.
   */
  function Replayed(s: Status, f: StatusFlags): (r: Status)
    ensures f.considering ==> r == Considering
    ensures !f.considering && f.doing ==> r == Doing
    ensures !f.considering && !f.doing && f.closed ==> r == Closed
    ensures !f.considering && !f.doing && !f.closed ==> r == s
  {
    var afterClose := if f.closed then Closed else s;
    var afterEngage := if f.doing then Doing else afterClose;
    if f.considering then Considering else afterEngage
  }

  /** Replaying the flags recorded for a status restores that status, whatever the card is now. */
  lemma ReplayRecoversStatus(recorded: Status, now: Status)
    ensures Replayed(now, FlagsOf(recorded)) == recorded
  {
  }

  /**
   * The cards after `undo` replays `snap` on the cards the user can still access: only
   * the status of a card changes, a recorded accessible card gets the status its flags
   * replay to, and every other card is left as it is.
   */
  function Restored(cards: map<int, Card>, snap: map<int, StatusFlags>, accessible: set<int>): (after: map<int, Card>)
    ensures after.Keys == cards.Keys
    ensures forall id :: id in cards ==> after[id].(status := cards[id].status) == cards[id]
    ensures forall id :: id in cards && id in snap && id in accessible ==>
              after[id].status == Replayed(cards[id].status, snap[id])
    ensures forall id :: id in cards && !(id in snap && id in accessible) ==> after[id] == cards[id]
  {
    map id | id in cards ::
      if id in snap && id in accessible then cards[id].(status := Replayed(cards[id].status, snap[id])) else cards[id]
  }

  /**
   * Execute then undo: a card in scope that is still accessible gets its status back;
   * one no longer accessible stays doing; a card outside the scope is never touched.
   */
  lemma ExecuteThenUndo(cards: map<int, Card>, scope: seq<int>, accessible: set<int>, id: int)
    requires InStore(cards, scope) && id in cards
    ensures var moved := Engaged(cards, scope);
            var back := Restored(moved, Snapshot(cards, scope), accessible);
            && (id in scope && id in accessible ==> back[id] == cards[id])
            && (id in scope && id !in accessible ==> back[id] == moved[id] && back[id].status == Doing)
            && (id !in scope ==> moved[id] == cards[id] && back[id] == cards[id])
  {
    var moved := Engaged(cards, scope);
    var snap := Snapshot(cards, scope);
    if id in scope && id in accessible {
      ReplayRecoversStatus(cards[id].status, Doing);
      assert moved[id] == cards[id].(status := Doing);
    }
  }

  /** One more card of `scope` visited: that card engaged and recorded. */
  lemma ExecuteStep(cards: map<int, Card>, scope: seq<int>, i: int)
    requires InStore(cards, scope) && Distinct(scope) && 0 <= i < |scope|
    ensures InStore(cards, scope[..i]) && InStore(cards, scope[..i + 1]) && scope[i] in cards
    ensures Engaged(cards, scope[..i])[scope[i]] == cards[scope[i]]
    ensures Engaged(cards, scope[..i + 1]) ==
              Engaged(cards, scope[..i])[scope[i] := cards[scope[i]].(status := Doing)]
    ensures Snapshot(cards, scope[..i + 1]) ==
              Snapshot(cards, scope[..i])[scope[i] := FlagsOf(cards[scope[i]].status)]
  {
    NotYetVisited(scope, i);
    PrefixStep(cards, scope, i);
    EngagedStep(cards, scope, i);
    SnapshotStep(cards, scope, i);
  }

  lemma EngagedStep(cards: map<int, Card>, scope: seq<int>, i: int)
    requires InStore(cards, scope) && 0 <= i < |scope|
    ensures InStore(cards, scope[..i]) && InStore(cards, scope[..i + 1]) && scope[i] in cards
    ensures Engaged(cards, scope[..i + 1]) ==
              Engaged(cards, scope[..i])[scope[i] := cards[scope[i]].(status := Doing)]
  {
    PrefixStep(cards, scope, i);
  }

  lemma SnapshotStep(cards: map<int, Card>, scope: seq<int>, i: int)
    requires InStore(cards, scope) && 0 <= i < |scope|
    ensures InStore(cards, scope[..i]) && InStore(cards, scope[..i + 1]) && scope[i] in cards
    ensures Snapshot(cards, scope[..i + 1]) ==
              Snapshot(cards, scope[..i])[scope[i] := FlagsOf(cards[scope[i]].status)]
  {
    PrefixStep(cards, scope, i);
  }

  /** A `Command::Do` record and, once executed, its undo snapshot. */
  class DoCommand {
    var statusesByCardId: Option<map<int, StatusFlags>>

    constructor ()
      ensures statusesByCardId == None
    {
      statusesByCardId := None;
    }

    /** `title`: "Move <cards> to Doing". */
    function Title(cardsDescription: string): (title: string)
      ensures |title| == |cardsDescription| + 14
      ensures title[..5] == "Move " && title[|title| - 9..] == " to Doing"
      ensures title[5..|title| - 9] == cardsDescription
    {
      "Move " + cardsDescription + " to Doing"
    }

    /**
     * `execute`: visit the cards in scope in order, record each card's flags and
     * engage it; then store the snapshot once. No card is skipped.
     */
    method Execute(store: CardStore, scope: seq<int>)
      requires InStore(store.cards, scope) && Distinct(scope)
      modifies this, store
      ensures store.cards == Engaged(old(store.cards), scope)
      ensures statusesByCardId == Some(Snapshot(old(store.cards), scope))
    {
      var snapshot: map<int, StatusFlags> := map[];
      ghost var before := store.cards;
      var i := 0;
      while i < |scope|
        invariant 0 <= i <= |scope|
        invariant InStore(before, scope[..i])
        invariant store.cards == Engaged(before, scope[..i])
        invariant snapshot == Snapshot(before, scope[..i])
      {
        var id := scope[i];
        ExecuteStep(before, scope, i);
        var card := store.cards[id];
        snapshot := snapshot[id := FlagsOf(card.status)];
        store.Engage(id);
        i := i + 1;
      }
      assert scope[..i] == scope;
      statusesByCardId := Some(snapshot);
    }

    /**
     * `undo`: for every recorded card the user can still access, call `close`,
     * `engage` and `reconsider` as its flags say; skip the others. Without a snapshot
     * (never executed) it fails and changes nothing.
     */
    method Undo(store: CardStore, accessible: set<int>) returns (ok: bool)
      modifies store
      ensures ok == statusesByCardId.Some?
      ensures ok ==> store.cards == Restored(old(store.cards), statusesByCardId.value, accessible)
      ensures !ok ==> store.cards == old(store.cards)
    {
      if statusesByCardId.None? {
        return false;
      }
      var snap := statusesByCardId.value;
      ghost var before := store.cards;
      var pending := snap.Keys;
      while pending != {}
        invariant pending <= snap.Keys
        invariant store.cards.Keys == before.Keys
        invariant forall id :: id in before ==>
          store.cards[id] == if id in pending then before[id] else Restored(before, snap, accessible)[id]
        decreases pending
      {
        ghost var some := Inhabitant(pending);
        var cardId :| cardId in pending;
        if cardId in accessible && cardId in store.cards {
          var flags := snap[cardId];
          if flags.closed {
            store.Close(cardId);
          }
          if flags.doing {
            store.Engage(cardId);
          }
          if flags.considering {
            store.Reconsider(cardId);
          }
        }
        pending := pending - {cardId};
      }
      ghost var goal := Restored(before, snap, accessible);
      assert forall id :: id in goal ==> store.cards[id] == goal[id];
      return true;
    }
  }
}
