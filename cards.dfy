/**
 * The card store the commands act on. Cards, their collections' workflows and the
 * workflow stages live elsewhere in the application; here a card is the record of the
 * fields the commands read and write, and the four transitions a command may drive
 * (`engage`, `close`, `reconsider`, `change_stage_to`) each set the one field they name.
 */
module Cards {
  import opened Wrappers

  datatype Status = Considering | Doing | Closed

  /** A card: its stage (if any), the workflow of its collection (if any) and its status. */
  datatype Card = Card(stageId: Option<int>, workflowId: Option<int>, status: Status)

  /** A workflow stage, as `Workflow::Stage` stores it. */
  datatype Stage = Stage(id: int, name: string, workflowId: Option<int>)

  /** The stage table, indexed by id. */
  ghost predicate StagesIndexed(stages: map<int, Stage>) {
    forall id :: id in stages ==> stages[id].id == id
  }

  /** `Workflow::Stage.find_by(id: id)`. */
  function FindStage(stages: map<int, Stage>, id: int): (r: Option<Stage>)
    ensures r.Some? <==> id in stages
    ensures r.Some? ==> r.value == stages[id]
  {
    if id in stages then Some(stages[id]) else None
  }

  /** Every id of `scope` names a card of `cards`. */
  ghost predicate InStore(cards: map<int, Card>, scope: seq<int>) {
    forall id :: id in scope ==> id in cards
  }

  /** No card is visited twice (a relation yields each record once). */
  ghost predicate Distinct(scope: seq<int>) {
    forall i, j :: 0 <= i < j < |scope| ==> scope[i] != scope[j]
  }

  /** A card of a scope without repeats is not among the ones before it. */
  lemma NotYetVisited(scope: seq<int>, i: int)
    requires Distinct(scope) && 0 <= i < |scope|
    ensures scope[i] !in scope[..i]
  {
  }

  /** One more element of `scope` visited: the longer prefix ends with it and stays in the store. */
  lemma PrefixStep(cards: map<int, Card>, scope: seq<int>, i: int)
    requires InStore(cards, scope) && 0 <= i < |scope|
    ensures InStore(cards, scope[..i]) && InStore(cards, scope[..i + 1]) && scope[i] in cards
    ensures |scope[..i + 1]| == i + 1 && scope[..i + 1][..i] == scope[..i] && scope[..i + 1][i] == scope[i]
  {
    assert scope[i] in scope;
    assert forall j :: 0 <= j <= i ==> scope[..i + 1][j] == scope[j];
  }

  /** The persistent cards, keyed by id. */
  class CardStore {
    var cards: map<int, Card>

    constructor (cards: map<int, Card>)
      ensures this.cards == cards
    {
      this.cards := cards;
    }

    /** `card.change_stage_to(stage)`. */
    method ChangeStageTo(id: int, stage: Stage)
      requires id in cards
      modifies this
      ensures cards == old(cards)[id := old(cards)[id].(stageId := Some(stage.id))]
    {
      cards := cards[id := cards[id].(stageId := Some(stage.id))];
    }

    /** `card.engage`: the card moves to doing. */
    method Engage(id: int)
      requires id in cards
      modifies this
      ensures cards == old(cards)[id := old(cards)[id].(status := Doing)]
    {
      cards := cards[id := cards[id].(status := Doing)];
    }

    /** `card.close`. */
    method Close(id: int)
      requires id in cards
      modifies this
      ensures cards == old(cards)[id := old(cards)[id].(status := Closed)]
    {
      cards := cards[id := cards[id].(status := Closed)];
    }

    /** `card.reconsider`: the card goes back to considering. */
    method Reconsider(id: int)
      requires id in cards
      modifies this
      ensures cards == old(cards)[id := old(cards)[id].(status := Considering)]
    {
      cards := cards[id := cards[id].(status := Considering)];
    }
  }
}
