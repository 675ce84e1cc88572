/**
 * `Command::Stage`: move the cards in scope to one workflow stage, remembering each
 * moved card's previous stage so that the move can be undone.
 */
module StageCommand {
  import opened Wrappers
  import opened Cards
  import Text

  /**
   * `card_compatible_with_stage?`: the stage exists, belongs to a workflow, and that
   * workflow is the one of the card's collection. A missing stage or a stage outside
   * any workflow is compatible with no card, and neither is a card whose collection
   * has no workflow (`nil == nil` is never reached).
   */
  predicate CompatibleWithStage(card: Card, stage: Option<Stage>): (compatible: bool)
    ensures stage.None? ==> !compatible
    ensures card.workflowId.None? ==> !compatible
    ensures compatible <==> stage.Some? && card.workflowId.Some? && card.workflowId == stage.value.workflowId
  {
    stage.Some? && stage.value.workflowId.Some? && card.workflowId == stage.value.workflowId
  }

  /**
   * The snapshot `execute` builds: for every compatible card in scope, its stage
   * before the move; incompatible cards are not recorded.
   */
  function Snapshot(cards: map<int, Card>, scope: seq<int>, stage: Option<Stage>): (snap: map<int, Option<int>>)
    requires InStore(cards, scope)
    ensures forall id :: id in snap <==> id in scope && CompatibleWithStage(cards[id], stage)
    ensures forall id :: id in snap ==> snap[id] == cards[id].stageId
    decreases |scope|
  {
    if scope == [] then map[]
    else
      var id := scope[|scope| - 1];
      var rest := Snapshot(cards, scope[..|scope| - 1], stage);
      assert forall x :: x in scope <==> x in scope[..|scope| - 1] || x == id;
      if CompatibleWithStage(cards[id], stage) then rest[id := cards[id].stageId] else rest
  }

  /**
   * The cards after `execute`: each compatible card in scope is in the target stage,
   * every other card is as it was.
   */
  function Staged(cards: map<int, Card>, scope: seq<int>, stage: Option<Stage>): (after: map<int, Card>)
    requires InStore(cards, scope)
    ensures after.Keys == cards.Keys
    ensures forall id :: id in cards ==>
      after[id] == if id in scope && CompatibleWithStage(cards[id], stage)
                   then cards[id].(stageId := Some(stage.value.id))
                   else cards[id]
    decreases |scope|
  {
    if scope == [] then cards
    else
      var id := scope[|scope| - 1];
      var rest := Staged(cards, scope[..|scope| - 1], stage);
      assert forall x :: x in scope <==> x in scope[..|scope| - 1] || x == id;
      if CompatibleWithStage(cards[id], stage) then rest[id := cards[id].(stageId := Some(stage.value.id))] else rest
  }

  /**
   * The stage `undo` moves card `id` back to: only when the card is recorded, still
   * exists and is accessible to the user, had a stage, and that stage still exists.
   */
  function UndoTarget(cards: map<int, Card>, snap: map<int, Option<int>>, accessible: set<int>,
                      stages: map<int, Stage>, id: int): (r: Option<Stage>)
    ensures r.Some? <==> id in snap && id in accessible && id in cards && snap[id].Some? && snap[id].value in stages
    ensures r.Some? ==> r.value == stages[snap[id].value]
  {
    if id in snap && id in accessible && id in cards && snap[id].Some? && snap[id].value in stages
    then Some(stages[snap[id].value])
    else None
  }

  /**
   * The cards after `undo` replays `snap`: only the stage of a card changes, and only
   * for a card that is recorded, still accessible, had a stage and whose stage still
   * exists; that card is moved to its recorded stage.
   */
  function Restored(cards: map<int, Card>, snap: map<int, Option<int>>, accessible: set<int>,
                    stages: map<int, Stage>): (after: map<int, Card>)
    ensures after.Keys == cards.Keys
    ensures forall id :: id in cards ==> after[id].(stageId := cards[id].stageId) == cards[id]
    ensures forall id :: id in cards && id in snap && id in accessible && snap[id].Some? && snap[id].value in stages ==>
              after[id].stageId == Some(stages[snap[id].value].id)
    ensures forall id :: id in cards && !(id in snap && id in accessible && snap[id].Some? && snap[id].value in stages) ==>
              after[id] == cards[id]
  {
    map id | id in cards ::
      match UndoTarget(cards, snap, accessible, stages, id)
      case Some(s) => cards[id].(stageId := Some(s.id))
      case None => cards[id]
  }

  /** An unresolvable stage makes every card incompatible: execute then moves and records nothing. */
  lemma UnresolvableStageChangesNothing(cards: map<int, Card>, scope: seq<int>, stages: map<int, Stage>, stageId: int)
    requires InStore(cards, scope)
    requires stageId !in stages
    ensures Staged(cards, scope, FindStage(stages, stageId)) == cards
    ensures Snapshot(cards, scope, FindStage(stages, stageId)) == map[]
  {
  }

  /** Undo changes no card that is absent from the snapshot. */
  lemma UndoTouchesOnlySnapshot(cards: map<int, Card>, snap: map<int, Option<int>>, accessible: set<int>,
                                stages: map<int, Stage>, id: int)
    requires id in cards && id !in snap
    ensures Restored(cards, snap, accessible, stages)[id] == cards[id]
  {
  }

  /**
   * Execute then undo, with the cards still accessible and their earlier stages still
   * present: every compatible card that had a stage gets it back; a compatible card that
   * had none stays in the new stage; an incompatible card is never touched.
   */
  lemma ExecuteThenUndo(cards: map<int, Card>, scope: seq<int>, stages: map<int, Stage>, stageId: int,
                        accessible: set<int>, id: int)
    requires InStore(cards, scope) && StagesIndexed(stages)
    requires id in cards
    ensures var target := FindStage(stages, stageId);
            var moved := Staged(cards, scope, target);
            var back := Restored(moved, Snapshot(cards, scope, target), accessible, stages);
            && ((id in scope && CompatibleWithStage(cards[id], target) && id in accessible
                 && cards[id].stageId.Some? && cards[id].stageId.value in stages) ==> back[id] == cards[id])
            && (id in scope && CompatibleWithStage(cards[id], target) && cards[id].stageId.None? ==>
                  back[id] == moved[id] && back[id].stageId == Some(stageId))
            && (!(id in scope && CompatibleWithStage(cards[id], target)) ==> moved[id] == cards[id] && back[id] == cards[id])
  {
    var target := FindStage(stages, stageId);
    var moved := Staged(cards, scope, target);
    var snap := Snapshot(cards, scope, target);
    var back := Restored(moved, snap, accessible, stages);
    var t := UndoTarget(moved, snap, accessible, stages, id);
    assert back[id] == if t.Some? then moved[id].(stageId := Some(t.value.id)) else moved[id];
    if id in scope && CompatibleWithStage(cards[id], target) {
      assert id in snap && snap[id] == cards[id].stageId;
      assert moved[id] == cards[id].(stageId := Some(target.value.id));
      if t.Some? {
        assert t.value.id == cards[id].stageId.value;
      }
    } else {
      assert id !in snap;
    }
  }

  /** One more card of `scope` visited: the move and the record of that card alone. */
  lemma ExecuteStep(cards: map<int, Card>, scope: seq<int>, i: int, stage: Option<Stage>)
    requires InStore(cards, scope) && Distinct(scope) && 0 <= i < |scope|
    ensures InStore(cards, scope[..i]) && InStore(cards, scope[..i + 1]) && scope[i] in cards
    ensures Staged(cards, scope[..i], stage)[scope[i]] == cards[scope[i]]
    ensures var id := scope[i];
            Staged(cards, scope[..i + 1], stage) ==
              if CompatibleWithStage(cards[id], stage)
              then Staged(cards, scope[..i], stage)[id := cards[id].(stageId := Some(stage.value.id))]
              else Staged(cards, scope[..i], stage)
    ensures var id := scope[i];
            Snapshot(cards, scope[..i + 1], stage) ==
              if CompatibleWithStage(cards[id], stage)
              then Snapshot(cards, scope[..i], stage)[id := cards[id].stageId]
              else Snapshot(cards, scope[..i], stage)
  {
    NotYetVisited(scope, i);
    PrefixStep(cards, scope, i);
    StagedStep(cards, scope, i, stage);
    SnapshotStep(cards, scope, i, stage);
  }

  lemma StagedStep(cards: map<int, Card>, scope: seq<int>, i: int, stage: Option<Stage>)
    requires InStore(cards, scope) && 0 <= i < |scope|
    ensures InStore(cards, scope[..i]) && InStore(cards, scope[..i + 1]) && scope[i] in cards
    ensures var id := scope[i];
            Staged(cards, scope[..i + 1], stage) ==
              if CompatibleWithStage(cards[id], stage)
              then Staged(cards, scope[..i], stage)[id := cards[id].(stageId := Some(stage.value.id))]
              else Staged(cards, scope[..i], stage)
  {
    PrefixStep(cards, scope, i);
  }

  lemma SnapshotStep(cards: map<int, Card>, scope: seq<int>, i: int, stage: Option<Stage>)
    requires InStore(cards, scope) && 0 <= i < |scope|
    ensures InStore(cards, scope[..i]) && InStore(cards, scope[..i + 1]) && scope[i] in cards
    ensures var id := scope[i];
            Snapshot(cards, scope[..i + 1], stage) ==
              if CompatibleWithStage(cards[id], stage)
              then Snapshot(cards, scope[..i], stage)[id := cards[id].stageId]
              else Snapshot(cards, scope[..i], stage)
  {
    PrefixStep(cards, scope, i);
  }

  /** A `Command::Stage` record: its target stage id and, once executed, its undo snapshot. */
  class StageCommand {
    const stageId: int
    var originalStageIdsByCardId: Option<map<int, Option<int>>>

    constructor (stageId: int)
      ensures this.stageId == stageId && originalStageIdsByCardId == None
    {
      this.stageId := stageId;
      originalStageIdsByCardId := None;
    }

    /** `validates_presence_of :stage`: the command is valid exactly when its stage resolves. */
    predicate HasStage(stages: map<int, Stage>): (valid: bool)
      ensures valid <==> stageId in stages
    {
      FindStage(stages, stageId).Some?
    }

    /** What the title shows for the stage: its name, or the bare id when the stage is gone. */
    function StageLabel(stages: map<int, Stage>): (shown: string)
      ensures stageId in stages ==> shown == stages[stageId].name
      ensures stageId !in stages ==> shown == Text.ShowInt(stageId)
    {
      match FindStage(stages, stageId)
      case Some(s) => s.name
      case None => Text.ShowInt(stageId)
    }

    /** `title`: "Move <cards> to stage '<label>'". */
    function Title(cardsDescription: string, stages: map<int, Stage>): (title: string)
      ensures |title| == |cardsDescription| + |StageLabel(stages)| + 17
      ensures title[..5] == "Move " && title[5..5 + |cardsDescription|] == cardsDescription
      ensures title[5 + |cardsDescription|..] == " to stage '" + StageLabel(stages) + "'"
    {
      "Move " + cardsDescription + " to stage '" + StageLabel(stages) + "'"
    }

    /**
     * `execute`: visit the cards in scope in order, skip the incompatible ones, record
     * each other card's stage and move it; then store the snapshot once.
     */
    method Execute(store: CardStore, scope: seq<int>, stages: map<int, Stage>)
      requires InStore(store.cards, scope) && Distinct(scope)
      modifies this, store
      ensures store.cards == Staged(old(store.cards), scope, FindStage(stages, stageId))
      ensures originalStageIdsByCardId == Some(Snapshot(old(store.cards), scope, FindStage(stages, stageId)))
    {
      var target := FindStage(stages, stageId);
      var snapshot: map<int, Option<int>> := map[];
      ghost var before := store.cards;
      var i := 0;
      while i < |scope|
        invariant 0 <= i <= |scope|
        invariant InStore(before, scope[..i])
        invariant store.cards == Staged(before, scope[..i], target)
        invariant snapshot == Snapshot(before, scope[..i], target)
      {
        var id := scope[i];
        ExecuteStep(before, scope, i, target);
        if CompatibleWithStage(store.cards[id], target) {
          snapshot := snapshot[id := store.cards[id].stageId];
          store.ChangeStageTo(id, target.value);
        }
        i := i + 1;
      }
      assert scope[..i] == scope;
      originalStageIdsByCardId := Some(snapshot);
    }

    /**
     * `undo`: replay the snapshot, moving each recorded card back to its recorded stage,
     * skipping cards no longer accessible and stages that no longer exist. Without a
     * snapshot (never executed) it fails and changes nothing.
     */
    method Undo(store: CardStore, accessible: set<int>, stages: map<int, Stage>) returns (ok: bool)
      modifies store
      ensures ok == originalStageIdsByCardId.Some?
      ensures ok ==> store.cards == Restored(old(store.cards), originalStageIdsByCardId.value, accessible, stages)
      ensures !ok ==> store.cards == old(store.cards)
    {
      if originalStageIdsByCardId.None? {
        return false;
      }
      var snap := originalStageIdsByCardId.value;
      var before := store.cards;
      var pending := snap.Keys;
      while pending != {}
        invariant pending <= snap.Keys
        invariant store.cards.Keys == before.Keys
        invariant forall id :: id in before ==>
          store.cards[id] == if id in pending then before[id] else Restored(before, snap, accessible, stages)[id]
        decreases pending
      {
        ghost var some := Inhabitant(pending);
        var cardId :| cardId in pending;
        var target := UndoTarget(before, snap, accessible, stages, cardId);
        if target.Some? {
          store.ChangeStageTo(cardId, target.value);
        }
        pending := pending - {cardId};
      }
      return true;
    }
  }
}
