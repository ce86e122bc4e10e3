/**
 * The session's calculation history: saved schedules under sequential
 * string ids `"1"`, `"2"`, ..., looked up and overwritten by id.
 */
module History {
  import opened Wrappers
  import opened Decimal
  import opened LoanInterest

  datatype HistoryItem = HistoryItem(id: string, resultOutput: seq<DailyInterestRecord>)

  /** `position.toString()`: the id of the `position`-th saved calculation. */
  function IdFor(position: nat): string {
    Numeral(position, 1)
  }

  /** The invariant the menu keeps: the entry at index `k` has id `k + 1`. */
  predicate SequentiallyNumbered(history: seq<HistoryItem>) {
    forall k :: 0 <= k < |history| ==> history[k].id == IdFor(k + 1)
  }

  /** `resultHistory.find(item => item.id === id)`: the first entry with that id. */
  function FindById(history: seq<HistoryItem>, id: string): (r: Option<HistoryItem>)
    ensures r.None? <==> forall k :: 0 <= k < |history| ==> history[k].id != id
    ensures r.Some? ==> r.value.id == id && r.value == history[FindIndexById(history, id)]
  {
    var k := FindIndexById(history, id);
    if k == -1 then None else Some(history[k])
  }

  /** `resultHistory.findIndex(item => item.id === id)`: the first index with that id, or -1. */
  function FindIndexById(history: seq<HistoryItem>, id: string): (k: int)
    ensures -1 <= k < |history|
    ensures k == -1 <==> forall j :: 0 <= j < |history| ==> history[j].id != id
    ensures 0 <= k ==> history[k].id == id && forall j :: 0 <= j < k ==> history[j].id != id
  {
    if history == [] then -1
    else if history[0].id == id then 0
    else
      var k := FindIndexById(history[1..], id);
      if k == -1 then -1 else k + 1
  }

  /** Option 1: save a new calculation, last, under the next sequential id. */
  function SaveCalculation(history: seq<HistoryItem>, output: seq<DailyInterestRecord>): (h: seq<HistoryItem>)
    ensures |h| == |history| + 1
    ensures h[..|history|] == history
    ensures h[|history|] == HistoryItem(IdFor(|history| + 1), output)
    ensures SequentiallyNumbered(h) <==> SequentiallyNumbered(history)
  {
    history + [HistoryItem(IdFor(|history| + 1), output)]
  }

  /** In a sequentially numbered history the next id is not yet taken. */
  lemma NextIdIsFresh(history: seq<HistoryItem>)
    requires SequentiallyNumbered(history)
    ensures forall k :: 0 <= k < |history| ==> history[k].id != IdFor(|history| + 1)
  {
    forall k | 0 <= k < |history| ensures history[k].id != IdFor(|history| + 1) {
      if history[k].id == IdFor(|history| + 1) {
        NumeralInjective(k + 1, |history| + 1, 1);
      }
    }
  }

  /** A saved calculation is found under the id it was given. */
  lemma ViewAfterSave(history: seq<HistoryItem>, output: seq<DailyInterestRecord>)
    requires SequentiallyNumbered(history)
    ensures FindById(SaveCalculation(history, output), IdFor(|history| + 1))
         == Some(HistoryItem(IdFor(|history| + 1), output))
  {
    NextIdIsFresh(history);
  }

  /**
   * Option 3: when an entry has the id, replace the output of the entry at
   * the index `findIndex` gives for that entry's id; otherwise leave the
   * history as it is.
   */
  function ModifyCalculation(history: seq<HistoryItem>, id: string, newOutput: seq<DailyInterestRecord>): (h: seq<HistoryItem>)
    ensures |h| == |history|
    ensures forall k :: 0 <= k < |history| ==> h[k].id == history[k].id
    ensures FindById(history, id).None? ==> h == history
    ensures FindById(history, id).Some? ==>
      var k := FindIndexById(history, id);
      && h[k] == HistoryItem(id, newOutput)
      && forall j :: 0 <= j < |history| && j != k ==> h[j] == history[j]
  {
    var historyItemToEdit := FindById(history, id);
    if historyItemToEdit.None? then history
    else
      var indexToUpdate := FindIndexById(history, historyItemToEdit.value.id);
      if indexToUpdate != -1 then
        history[indexToUpdate := history[indexToUpdate].(resultOutput := newOutput)]
      else history
  }

  /** Ids in a sequentially numbered history are unique. */
  lemma IdsUnique(history: seq<HistoryItem>)
    requires SequentiallyNumbered(history)
    ensures forall i, j :: 0 <= i < |history| && 0 <= j < |history| && history[i].id == history[j].id ==> i == j
  {
    forall i, j | 0 <= i < |history| && 0 <= j < |history| && history[i].id == history[j].id
      ensures i == j
    {
      NumeralInjective(i + 1, j + 1, 1);
    }
  }

  /** Modifying keeps the numbering, and a later view of the id shows the new output. */
  lemma ViewAfterModify(history: seq<HistoryItem>, id: string, newOutput: seq<DailyInterestRecord>)
    requires SequentiallyNumbered(history)
    requires FindById(history, id).Some?
    ensures SequentiallyNumbered(ModifyCalculation(history, id, newOutput))
    ensures FindById(ModifyCalculation(history, id, newOutput), id) == Some(HistoryItem(id, newOutput))
  {
    var h := ModifyCalculation(history, id, newOutput);
    var k := FindIndexById(history, id);
    assert FindIndexById(h, id) == k by {
      assert h[k].id == id;
      assert forall j :: 0 <= j < k ==> h[j].id == history[j].id;
    }
  }

  /** Saving a calculation as `"1"` and then modifying `"1"` keeps the id and shows the new output. */
  lemma SaveThenModifyScenario(first: seq<DailyInterestRecord>, second: seq<DailyInterestRecord>)
    ensures var saved := SaveCalculation([], first);
      && FindById(saved, "1") == Some(HistoryItem("1", first))
      && var modified := ModifyCalculation(saved, "1", second);
      && |modified| == 1
      && modified[0].id == "1"
      && FindById(modified, "1") == Some(HistoryItem("1", second))
  {
    assert IdFor(1) == "1";
    var saved := SaveCalculation([], first);
    ViewAfterSave([], first);
    ViewAfterModify(saved, "1", second);
  }
}
