/**
 * The history projection of the `History` view
 * (packages/client/src/components/History/History.tsx): whenever the
 * observed counter changes, the view walks the keys `0 .. n` of the
 * mirrored `History` table, keeps one row per key that has an entry and
 * replaces its displayed list with the result.
 */
module HistoryComponent {
  import opened Wrappers
  import opened Schema

  /**
   * A displayed row: the counter value it was recorded for, the block
   * number, and the timestamp converted from seconds to milliseconds.
   */
  datatype Row = Row(counter: uint32, blockNumber: uint256, timeMs: nat)

  /** The row shown for key `i` whose stored entry is `e`. */
  function RowOf(i: uint32, e: HistoryEntry): Row
  {
    Row(i, e.blockNumber, e.time * 1000)
  }

  /** What key `i` contributes: its row if the table has an entry, nothing otherwise. */
  function Step(i: uint32, lookup: HistoryTable): seq<Row>
  {
    if i in lookup then [RowOf(i, lookup[i])] else []
  }

  /** The rows for the keys `0 .. k - 1` that have an entry, in key order. */
  function Collect(k: nat, lookup: HistoryTable): seq<Row>
    requires k <= UINT32_LIMIT
  {
    if k == 0 then [] else Collect(k - 1, lookup) + Step(k - 1, lookup)
  }

  /** The list the effect computes for counter value `n`: keys `0 .. n` inclusive. */
  function Projection(n: uint32, lookup: HistoryTable): seq<Row>
  {
    Collect(n + 1, lookup)
  }

  /** The effect's guard: it does nothing when the counter is undefined or zero. */
  predicate EffectRuns(counter: Option<CounterRecord>)
  {
    counter.Some? && counter.value.value != 0
  }

  /** True if some row of `rows` is the one for counter value `i`. */
  predicate HasRowFor(rows: seq<Row>, i: nat)
  {
    exists j :: 0 <= j < |rows| && rows[j].counter == i
  }

  /** Every collected row is for a key below `k`. */
  lemma {:induction false} CollectBounded(k: nat, lookup: HistoryTable)
    requires k <= UINT32_LIMIT
    ensures forall j :: 0 <= j < |Collect(k, lookup)| ==> Collect(k, lookup)[j].counter < k
  {
    if k > 0 {
      CollectBounded(k - 1, lookup);
    }
  }

  /** The collected rows are strictly ascending by counter, so no key appears twice. */
  lemma {:induction false} CollectAscending(k: nat, lookup: HistoryTable)
    requires k <= UINT32_LIMIT
    ensures forall a, b :: 0 <= a < b < |Collect(k, lookup)| ==>
              Collect(k, lookup)[a].counter < Collect(k, lookup)[b].counter
  {
    if k > 0 {
      CollectAscending(k - 1, lookup);
      CollectBounded(k - 1, lookup);
    }
  }

  /** A row for `i` is collected exactly when `i < k` and the table has an entry for `i`. */
  lemma {:induction false} CollectHasRowIff(k: nat, lookup: HistoryTable)
    requires k <= UINT32_LIMIT
    ensures forall i: nat :: HasRowFor(Collect(k, lookup), i) <==> i < k && i in lookup
  {
    if k > 0 {
      var prev, r := Collect(k - 1, lookup), Collect(k, lookup);
      CollectHasRowIff(k - 1, lookup);
      forall i: nat
        ensures HasRowFor(r, i) <==> i < k && i in lookup
      {
        if HasRowFor(r, i) {
          var j :| 0 <= j < |r| && r[j].counter == i;
          if j >= |prev| {
            assert r[j] == RowOf(k - 1, lookup[k - 1]);
          } else {
            assert prev[j] == r[j];
            assert HasRowFor(prev, i);
          }
        }
        if i < k && i in lookup {
          if i == k - 1 {
            assert r[|prev|].counter == i;
          } else {
            var j :| 0 <= j < |prev| && prev[j].counter == i;
            assert r[j] == prev[j];
          }
        }
      }
    }
  }

  /** Each row carries the block number of its key's entry and that entry's time times 1000. */
  lemma {:induction false} CollectRowsMatchEntries(k: nat, lookup: HistoryTable)
    requires k <= UINT32_LIMIT
    ensures forall j :: 0 <= j < |Collect(k, lookup)| ==>
              var row := Collect(k, lookup)[j];
              row.counter in lookup &&
              row.blockNumber == lookup[row.counter].blockNumber &&
              row.timeMs == lookup[row.counter].time * 1000
  {
    if k > 0 {
      CollectRowsMatchEntries(k - 1, lookup);
    }
  }

  /** At most one row per key, and one for every key exactly when none is missing. */
  lemma {:induction false} CollectLength(k: nat, lookup: HistoryTable)
    requires k <= UINT32_LIMIT
    ensures |Collect(k, lookup)| <= k
    ensures |Collect(k, lookup)| == k <==> forall i: nat :: i < k ==> i in lookup
  {
    if k > 0 {
      CollectLength(k - 1, lookup);
    }
  }

  /** With no key missing, row `j` is the row for key `j`. */
  lemma {:induction false} CollectComplete(k: nat, lookup: HistoryTable)
    requires k <= UINT32_LIMIT
    requires forall i: nat :: i < k ==> i in lookup
    ensures |Collect(k, lookup)| == k
    ensures forall j: nat :: j < k ==> Collect(k, lookup)[j] == RowOf(j, lookup[j])
  {
    if k > 0 {
      CollectComplete(k - 1, lookup);
    }
  }

  /** Collecting over more keys only appends: the shorter result is a prefix of the longer. */
  lemma {:induction false} CollectPrefix(k1: nat, k2: nat, lookup: HistoryTable)
    requires k1 <= k2 <= UINT32_LIMIT
    ensures Collect(k1, lookup) <= Collect(k2, lookup)
  {
    if k1 < k2 {
      CollectPrefix(k1, k2 - 1, lookup);
    }
  }

  /** Keys without an entry add nothing: a run of missing keys leaves the result unchanged. */
  lemma {:induction false} CollectSkipsMissing(k1: nat, k2: nat, lookup: HistoryTable)
    requires k1 <= k2 <= UINT32_LIMIT
    requires forall i: nat :: k1 <= i < k2 ==> i !in lookup
    ensures Collect(k2, lookup) == Collect(k1, lookup)
  {
    if k1 < k2 {
      CollectSkipsMissing(k1, k2 - 1, lookup);
    }
  }

  /**
   * The client subscribes only to the `History` rows with keys 1 and 5, so
   * the table holds no other key; the projection is then the row for 1 once
   * `n` reaches 1 and the row for 5 once `n` reaches 5, each if synchronized.
   */
  lemma SubscribedKeysProjection(n: uint32, lookup: HistoryTable)
    requires lookup.Keys <= {1, 5}
    ensures Projection(n, lookup) ==
              (if n >= 1 then Step(1, lookup) else []) + (if n >= 5 then Step(5, lookup) else [])
  {
    assert Collect(1, lookup) == [];
    if n >= 1 {
      assert Collect(2, lookup) == Step(1, lookup);
      CollectSkipsMissing(2, if n >= 5 then 5 else n + 1, lookup);
      if n >= 5 {
        assert Collect(6, lookup) == Step(1, lookup) + Step(5, lookup);
        CollectSkipsMissing(6, n + 1, lookup);
      }
    }
  }

  /** The effect's loop (History.tsx:25-36), building the new list key by key. */
  method BuildHistory(n: uint32, lookup: HistoryTable) returns (newHistory: seq<Row>)
    ensures newHistory == Projection(n, lookup)
  {
    newHistory := [];
    var i: nat := 0;
    while i <= n
      invariant i <= n + 1
      invariant newHistory == Collect(i, lookup)
    {
      if i in lookup {
        var value := lookup[i];
        newHistory := newHistory + [RowOf(i, value)];
      }
      i := i + 1;
    }
  }

  /** The view's state: the list of rows it displays. */
  class History {
    var history: seq<Row>

    /** The view starts with an empty list. */
    constructor ()
      ensures history == []
    {
      history := [];
    }

    /**
     * The effect run on a counter change: unless the counter is undefined or
     * zero, the displayed list is replaced by the projection of the table for
     * the counter's value, computed afresh; otherwise it is kept as it was.
     */
    method OnCounterChange(counter: Option<CounterRecord>, lookup: HistoryTable)
      modifies this
      ensures !EffectRuns(counter) ==> history == old(history)
      ensures EffectRuns(counter) ==> history == Projection(counter.value.value, lookup)
    {
      if counter.None? || counter.value.value == 0 {
        return;
      }
      var newHistory := BuildHistory(counter.value.value, lookup);
      history := newHistory;
    }
  }
}

/** How the effect behaves over a run of counter changes seen by one view. */
module HistoryScenarios {
  import opened Wrappers
  import opened Schema
  import opened HistoryComponent

  /**
   * A view that sees the counter at 0, then at `n`, then back at 0 and then
   * undefined: nothing is shown at first, even if key 0 has an entry; the
   * projection for `n` is shown after the second change and is still shown
   * after the last two.
   */
  method ZeroAndResetKeepHistory(n: uint32, lookup: HistoryTable)
    returns (atZero: seq<Row>, afterN: seq<Row>, afterReset: seq<Row>)
    requires n != 0
    ensures atZero == []
    ensures afterN == Projection(n, lookup)
    ensures afterReset == afterN
  {
    var view := new History();
    view.OnCounterChange(Some(CounterRecord(0)), lookup);
    atZero := view.history;
    view.OnCounterChange(Some(CounterRecord(n)), lookup);
    afterN := view.history;
    view.OnCounterChange(Some(CounterRecord(0)), lookup);
    view.OnCounterChange(None, lookup);
    afterReset := view.history;
  }
}
