/** The heuristic miner: labels the transitions of a case-ordered event log, interleaves the
    incoming and case-ending labels into one column, counts labels and scores dependencies. */
module HeuristicMiner {
  import opened Wrappers
  import opened Labels
  import opened Frames
  import opened Counting

  /** One row of the event log: its index label, position key, time, case id
      (`transaction_id`) and category (`transaction_type`). */
  datatype Event = Event(index: int, totalPos: int, timestamp: int, transactionId: int, transactionType: string)

  /** `EmptyLog`: an empty log raises before anything is counted, either a `ValueError` when
      the row-wise `apply` result is assigned to one column, or, where `apply` reduces an
      empty frame to an empty series, an `IndexError` because the gap frame has no first row.
      `MalformedLabel`: a label that `split('->')` does not cut into exactly two pieces
      (a `ValueError` on unpacking). */
  datatype MinerError = EmptyLog | MalformedLabel

  /** A row of the transition frame: `total_pos`, `timestamp`, `transition`. The numbers are
      exact integers here; in the program they are floats after the gap rows are added. */
  datatype TransitionRow = TransitionRow(totalPos: Option<int>, timestamp: Option<int>, transition: Option<string>)

  /** The transition frame and the occurrence count of each label in it. */
  datatype Transitions = Transitions(frame: seq<TransitionRow>, counts: map<string, nat>)

  /** A row of the doubled frame, holding the columns still needed after the concatenation. */
  datatype WideRow = WideRow(totalPos: Option<int>, timestamp: Option<int>, curr: Option<string>, next: Option<string>)

  /** A row of the all-missing gap frame. */
  const GapRow: WideRow := WideRow(None, None, None, None)

  // ---------------------------------------------------------------------------------------
  // Reference reading of a case-ordered log

  /** Event `i` opens a case: it is the first row or its case id differs from the row above. */
  predicate StartsCase(log: seq<Event>, i: int)
    requires 0 <= i < |log|
  {
    i == 0 || log[i - 1].transactionId != log[i].transactionId
  }

  /** Event `i` closes a case: it is the last row or its case id differs from the row below. */
  predicate EndsCase(log: seq<Event>, i: int)
    requires 0 <= i < |log|
  {
    i == |log| - 1 || log[i + 1].transactionId != log[i].transactionId
  }

  /** The transition into event `i`. */
  function Incoming(log: seq<Event>, i: int): string
    requires 0 <= i < |log|
  {
    if StartsCase(log, i) then Join(Start, log[i].transactionType)
    else Join(log[i - 1].transactionType, log[i].transactionType)
  }

  /** The transition from event `i` to the end of its case. */
  function Outgoing(log: seq<Event>, i: int): string
    requires 0 <= i < |log|
  {
    Join(log[i].transactionType, End)
  }

  /** The index labels are unique, as they are for any frame produced by a merge or a group. */
  predicate UniqueIndex(log: seq<Event>) {
    forall p, q :: 0 <= p < q < |log| ==> log[p].index != log[q].index
  }

  /** The index labels are `0, 1, ..., n-1`. */
  predicate RangeIndex(log: seq<Event>) {
    forall i :: 0 <= i < |log| ==> log[i].index == i
  }

  // ---------------------------------------------------------------------------------------
  // Per-row labelling

  /** `get_curr_trans`: a missing previous id compares unequal to every id.
      `CurrTransitions` relates the column it builds to `Incoming`. */
  function GetCurrTrans(prevId: Option<int>, prevType: Option<string>, currId: int, currType: string): (trans: string)
    ensures prevId != Some(currId) ==> trans == Join(Start, currType)
    ensures prevId == Some(currId) ==> trans == Join(Show(prevType), currType)
  {
    if prevId != Some(currId) then Join(Start, currType)
    else Join(Show(prevType), currType)
  }

  /** `get_next_trans`: a missing next id compares unequal to every id.
      `NextTransitions` relates the column it builds to `EndsCase` and `Outgoing`. */
  function GetNextTrans(currId: int, currType: string, nextId: Option<int>): (trans: Option<string>)
    ensures trans.Some? <==> nextId != Some(currId)
    ensures trans.Some? ==> trans.value == Join(currType, End)
  {
    if nextId != Some(currId) then Some(Join(currType, End)) else None
  }

  /** `merge_transition`: the first cell when it holds a string, otherwise the second.
      `CogInterleave` states the rows it fills. */
  function MergeTransition(trans: Option<string>, nxt: Option<string>): (r: Option<string>)
    ensures trans.Some? ==> r == trans
    ensures trans.None? ==> r == nxt
  {
    match trans
    case Some(_) => trans
    case None => nxt
  }

  function Ids(log: seq<Event>): (col: seq<Option<int>>)
    ensures |col| == |log|
    ensures forall i {:trigger col[i]} :: 0 <= i < |log| ==> col[i] == Some(log[i].transactionId)
  {
    Lift(seq(|log|, i requires 0 <= i < |log| => log[i].transactionId))
  }

  function Types(log: seq<Event>): (col: seq<Option<string>>)
    ensures |col| == |log|
    ensures forall i {:trigger col[i]} :: 0 <= i < |log| ==> col[i] == Some(log[i].transactionType)
  {
    Lift(seq(|log|, i requires 0 <= i < |log| => log[i].transactionType))
  }

  /** The `curr_transition` column: each row compared with its `shift(1)` neighbour. */
  function CurrTransitions(log: seq<Event>): (r: seq<string>)
    ensures |r| == |log|
    ensures forall i {:trigger r[i]} :: 0 <= i < |log| ==> r[i] == Incoming(log, i)
  {
    var prevType := ShiftDown(Types(log));
    var prevId := ShiftDown(Ids(log));
    seq(|log|, i requires 0 <= i < |log| =>
      GetCurrTrans(prevId[i], prevType[i], log[i].transactionId, log[i].transactionType))
  }

  /** The `next_transition` column: each row compared with its `shift(-1)` neighbour. */
  function NextTransitions(log: seq<Event>): (r: seq<Option<string>>)
    ensures |r| == |log|
    ensures forall i {:trigger r[i]} :: 0 <= i < |log| ==>
      r[i] == if EndsCase(log, i) then Some(Outgoing(log, i)) else None
  {
    var nextId := ShiftUp(Ids(log));
    seq(|log|, i requires 0 <= i < |log| =>
      GetNextTrans(log[i].transactionId, log[i].transactionType, nextId[i]))
  }

  // ---------------------------------------------------------------------------------------
  // The "cog" interleave

  /** The two label columns line up with the log. */
  predicate Aligned(log: seq<Event>, curr: seq<string>, next: seq<Option<string>>) {
    |curr| == |log| && |next| == |log|
  }

  /** The doubled-frame row of event `i`: its position, time and two labels. */
  function EventRow(log: seq<Event>, curr: seq<string>, next: seq<Option<string>>, i: int): WideRow
    requires Aligned(log, curr, next) && 0 <= i < |log|
  {
    WideRow(Some(log[i].totalPos), Some(log[i].timestamp), Some(curr[i]), next[i])
  }

  /** `event_log.index = event_log.index * 2`: the event rows with their index labels doubled. */
  function EventFrame(log: seq<Event>, curr: seq<string>, next: seq<Option<string>>): (frame: seq<(int, WideRow)>)
    requires Aligned(log, curr, next)
    ensures |frame| == |log|
    ensures forall i {:trigger frame[i]} :: 0 <= i < |log| ==>
      frame[i] == (log[i].index * 2, EventRow(log, curr, next, i))
  {
    seq(|log|, i requires 0 <= i < |log| => (log[i].index * 2, EventRow(log, curr, next, i)))
  }

  /** The all-missing frame labelled `2j - 1` for `j < n`, without its first row. */
  function GapFrame(n: nat): (frame: seq<(int, WideRow)>)
    requires n >= 1
    ensures |frame| == n - 1
    ensures forall j :: 0 <= j < n - 1 ==> frame[j] == (2 * j + 1, GapRow)
  {
    var empty := seq(n, j requires 0 <= j < n => (j * 2 - 1, GapRow));
    empty[1..]
  }

  /** Event rows and gap rows concatenated and sorted by index label. */
  function InterleavedRows(log: seq<Event>, curr: seq<string>, next: seq<Option<string>>): (rows: seq<WideRow>)
    requires Aligned(log, curr, next) && |log| >= 1
    ensures |rows| == |SortIndex(EventFrame(log, curr, next) + GapFrame(|log|))|
    ensures forall k :: 0 <= k < |rows| ==> rows[k] == SortIndex(EventFrame(log, curr, next) + GapFrame(|log|))[k].1
  {
    var sorted := SortIndex(EventFrame(log, curr, next) + GapFrame(|log|));
    seq(|sorted|, k requires 0 <= k < |sorted| => sorted[k].1)
  }

  function PosColumn(full: seq<WideRow>): (col: seq<Option<int>>)
    ensures |col| == |full|
    ensures forall k :: 0 <= k < |full| ==> col[k] == full[k].totalPos
  {
    seq(|full|, k requires 0 <= k < |full| => full[k].totalPos)
  }

  function TimeColumn(full: seq<WideRow>): (col: seq<Option<int>>)
    ensures |col| == |full|
    ensures forall k :: 0 <= k < |full| ==> col[k] == full[k].timestamp
  {
    seq(|full|, k requires 0 <= k < |full| => full[k].timestamp)
  }

  function NextColumn(full: seq<WideRow>): (col: seq<Option<string>>)
    ensures |col| == |full|
    ensures forall k :: 0 <= k < |full| ==> col[k] == full[k].next
  {
    seq(|full|, k requires 0 <= k < |full| => full[k].next)
  }

  /** The `transition` column of a transition frame. */
  function TransitionColumn(frame: seq<TransitionRow>): (col: seq<Option<string>>)
    ensures |col| == |frame|
    ensures forall k :: 0 <= k < |frame| ==> col[k] == frame[k].transition
  {
    seq(|frame|, k requires 0 <= k < |frame| => frame[k].transition)
  }

  /** The `transition` column before filling: `merge_transition` of each row's incoming label
      with the case-ending label shifted down from the row above. */
  function MergedColumn(full: seq<WideRow>): (col: seq<Option<string>>)
    ensures |col| == |full|
    ensures forall k :: 0 <= k < |full| ==> col[k] == MergeTransition(full[k].curr, ShiftDown(NextColumn(full))[k])
  {
    var nextShifted := ShiftDown(NextColumn(full));
    seq(|full|, k requires 0 <= k < |full| => MergeTransition(full[k].curr, nextShifted[k]))
  }

  /** The three kept columns, each forward-filled. */
  function FilledFrame(full: seq<WideRow>): (frame: seq<TransitionRow>)
    ensures |frame| == |full|
    ensures forall k :: 0 <= k < |full| ==>
      frame[k] == TransitionRow(FillForward(PosColumn(full))[k], FillForward(TimeColumn(full))[k],
                                FillForward(MergedColumn(full))[k])
  {
    var pos := FillForward(PosColumn(full));
    var ts := FillForward(TimeColumn(full));
    var tr := FillForward(MergedColumn(full));
    seq(|full|, k requires 0 <= k < |full| => TransitionRow(pos[k], ts[k], tr[k]))
  }

  /** The filled transition frame of a non-empty log. */
  function TransitionFrame(log: seq<Event>): seq<TransitionRow>
    requires |log| >= 1
  {
    FilledFrame(InterleavedRows(log, CurrTransitions(log), NextTransitions(log)))
  }

  /** `compute_transitions`: label every event, interleave the incoming labels with the shifted
      case-ending labels, forward-fill the gaps and count the labels. */
  function ComputeTransitions(log: seq<Event>): (r: Result<Transitions, MinerError>)
    requires UniqueIndex(log)
    ensures r.Failure? <==> |log| == 0
    ensures r.Success? ==> forall l :: l in r.value.counts <==> Some(l) in TransitionColumn(r.value.frame)
    ensures r.Success? ==> forall l :: l in r.value.counts ==>
      r.value.counts[l] == multiset(TransitionColumn(r.value.frame))[Some(l)]
  {
    if |log| == 0 then Failure(EmptyLog)
    else
      var frame := TransitionFrame(log);
      Success(Transitions(frame, GroupCount(TransitionColumn(frame))))
  }

  // ---------------------------------------------------------------------------------------
  // What the interleave produces when the index is 0..n-1

  /** The labels of the concatenated frame: events at `0, 2, 4, ...`, then gaps at `1, 3, 5, ...`. */
  lemma ConcatLabels(log: seq<Event>, curr: seq<string>, next: seq<Option<string>>)
    requires Aligned(log, curr, next) && RangeIndex(log) && |log| >= 1
    ensures |EventFrame(log, curr, next) + GapFrame(|log|)| == 2 * |log| - 1
    ensures forall q :: 0 <= q < |log| ==> (EventFrame(log, curr, next) + GapFrame(|log|))[q].0 == 2 * q
    ensures forall q :: |log| <= q < 2 * |log| - 1 ==>
      (EventFrame(log, curr, next) + GapFrame(|log|))[q] == (2 * (q - |log|) + 1, GapRow)
  {
    var e: seq<(int, WideRow)> := EventFrame(log, curr, next);
    var g: seq<(int, WideRow)> := GapFrame(|log|);
    forall q | 0 <= q < |log|
      ensures (e + g)[q].0 == 2 * q
    {
      assert (e + g)[q] == e[q];
    }
    forall q | |log| <= q < 2 * |log| - 1
      ensures (e + g)[q] == (2 * (q - |log|) + 1, GapRow)
    {
      assert (e + g)[q] == g[q - |log|];
    }
  }

  /** In a frame labelled `0, 2, ..., 2n-2, 1, 3, ...`, no row before the gap `h` carries its label. */
  lemma OddLabelFirst(c: seq<(int, WideRow)>, n: nat, h: nat)
    requires n + h < |c|
    requires forall q :: 0 <= q < n ==> c[q].0 == 2 * q
    requires forall q :: n <= q < |c| ==> c[q] == (2 * (q - n) + 1, GapRow)
    ensures forall q :: 0 <= q < n + h ==> c[q].0 != 2 * h + 1
  {
  }

  /** Label `2i` is carried first by event `i`. */
  lemma LookupEvent(log: seq<Event>, curr: seq<string>, next: seq<Option<string>>, i: int)
    requires Aligned(log, curr, next) && RangeIndex(log) && 0 <= i < |log|
    ensures Lookup(EventFrame(log, curr, next) + GapFrame(|log|), 2 * i) == Some(EventRow(log, curr, next, i))
  {
    var e: seq<(int, WideRow)> := EventFrame(log, curr, next);
    var c: seq<(int, WideRow)> := e + GapFrame(|log|);
    ConcatLabels(log, curr, next);
    assert c[i] == e[i];
    assert e[i].1 == EventRow(log, curr, next, i);
    LookupFirst(c, i, 2 * i);
  }

  /** Label `2h + 1` is carried first by gap `h`. */
  lemma LookupGap(log: seq<Event>, curr: seq<string>, next: seq<Option<string>>, h: int)
    requires Aligned(log, curr, next) && RangeIndex(log) && 0 <= h < |log| - 1
    ensures Lookup(EventFrame(log, curr, next) + GapFrame(|log|), 2 * h + 1) == Some(GapRow)
  {
    var c: seq<(int, WideRow)> := EventFrame(log, curr, next) + GapFrame(|log|);
    var n := |log|;
    ConcatLabels(log, curr, next);
    assert n <= n + h < 2 * n - 1;
    assert c[n + h] == (2 * (n + h - n) + 1, GapRow);
    OddLabelFirst(c, n, h);
    LookupFirst(c, n + h, 2 * h + 1);
  }

  /** Sorting the doubled frame of a range-indexed log alternates events and gaps. */
  lemma InterleavedDense(log: seq<Event>, curr: seq<string>, next: seq<Option<string>>)
    requires Aligned(log, curr, next) && RangeIndex(log) && |log| >= 1
    ensures |InterleavedRows(log, curr, next)| == 2 * |log| - 1
    ensures forall i :: 0 <= i < |log| ==>
      InterleavedRows(log, curr, next)[2 * i] == EventRow(log, curr, next, i)
    ensures forall h :: 0 <= h < |log| - 1 ==> InterleavedRows(log, curr, next)[2 * h + 1] == GapRow
  {
    var c := EventFrame(log, curr, next) + GapFrame(|log|);
    var m := 2 * |log| - 1;
    ConcatLabels(log, curr, next);
    forall k | 0 <= k < m
      ensures Lookup(c, k).Some?
    {
      var h := k / 2;
      assert k == 2 * h || k == 2 * h + 1;
      if k == 2 * h {
        LookupEvent(log, curr, next, h);
      } else {
        assert k == 2 * h + 1;
        LookupGap(log, curr, next, h);
      }
    }
    forall p | 0 <= p < |c|
      ensures 0 <= c[p].0 < m
    {
    }
    SortIndexDense(c, m);
    var rows := InterleavedRows(log, curr, next);
    var sorted := SortIndex(c);
    forall i | 0 <= i < |log|
      ensures rows[2 * i] == EventRow(log, curr, next, i)
    {
      LookupEvent(log, curr, next, i);
      assert rows[2 * i] == sorted[2 * i].1;
    }
    forall h | 0 <= h < |log| - 1
      ensures rows[2 * h + 1] == GapRow
    {
      LookupGap(log, curr, next, h);
      assert rows[2 * h + 1] == sorted[2 * h + 1].1;
    }
  }

  /** The merged column of a range-indexed log, before filling: each event's incoming label,
      and after it the label shifted down from it. */
  lemma MergedDense(log: seq<Event>, curr: seq<string>, next: seq<Option<string>>)
    requires Aligned(log, curr, next) && RangeIndex(log) && |log| >= 1
    ensures |MergedColumn(InterleavedRows(log, curr, next))| == 2 * |log| - 1
    ensures forall i :: 0 <= i < |log| ==>
      MergedColumn(InterleavedRows(log, curr, next))[2 * i] == Some(curr[i])
    ensures forall h :: 0 <= h < |log| - 1 ==>
      MergedColumn(InterleavedRows(log, curr, next))[2 * h + 1] == next[h]
  {
    var full := InterleavedRows(log, curr, next);
    InterleavedDense(log, curr, next);
    var nextCol := NextColumn(full);
    var nextShifted := ShiftDown(nextCol);
    var merged := MergedColumn(full);
    forall i | 0 <= i < |log|
      ensures merged[2 * i] == Some(curr[i])
    {
      assert full[2 * i] == EventRow(log, curr, next, i);
    }
    forall h | 0 <= h < |log| - 1
      ensures merged[2 * h + 1] == next[h]
    {
      assert full[2 * h + 1] == GapRow;
      assert nextShifted[2 * h + 1] == nextCol[2 * h];
      assert full[2 * h] == EventRow(log, curr, next, h);
    }
  }

  /** The four columns the filled frame is built from, for a range-indexed log. */
  lemma FilledColumns(log: seq<Event>, curr: seq<string>, next: seq<Option<string>>)
    requires Aligned(log, curr, next) && RangeIndex(log) && |log| >= 1
    ensures var full := InterleavedRows(log, curr, next);
      |full| == 2 * |log| - 1 &&
      (forall i :: 0 <= i < |log| ==> full[2 * i] == EventRow(log, curr, next, i)) &&
      (forall h :: 0 <= h < |log| - 1 ==> full[2 * h + 1] == GapRow) &&
      (forall i :: 0 <= i < |log| ==> MergedColumn(full)[2 * i] == Some(curr[i])) &&
      (forall h :: 0 <= h < |log| - 1 ==> MergedColumn(full)[2 * h + 1] == next[h])
  {
    InterleavedDense(log, curr, next);
    MergedDense(log, curr, next);
  }

  /** The filled frame of a range-indexed log: row `2i` carries event `i` and its incoming label. */
  lemma FilledEven(log: seq<Event>, curr: seq<string>, next: seq<Option<string>>, i: int)
    requires Aligned(log, curr, next) && RangeIndex(log) && 0 <= i < |log|
    ensures |FilledFrame(InterleavedRows(log, curr, next))| == 2 * |log| - 1
    ensures FilledFrame(InterleavedRows(log, curr, next))[2 * i] ==
      TransitionRow(Some(log[i].totalPos), Some(log[i].timestamp), Some(curr[i]))
  {
    var full := InterleavedRows(log, curr, next);
    FilledColumns(log, curr, next);
    var frame := FilledFrame(full);
    var posCol := PosColumn(full);
    var tsCol := TimeColumn(full);
    var merged := MergedColumn(full);
    assert full[2 * i] == EventRow(log, curr, next, i);
    assert FillForward(posCol)[2 * i] == posCol[2 * i];
    assert FillForward(tsCol)[2 * i] == tsCol[2 * i];
    assert FillForward(merged)[2 * i] == merged[2 * i];
  }

  /** The filled frame of a range-indexed log: row `2h + 1` carries event `h` and its
      case-ending label when there is one, and a copy of its incoming label otherwise. */
  lemma FilledOdd(log: seq<Event>, curr: seq<string>, next: seq<Option<string>>, h: int)
    requires Aligned(log, curr, next) && RangeIndex(log) && 0 <= h < |log| - 1
    ensures |FilledFrame(InterleavedRows(log, curr, next))| == 2 * |log| - 1
    ensures FilledFrame(InterleavedRows(log, curr, next))[2 * h + 1] ==
      TransitionRow(Some(log[h].totalPos), Some(log[h].timestamp),
        if next[h].Some? then next[h] else Some(curr[h]))
  {
    var full := InterleavedRows(log, curr, next);
    FilledColumns(log, curr, next);
    var posCol := PosColumn(full);
    var tsCol := TimeColumn(full);
    var merged := MergedColumn(full);
    assert full[2 * h] == EventRow(log, curr, next, h);
    assert full[2 * h + 1] == GapRow;
    assert FillForward(posCol)[2 * h + 1] == PresentAbove(None, posCol, 2 * h) == posCol[2 * h];
    assert FillForward(tsCol)[2 * h + 1] == PresentAbove(None, tsCol, 2 * h) == tsCol[2 * h];
    if next[h].None? {
      assert FillForward(merged)[2 * h + 1] == PresentAbove(None, merged, 2 * h) == merged[2 * h];
    } else {
      assert FillForward(merged)[2 * h + 1] == merged[2 * h + 1];
    }
  }

  /** The whole filled frame of a range-indexed log, row by row, in terms of the two label
      columns. */
  lemma FilledDense(log: seq<Event>, curr: seq<string>, next: seq<Option<string>>)
    requires Aligned(log, curr, next) && RangeIndex(log) && |log| >= 1
    ensures |FilledFrame(InterleavedRows(log, curr, next))| == 2 * |log| - 1
    ensures forall i :: 0 <= i < |log| ==>
      FilledFrame(InterleavedRows(log, curr, next))[2 * i] ==
        TransitionRow(Some(log[i].totalPos), Some(log[i].timestamp), Some(curr[i]))
    ensures forall h :: 0 <= h < |log| - 1 ==>
      FilledFrame(InterleavedRows(log, curr, next))[2 * h + 1] ==
        TransitionRow(Some(log[h].totalPos), Some(log[h].timestamp),
          if next[h].Some? then next[h] else Some(curr[h]))
  {
    FilledEven(log, curr, next, 0);
    forall i | 0 <= i < |log|
      ensures FilledFrame(InterleavedRows(log, curr, next))[2 * i] ==
        TransitionRow(Some(log[i].totalPos), Some(log[i].timestamp), Some(curr[i]))
    {
      FilledEven(log, curr, next, i);
    }
    forall h | 0 <= h < |log| - 1
      ensures FilledFrame(InterleavedRows(log, curr, next))[2 * h + 1] ==
        TransitionRow(Some(log[h].totalPos), Some(log[h].timestamp),
          if next[h].Some? then next[h] else Some(curr[h]))
    {
      FilledOdd(log, curr, next, h);
    }
  }

  /** Row `k` of an interleaved frame belongs to event `k / 2`: `k` is `2h` or `2h + 1`. */
  lemma Half(k: nat) returns (h: nat)
    ensures k == 2 * h || k == 2 * h + 1
  {
    h := k / 2;
  }

  /** The filled frame of a range-indexed log has no missing label. */
  lemma FilledPresent(log: seq<Event>, curr: seq<string>, next: seq<Option<string>>)
    requires Aligned(log, curr, next) && RangeIndex(log) && |log| >= 1
    ensures |FilledFrame(InterleavedRows(log, curr, next))| == 2 * |log| - 1
    ensures forall k :: 0 <= k < 2 * |log| - 1 ==>
      FilledFrame(InterleavedRows(log, curr, next))[k].transition.Some?
  {
    FilledDense(log, curr, next);
    var frame := FilledFrame(InterleavedRows(log, curr, next));
    forall k | 0 <= k < 2 * |log| - 1
      ensures frame[k].transition.Some?
    {
      var h := Half(k);
      if k == 2 * h {
        assert frame[2 * h].transition.Some?;
      } else {
        assert h < |log| - 1;
        assert frame[2 * h + 1] == TransitionRow(Some(log[h].totalPos), Some(log[h].timestamp),
          if next[h].Some? then next[h] else Some(curr[h]));
      }
    }
  }

  /** Row `2i` of the transition frame holds event `i` and its incoming label. */
  lemma TransitionEven(log: seq<Event>, i: int)
    requires RangeIndex(log) && 0 <= i < |log|
    ensures |TransitionFrame(log)| == 2 * |log| - 1
    ensures TransitionFrame(log)[2 * i] ==
      TransitionRow(Some(log[i].totalPos), Some(log[i].timestamp), Some(Incoming(log, i)))
  {
    var curr := CurrTransitions(log);
    var next := NextTransitions(log);
    FilledEven(log, curr, next, i);
    assert curr[i] == Incoming(log, i);
  }

  /** Row `2h + 1` of the transition frame holds event `h` and its case-ending label, or a
      copy of its incoming label. */
  lemma TransitionOdd(log: seq<Event>, h: int)
    requires RangeIndex(log) && 0 <= h < |log| - 1
    ensures |TransitionFrame(log)| == 2 * |log| - 1
    ensures TransitionFrame(log)[2 * h + 1] ==
      TransitionRow(Some(log[h].totalPos), Some(log[h].timestamp),
        Some(if EndsCase(log, h) then Outgoing(log, h) else Incoming(log, h)))
  {
    var curr := CurrTransitions(log);
    var next := NextTransitions(log);
    FilledOdd(log, curr, next, h);
    assert curr[h] == Incoming(log, h);
    assert next[h] == if EndsCase(log, h) then Some(Outgoing(log, h)) else None;
  }

  /** The transition frame of a range-indexed log of `n >= 1` events has `2n - 1` rows.
      Rows `2i` and `2i + 1` carry the position and time of event `i`. Row `2i` holds the
      incoming label of event `i`. Row `2i + 1` holds the case-ending label of event `i` when
      event `i` closes its case, and otherwise a forward-filled copy of its incoming label.
      No row follows the last event, so its case-ending label never appears. */
  lemma CogInterleave(log: seq<Event>)
    requires RangeIndex(log) && |log| >= 1
    ensures ComputeTransitions(log).Success?
    ensures var frame := ComputeTransitions(log).value.frame;
      |frame| == 2 * |log| - 1 &&
      (forall i {:trigger Incoming(log, i)} :: 0 <= i < |log| ==>
        frame[2 * i] == TransitionRow(Some(log[i].totalPos), Some(log[i].timestamp), Some(Incoming(log, i)))) &&
      (forall h {:trigger EndsCase(log, h)} :: 0 <= h < |log| - 1 ==>
        frame[2 * h + 1] == TransitionRow(Some(log[h].totalPos), Some(log[h].timestamp),
          Some(if EndsCase(log, h) then Outgoing(log, h) else Incoming(log, h))))
  {
    CogEvenRows(log);
    CogOddRows(log);
  }

  lemma CogEvenRows(log: seq<Event>)
    requires RangeIndex(log) && |log| >= 1
    ensures ComputeTransitions(log).Success?
    ensures var frame := ComputeTransitions(log).value.frame;
      |frame| == 2 * |log| - 1 &&
      forall i {:trigger Incoming(log, i)} :: 0 <= i < |log| ==>
        frame[2 * i] == TransitionRow(Some(log[i].totalPos), Some(log[i].timestamp), Some(Incoming(log, i)))
  {
    var frame := TransitionFrame(log);
    TransitionEven(log, 0);
    forall i | 0 <= i < |log|
      ensures frame[2 * i] ==
        TransitionRow(Some(log[i].totalPos), Some(log[i].timestamp), Some(Incoming(log, i)))
    {
      TransitionEven(log, i);
    }
  }

  lemma CogOddRows(log: seq<Event>)
    requires RangeIndex(log) && |log| >= 1
    ensures ComputeTransitions(log).Success?
    ensures var frame := ComputeTransitions(log).value.frame;
      |frame| == 2 * |log| - 1 &&
      forall h {:trigger EndsCase(log, h)} :: 0 <= h < |log| - 1 ==>
        frame[2 * h + 1] == TransitionRow(Some(log[h].totalPos), Some(log[h].timestamp),
          Some(if EndsCase(log, h) then Outgoing(log, h) else Incoming(log, h)))
  {
    var frame := TransitionFrame(log);
    TransitionEven(log, 0);
    forall h | 0 <= h < |log| - 1
      ensures frame[2 * h + 1] ==
        TransitionRow(Some(log[h].totalPos), Some(log[h].timestamp),
          Some(if EndsCase(log, h) then Outgoing(log, h) else Incoming(log, h)))
    {
      TransitionOdd(log, h);
    }
  }

  /** The label column of the three-event example below. */
  const ExampleColumn: seq<Option<string>> :=
    [Some("sta->UtC"), Some("sta->UtC"), Some("UtC->CtU"), Some("CtU->end"), Some("sta->UtU")]

  /** The counts of the example labels. */
  const ExampleCountsMap: map<string, nat> :=
    map["sta->UtC" := 2, "UtC->CtU" := 1, "CtU->end" := 1, "sta->UtU" := 1]

  /** The labels of the example column are the keys of the example counts. */
  lemma ExampleKeys()
    ensures forall l :: Some(l) in ExampleColumn <==> l in ExampleCountsMap
  {
    forall l
      ensures Some(l) in ExampleColumn <==> l in ExampleCountsMap
    {
      if Some(l) in ExampleColumn {
        var k :| 0 <= k < 5 && ExampleColumn[k] == Some(l);
      }
    }
  }

  /** How often each example label occurs. */
  lemma ExampleMultiplicities()
    ensures forall l :: l in ExampleCountsMap ==> multiset(ExampleColumn)[Some(l)] == ExampleCountsMap[l]
  {
    var m := multiset(ExampleColumn);
    assert m == multiset{Some("sta->UtC"), Some("sta->UtC"), Some("UtC->CtU"), Some("CtU->end"), Some("sta->UtU")};
  }

  /** The counts of the example column. */
  lemma ExampleCounts()
    ensures GroupCount(ExampleColumn) == ExampleCountsMap
  {
    ExampleKeys();
    ExampleMultiplicities();
    GroupCountIs(ExampleColumn, ExampleCountsMap);
  }

  /** The labels of the example, spelled out. */
  lemma ExampleLabels()
    ensures Join(Start, "UtC") == "sta->UtC" && Join("UtC", "CtU") == "UtC->CtU"
    ensures Join("CtU", End) == "CtU->end" && Join(Start, "UtU") == "sta->UtU"
  {
  }

  /** A five-cell column holding the example labels is the example column. */
  lemma ExampleColumnCells(col: seq<Option<string>>)
    requires |col| == 5
    requires col[0] == Some(Join(Start, "UtC")) && col[1] == Some(Join(Start, "UtC"))
    requires col[2] == Some(Join("UtC", "CtU")) && col[3] == Some(Join("CtU", End))
    requires col[4] == Some(Join(Start, "UtU"))
    ensures col == ExampleColumn
  {
    ExampleLabels();
  }

  /** The example log, as the requirements of the lemmas below state it. */
  predicate ExampleLog(log: seq<Event>) {
    RangeIndex(log) && |log| == 3 &&
    log[0].transactionId == log[1].transactionId != log[2].transactionId &&
    log[0].transactionType == "UtC" && log[1].transactionType == "CtU" && log[2].transactionType == "UtU"
  }

  /** The labels of the example log's events. */
  lemma ExampleEventLabels(log: seq<Event>)
    requires ExampleLog(log)
    ensures Incoming(log, 0) == Join(Start, "UtC") && Incoming(log, 1) == Join("UtC", "CtU")
    ensures Incoming(log, 2) == Join(Start, "UtU")
    ensures !EndsCase(log, 0) && EndsCase(log, 1) && Outgoing(log, 1) == Join("CtU", End)
  {
  }

  /** The five labels of the example log's transition frame. */
  lemma ExampleFrameCells(log: seq<Event>)
    requires ExampleLog(log)
    ensures var frame := TransitionFrame(log);
      |frame| == 5 &&
      frame[0].transition == Some(Join(Start, "UtC")) && frame[1].transition == Some(Join(Start, "UtC")) &&
      frame[2].transition == Some(Join("UtC", "CtU")) && frame[3].transition == Some(Join("CtU", End)) &&
      frame[4].transition == Some(Join(Start, "UtU"))
  {
    ExampleEventLabels(log);
    TransitionEven(log, 0);
    TransitionEven(log, 1);
    TransitionEven(log, 2);
    TransitionOdd(log, 0);
    TransitionOdd(log, 1);
  }

  /** The label column of the example log. */
  lemma ExampleTransitions(log: seq<Event>)
    requires ExampleLog(log)
    ensures ComputeTransitions(log).Success?
    ensures TransitionColumn(ComputeTransitions(log).value.frame) == ExampleColumn
  {
    ExampleFrameCells(log);
    var col := TransitionColumn(TransitionFrame(log));
    ExampleColumnCells(col);
    assert ComputeTransitions(log).value.frame == TransitionFrame(log);
  }

  /** A range-indexed log of three events in two cases: `UtC, CtU` in the first and `UtU` in
      the second. The first gap copies `"sta->UtC"`, the second gap holds `"CtU->end"`, and
      `"UtU->end"` is lost with the last event: five labels are counted, `"sta->UtC"` twice. */
  lemma CogExample(log: seq<Event>)
    requires ExampleLog(log)
    ensures ComputeTransitions(log).Success?
    ensures TransitionColumn(ComputeTransitions(log).value.frame) == ExampleColumn
    ensures ComputeTransitions(log).value.counts == ExampleCountsMap
  {
    ExampleTransitions(log);
    ExampleCounts();
  }

  // ---------------------------------------------------------------------------------------
  // Where the labels come from, for any unique index

  /** `l` is the incoming label of some event, or the case-ending label of an event that
      closes its case. */
  predicate IsEventLabel(log: seq<Event>, l: string) {
    exists i :: 0 <= i < |log| && (l == Incoming(log, i) || (EndsCase(log, i) && l == Outgoing(log, i)))
  }

  /** Every cell of the merged column is missing or one of the two labels of some event. */
  lemma MergedFromEvents(log: seq<Event>, k: int)
    requires UniqueIndex(log) && |log| >= 1
    requires 0 <= k < |MergedColumn(InterleavedRows(log, CurrTransitions(log), NextTransitions(log)))|
    ensures var cell := MergedColumn(InterleavedRows(log, CurrTransitions(log), NextTransitions(log)))[k];
      cell.None? || IsEventLabel(log, cell.value)
  {
    var curr := CurrTransitions(log);
    var next := NextTransitions(log);
    var c := EventFrame(log, curr, next) + GapFrame(|log|);
    var sorted := SortIndex(c);
    SortIndexIn(c);
    var full := InterleavedRows(log, curr, next);
    assert |full| == |sorted|;
    var nextCol := NextColumn(full);
    var nextShifted := ShiftDown(nextCol);
    var cell := MergedColumn(full)[k];
    assert cell == MergeTransition(full[k].curr, nextShifted[k]);
    if full[k].curr.Some? {
      RowFromEvent(log, curr, next, sorted[k]);
      assert full[k] == sorted[k].1;
    } else if k > 0 {
      var row := sorted[k - 1];
      assert full[k - 1] == row.1;
      assert nextShifted[k] == nextCol[k - 1] == row.1.next;
      assert row in c;
      RowFromEvent(log, curr, next, row);
    }
  }

  /** The two labels of the row of event `p` are missing or labels of that event. */
  lemma EventRowLabels(log: seq<Event>, curr: seq<string>, next: seq<Option<string>>, p: int)
    requires Aligned(log, curr, next) && 0 <= p < |log|
    requires curr == CurrTransitions(log) && next == NextTransitions(log)
    ensures EventRow(log, curr, next, p).curr.None? || IsEventLabel(log, EventRow(log, curr, next, p).curr.value)
    ensures EventRow(log, curr, next, p).next.None? || IsEventLabel(log, EventRow(log, curr, next, p).next.value)
  {
    assert curr[p] == Incoming(log, p);
    assert next[p] == if EndsCase(log, p) then Some(Outgoing(log, p)) else None;
  }

  /** A row of the concatenated frame is a gap or the row of some event. */
  lemma RowFromEvent(log: seq<Event>, curr: seq<string>, next: seq<Option<string>>, row: (int, WideRow))
    requires Aligned(log, curr, next) && |log| >= 1
    requires curr == CurrTransitions(log) && next == NextTransitions(log)
    requires row in EventFrame(log, curr, next) + GapFrame(|log|)
    ensures row.1.curr.None? || IsEventLabel(log, row.1.curr.value)
    ensures row.1.next.None? || IsEventLabel(log, row.1.next.value)
  {
    var e := EventFrame(log, curr, next);
    var g := GapFrame(|log|);
    if row in e {
      var p :| 0 <= p < |e| && e[p] == row;
      EventRowLabels(log, curr, next, p);
    } else {
      assert row in g;
      var j :| 0 <= j < |g| && g[j] == row;
      assert row.1 == GapRow;
    }
  }

  /** Every label in the filled frame is one of the two labels of some event. */
  lemma FrameLabelsFromEvents(log: seq<Event>, k: int)
    requires UniqueIndex(log) && |log| >= 1 && 0 <= k < |TransitionFrame(log)|
    ensures TransitionFrame(log)[k].transition.None? ||
      IsEventLabel(log, TransitionFrame(log)[k].transition.value)
  {
    var full := InterleavedRows(log, CurrTransitions(log), NextTransitions(log));
    var merged := MergedColumn(full);
    var tr := FillForward(merged);
    assert TransitionFrame(log)[k].transition == tr[k] == PresentAbove(None, merged, k);
    PresentAboveIn(merged, k);
    if tr[k].Some? {
      var j :| 0 <= j < |merged| && merged[j] == tr[k];
      MergedFromEvents(log, j);
    }
  }

  /** Whatever the index labels, every label in the transition frame is the incoming label of
      an event or the case-ending label of an event that closes its case. */
  lemma LabelsFromEvents(log: seq<Event>)
    requires UniqueIndex(log) && |log| >= 1
    ensures forall k :: 0 <= k < |ComputeTransitions(log).value.frame| ==>
      ComputeTransitions(log).value.frame[k].transition.None? ||
      IsEventLabel(log, ComputeTransitions(log).value.frame[k].transition.value)
  {
    var frame := TransitionFrame(log);
    assert ComputeTransitions(log).value.frame == frame;
    forall k | 0 <= k < |frame|
      ensures frame[k].transition.None? || IsEventLabel(log, frame[k].transition.value)
    {
      FrameLabelsFromEvents(log, k);
    }
  }

  /** The transition column of a range-indexed log has `2n - 1` cells, none missing. */
  lemma ColumnPresent(log: seq<Event>)
    requires RangeIndex(log) && |log| >= 1
    ensures |TransitionColumn(TransitionFrame(log))| == 2 * |log| - 1
    ensures forall k :: 0 <= k < |TransitionColumn(TransitionFrame(log))| ==>
      TransitionColumn(TransitionFrame(log))[k].Some?
  {
    FilledPresent(log, CurrTransitions(log), NextTransitions(log));
  }

  /** The counts of a range-indexed log of `n >= 1` events sum to `2n - 1`. */
  lemma CountsTotal(log: seq<Event>)
    requires RangeIndex(log) && |log| >= 1
    ensures Total(ComputeTransitions(log).value.counts) == 2 * |log| - 1
  {
    var col := TransitionColumn(TransitionFrame(log));
    ColumnPresent(log);
    GroupCountTotal(col);
    NoneFree(col);
  }

  // ---------------------------------------------------------------------------------------
  // Dependency confidence

  /** The count of a label, zero when the label is absent (the `KeyError` fallback). */
  function CountOf(counts: map<string, nat>, l: string): nat {
    if l in counts then counts[l] else 0
  }

  /** The label read in the opposite direction: `"B->A"` for `"A->B"`. */
  function Reverse(key: string): string
    requires IsPair(key)
  {
    var parts := SplitArrow(key);
    Join(parts[1], parts[0])
  }

  /** A two-piece label is the join of its pieces, and reversing it twice gives it back. */
  lemma ReverseFacts(key: string)
    requires IsPair(key)
    ensures Join(SplitArrow(key)[0], SplitArrow(key)[1]) == key
    ensures IsPair(Reverse(key)) && Reverse(Reverse(key)) == key
  {
    var parts := SplitArrow(key);
    SplitJoin(key);
    assert JoinAll(parts) == Join(parts[0], JoinAll(parts[1..]));
    assert NoArrow(parts[0]) && NoArrow(parts[1]);
    SplitOfJoin(parts[1], parts[0]);
  }

  /** The score of a forward count against a backward count: 1 when they are equal, otherwise
      their difference over their sum. A ratio strictly inside the bounds says the two
      directions are unbalanced, and its sign says which one dominates. */
  function Ratio(awb: nat, bwa: nat): (r: real)
    ensures -1.0 <= r <= 1.0
    ensures awb == bwa ==> r == 1.0
    ensures awb != bwa ==> r * (awb + bwa) as real == (awb - bwa) as real
    ensures awb != bwa && bwa == 0 ==> r == 1.0
    ensures awb != bwa && awb == 0 ==> r == -1.0
    ensures (0.0 < r < 1.0 ==> awb > bwa) && (r < 0.0 ==> awb < bwa)
  {
    if awb == bwa then 1.0 else (awb - bwa) as real / (awb + bwa) as real
  }

  /** Swapping two different counts negates the ratio. */
  lemma RatioAntisymmetric(x: nat, y: nat)
    requires x != y
    ensures Ratio(y, x) == -Ratio(x, y)
  {
    var s := (x + y) as real;
    var r1 := Ratio(x, y);
    var r2 := Ratio(y, x);
    assert r1 * s == (x - y) as real;
    assert r2 * s == (y - x) as real;
    assert (r1 + r2) * s == 0.0;
  }

  /** The confidence of one label: the ratio of its count to the count of its reverse. */
  function Confidence(counts: map<string, nat>, key: string): (c: real)
    requires IsPair(key)
    ensures -1.0 <= c <= 1.0
    ensures c == Ratio(CountOf(counts, key), CountOf(counts, Reverse(key)))
  {
    var parts := SplitArrow(key);
    var a := parts[0];
    var b := parts[1];
    ReverseFacts(key);
    var awb := CountOf(counts, Join(a, b));
    var bwa := CountOf(counts, Join(b, a));
    Ratio(awb, bwa)
  }

  /** `compute_dependency_confidence`: one score per counted label; fails when some label does
      not split into exactly two pieces. */
  function ComputeDependencyConfidence(counts: map<string, nat>): (r: Result<map<string, real>, MinerError>)
    ensures r.Failure? <==> exists key :: key in counts && !IsPair(key)
    ensures r.Success? ==> r.value.Keys == counts.Keys
    ensures r.Success? ==> forall key :: key in counts ==> -1.0 <= r.value[key] <= 1.0
    ensures r.Success? ==> forall key :: key in counts ==> r.value[key] == Confidence(counts, key)
    ensures r.Success? ==> forall key :: key in counts && CountOf(counts, Reverse(key)) == 0 ==>
      r.value[key] == 1.0
    ensures r.Success? ==> forall key :: key in counts && counts[key] == CountOf(counts, Reverse(key)) ==>
      r.value[key] == 1.0
  {
    if exists key :: key in counts && !IsPair(key) then Failure(MalformedLabel)
    else Success(map key | key in counts :: Confidence(counts, key))
  }

  /** A self-loop `"A->A"` always scores 1. */
  lemma SelfLoopConfidence(counts: map<string, nat>, a: string)
    requires NoArrow(a) && Join(a, a) in counts
    ensures ComputeDependencyConfidence(counts).Success? ==>
      ComputeDependencyConfidence(counts).value[Join(a, a)] == 1.0
  {
    SplitOfJoin(a, a);
  }

  /** Two opposite labels with different counts score opposite values. */
  lemma ConfidenceAntisymmetric(counts: map<string, nat>, key: string)
    requires key in counts && IsPair(key) && Reverse(key) in counts
    requires counts[key] != counts[Reverse(key)]
    ensures ComputeDependencyConfidence(counts).Success? ==>
      ComputeDependencyConfidence(counts).value[Reverse(key)] ==
        -ComputeDependencyConfidence(counts).value[key]
  {
    ReverseFacts(key);
    var r := ComputeDependencyConfidence(counts);
    if r.Success? {
      assert r.value[key] == Confidence(counts, key);
      assert r.value[Reverse(key)] == Confidence(counts, Reverse(key));
      RatioAntisymmetric(counts[key], counts[Reverse(key)]);
    }
  }
}
