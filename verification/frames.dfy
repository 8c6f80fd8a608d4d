/** The pandas column operations the miner is built from, on columns whose cells may be missing. */
module Frames {
  import opened Wrappers

  /** A column of values that are never missing, as a column of cells. */
  function Lift<T>(col: seq<T>): (r: seq<Option<T>>)
    ensures |r| == |col|
    ensures forall i {:trigger r[i]} :: 0 <= i < |col| ==> r[i] == Some(col[i])
  {
    seq(|col|, i requires 0 <= i < |col| => Some(col[i]))
  }

  /** `Series.shift(1)`: every cell moves one row down; the first row becomes missing. */
  function ShiftDown<T>(col: seq<Option<T>>): (r: seq<Option<T>>)
    ensures |r| == |col|
    ensures |col| > 0 ==> r[0] == None
    ensures forall i {:trigger r[i]} :: 0 < i < |col| ==> r[i] == col[i - 1]
  {
    if |col| == 0 then [] else [None] + col[..|col| - 1]
  }

  /** `Series.shift(-1)`: every cell moves one row up; the last row becomes missing. */
  function ShiftUp<T>(col: seq<Option<T>>): (r: seq<Option<T>>)
    ensures |r| == |col|
    ensures |col| > 0 ==> r[|col| - 1] == None
    ensures forall i {:trigger r[i]} :: 0 <= i < |col| - 1 ==> r[i] == col[i + 1]
  {
    if |col| == 0 then [] else col[1..] + [None]
  }

  /** The nearest present cell at or above row `i`, or `last` when every such cell is missing. */
  function PresentAbove<T>(last: Option<T>, col: seq<Option<T>>, i: int): Option<T>
    requires 0 <= i < |col|
    decreases i
  {
    if col[i].Some? then col[i]
    else if i == 0 then last
    else PresentAbove(last, col, i - 1)
  }

  /** Dropping the first row moves the fallback to the first row's filled value. */
  lemma {:induction false} PresentAboveTail<T>(last: Option<T>, col: seq<Option<T>>, i: int)
    requires 0 < i < |col|
    ensures PresentAbove(PresentAbove(last, col, 0), col[1..], i - 1) == PresentAbove(last, col, i)
    decreases i
  {
    if col[i].None? && i > 1 {
      PresentAboveTail(last, col, i - 1);
    }
  }

  /** A filled cell is missing or is a cell of the column. */
  lemma {:induction false} PresentAboveIn<T>(col: seq<Option<T>>, i: int)
    requires 0 <= i < |col|
    ensures PresentAbove(None, col, i).None? || PresentAbove(None, col, i) in col
    decreases i
  {
    if col[i].None? && i > 0 {
      PresentAboveIn(col, i - 1);
    }
  }

  /** `fillna(method='ffill')` on one column, with `last` the most recent present cell above. */
  function FillForwardFrom<T>(last: Option<T>, col: seq<Option<T>>): (r: seq<Option<T>>)
    ensures |r| == |col|
    ensures forall i :: 0 <= i < |col| ==> r[i] == PresentAbove(last, col, i)
    decreases |col|
  {
    if |col| == 0 then []
    else
      var v := if col[0].Some? then col[0] else last;
      var rest := FillForwardFrom(v, col[1..]);
      assert forall i :: 0 < i < |col| ==> rest[i - 1] == PresentAbove(last, col, i) by {
        forall i | 0 < i < |col|
          ensures rest[i - 1] == PresentAbove(last, col, i)
        {
          PresentAboveTail(last, col, i);
        }
      }
      [v] + rest
  }

  /** `fillna(method='ffill')`: a missing cell takes the value of the nearest present cell above
      it; missing cells with no present cell above stay missing. */
  function FillForward<T>(col: seq<Option<T>>): (r: seq<Option<T>>)
    ensures |r| == |col|
    ensures forall i :: 0 <= i < |col| ==> r[i] == PresentAbove(None, col, i)
  {
    FillForwardFrom(None, col)
  }

  /** The cell of the first row labelled `key`, if any (a label lookup `frame.loc[key]`). */
  function Lookup<T>(frame: seq<(int, T)>, key: int): (r: Option<T>)
    ensures r.None? ==> forall p :: 0 <= p < |frame| ==> frame[p].0 != key
    ensures r.Some? ==> (key, r.value) in frame
    decreases |frame|
  {
    if |frame| == 0 then None
    else if frame[0].0 == key then Some(frame[0].1)
    else
      var r := Lookup(frame[1..], key);
      assert forall p :: 0 < p < |frame| ==> frame[1..][p - 1] == frame[p];
      r
  }

  /** Lookup finds the first row carrying the label. */
  lemma {:induction false} LookupFirst<T>(frame: seq<(int, T)>, p: int, key: int)
    requires 0 <= p < |frame| && frame[p].0 == key
    requires forall q :: 0 <= q < p ==> frame[q].0 != key
    ensures Lookup(frame, key) == Some(frame[p].1)
    decreases p
  {
    if p > 0 {
      LookupFirst(frame[1..], p - 1, key);
    }
  }

  /** All row labels differ (a unique pandas index). */
  predicate DistinctLabels<T>(frame: seq<(int, T)>) {
    forall p, q :: 0 <= p < q < |frame| ==> frame[p].0 != frame[q].0
  }

  function MinLabel<T>(frame: seq<(int, T)>): (m: int)
    requires |frame| > 0
    ensures forall p :: 0 <= p < |frame| ==> m <= frame[p].0
    ensures exists p :: 0 <= p < |frame| && frame[p].0 == m
    decreases |frame|
  {
    if |frame| == 1 then frame[0].0
    else
      var m := MinLabel(frame[1..]);
      assert forall p :: 0 < p < |frame| ==> frame[1..][p - 1] == frame[p];
      if frame[0].0 <= m then frame[0].0 else m
  }

  function MaxLabel<T>(frame: seq<(int, T)>): (m: int)
    requires |frame| > 0
    ensures forall p :: 0 <= p < |frame| ==> frame[p].0 <= m
    ensures exists p :: 0 <= p < |frame| && frame[p].0 == m
    decreases |frame|
  {
    if |frame| == 1 then frame[0].0
    else
      var m := MaxLabel(frame[1..]);
      assert forall p :: 0 < p < |frame| ==> frame[1..][p - 1] == frame[p];
      if frame[0].0 >= m then frame[0].0 else m
  }

  /** The rows labelled `lo`, `lo + 1`, ..., `hi - 1`, in that order. */
  function RowsBetween<T>(frame: seq<(int, T)>, lo: int, hi: int): seq<(int, T)>
    decreases hi - lo
  {
    if lo >= hi then []
    else
      var rest := RowsBetween(frame, lo + 1, hi);
      match Lookup(frame, lo)
      case Some(v) => [(lo, v)] + rest
      case None => rest
  }

  /** The rows between `lo` and `hi` carry labels in `[lo, hi)`, strictly ascending. */
  lemma {:induction false} RowsBetweenOrdered<T>(frame: seq<(int, T)>, lo: int, hi: int)
    ensures forall j :: 0 <= j < |RowsBetween(frame, lo, hi)| ==> lo <= RowsBetween(frame, lo, hi)[j].0 < hi
    ensures forall j, k :: 0 <= j < k < |RowsBetween(frame, lo, hi)| ==>
      RowsBetween(frame, lo, hi)[j].0 < RowsBetween(frame, lo, hi)[k].0
    decreases hi - lo
  {
    if lo < hi {
      RowsBetweenOrdered(frame, lo + 1, hi);
      var rest := RowsBetween(frame, lo + 1, hi);
      var r := RowsBetween(frame, lo, hi);
      if Lookup(frame, lo).Some? {
        assert r == [(lo, Lookup(frame, lo).value)] + rest;
        forall j | 0 <= j < |r|
          ensures lo <= r[j].0 < hi
        {
          if j > 0 { assert r[j] == rest[j - 1]; }
        }
        forall j, k | 0 <= j < k < |r|
          ensures r[j].0 < r[k].0
        {
          assert r[k] == rest[k - 1];
          if j > 0 { assert r[j] == rest[j - 1]; }
        }
      } else {
        assert r == rest;
        forall j | 0 <= j < |r|
          ensures lo <= r[j].0 < hi
        {
          assert r[j] == rest[j];
        }
      }
    }
  }

  /** Every row kept is a row of the frame. */
  lemma {:induction false} RowsBetweenIn<T>(frame: seq<(int, T)>, lo: int, hi: int)
    ensures forall j :: 0 <= j < |RowsBetween(frame, lo, hi)| ==> RowsBetween(frame, lo, hi)[j] in frame
    decreases hi - lo
  {
    if lo < hi {
      RowsBetweenIn(frame, lo + 1, hi);
    }
  }

  /** Every label in `[lo, hi)` that the frame carries is kept, with the cell a lookup finds. */
  lemma {:induction false} RowsBetweenComplete<T>(frame: seq<(int, T)>, lo: int, hi: int, k: int)
    requires lo <= k < hi && Lookup(frame, k).Some?
    ensures (k, Lookup(frame, k).value) in RowsBetween(frame, lo, hi)
    decreases hi - lo
  {
    if lo < k {
      RowsBetweenComplete(frame, lo + 1, hi, k);
    }
  }

  /** `frame.sort_index()`: the rows in ascending label order. */
  function SortIndex<T>(frame: seq<(int, T)>): seq<(int, T)> {
    if |frame| == 0 then [] else RowsBetween(frame, MinLabel(frame), MaxLabel(frame) + 1)
  }

  /** Sorting leaves the labels strictly ascending. */
  lemma SortIndexOrdered<T>(frame: seq<(int, T)>)
    ensures forall j, k :: 0 <= j < k < |SortIndex(frame)| ==> SortIndex(frame)[j].0 < SortIndex(frame)[k].0
  {
    if |frame| > 0 {
      RowsBetweenOrdered(frame, MinLabel(frame), MaxLabel(frame) + 1);
      assert SortIndex(frame) == RowsBetween(frame, MinLabel(frame), MaxLabel(frame) + 1);
    }
  }

  /** Sorting invents no row. */
  lemma SortIndexIn<T>(frame: seq<(int, T)>)
    ensures forall j :: 0 <= j < |SortIndex(frame)| ==> SortIndex(frame)[j] in frame
  {
    if |frame| > 0 {
      RowsBetweenIn(frame, MinLabel(frame), MaxLabel(frame) + 1);
    }
  }

  /** With unique labels, sorting keeps every row: with `SortIndexIn` and the ordering of
      `SortIndex`, the result holds exactly the rows of the frame, each once, in ascending
      label order. */
  lemma SortIndexKeepsRows<T>(frame: seq<(int, T)>)
    requires DistinctLabels(frame)
    ensures forall p :: 0 <= p < |frame| ==> frame[p] in SortIndex(frame)
  {
    if |frame| > 0 {
      forall p | 0 <= p < |frame|
        ensures frame[p] in SortIndex(frame)
      {
        LookupFirst(frame, p, frame[p].0);
        RowsBetweenComplete(frame, MinLabel(frame), MaxLabel(frame) + 1, frame[p].0);
      }
    }
  }

  /** When every label in `[lo, hi)` is present, the rows between are exactly one per label. */
  lemma {:induction false} RowsBetweenDense<T>(frame: seq<(int, T)>, lo: int, hi: int)
    requires lo <= hi
    requires forall k :: lo <= k < hi ==> Lookup(frame, k).Some?
    ensures |RowsBetween(frame, lo, hi)| == hi - lo
    ensures forall j :: 0 <= j < hi - lo ==>
      RowsBetween(frame, lo, hi)[j] == (lo + j, Lookup(frame, lo + j).value)
    decreases hi - lo
  {
    if lo < hi {
      RowsBetweenDense(frame, lo + 1, hi);
      var rest := RowsBetween(frame, lo + 1, hi);
      assert RowsBetween(frame, lo, hi) == [(lo, Lookup(frame, lo).value)] + rest;
    }
  }

  /** The smallest and largest labels of a frame labelled within `0 .. m-1` that carries
      both `0` and `m - 1`. */
  lemma DenseBounds<T>(frame: seq<(int, T)>, m: nat)
    requires m > 0
    requires forall p :: 0 <= p < |frame| ==> 0 <= frame[p].0 < m
    requires Lookup(frame, 0).Some? && Lookup(frame, m - 1).Some?
    ensures MinLabel(frame) == 0 && MaxLabel(frame) == m - 1
  {
    assert (0, Lookup(frame, 0).value) in frame;
    assert (m - 1, Lookup(frame, m - 1).value) in frame;
  }

  /** A frame whose labels are exactly `0 .. m-1` sorts into label order `0, 1, ..., m-1`. */
  lemma SortIndexDense<T>(frame: seq<(int, T)>, m: nat)
    requires m > 0
    requires forall p :: 0 <= p < |frame| ==> 0 <= frame[p].0 < m
    requires forall k :: 0 <= k < m ==> Lookup(frame, k).Some?
    ensures |SortIndex(frame)| == m
    ensures forall k :: 0 <= k < m ==> SortIndex(frame)[k] == (k, Lookup(frame, k).value)
  {
    assert Lookup(frame, 0).Some? && Lookup(frame, m - 1).Some?;
    DenseBounds(frame, m);
    var lo, hi := MinLabel(frame), MaxLabel(frame) + 1;
    assert SortIndex(frame) == RowsBetween(frame, lo, hi);
    RowsBetweenDense(frame, lo, hi);
    var sorted := RowsBetween(frame, lo, hi);
    forall k | 0 <= k < m
      ensures sorted[k] == (k, Lookup(frame, k).value)
    {
      assert lo + k == k;
      assert sorted[k] == (lo + k, Lookup(frame, lo + k).value);
    }
  }
}
