/** `Series.groupby(values).count()`: occurrences of each present value of a column. */
module Counting {
  import opened Wrappers

  /** Number of present cells of a column. */
  function Present<T(==)>(col: seq<Option<T>>): nat {
    |col| - multiset(col)[None]
  }

  /** A column with no missing cell has every cell present. */
  lemma NoneFree<T>(col: seq<Option<T>>)
    requires forall k :: 0 <= k < |col| ==> col[k].Some?
    ensures Present(col) == |col|
  {
    assert None !in col;
  }

  /** The count of each value present in the column; missing cells form no group. */
  function GroupCount(col: seq<Option<string>>): (counts: map<string, nat>)
    ensures forall l :: l in counts <==> Some(l) in col
    ensures forall l :: l in counts ==> counts[l] == multiset(col)[Some(l)]
    decreases |col|
  {
    if |col| == 0 then map[]
    else
      var init := col[..|col| - 1];
      var last := col[|col| - 1];
      assert col == init + [last];
      var counts := GroupCount(init);
      match last
      case None => counts
      case Some(l) => counts[l := (if l in counts then counts[l] else 0) + 1]
  }

  /** The counts are determined by which labels occur and how often. */
  lemma GroupCountIs(col: seq<Option<string>>, m: map<string, nat>)
    requires forall l :: Some(l) in col <==> l in m
    requires forall l :: l in m ==> multiset(col)[Some(l)] == m[l]
    ensures GroupCount(col) == m
  {
  }

  /** Some key of a non-empty map. */
  ghost function Pick(m: map<string, nat>): (l: string)
    requires |m| > 0
    ensures l in m
  {
    assert m.Keys != {};
    var l :| l in m; l
  }

  /** Sum of all counts. */
  ghost function Total(m: map<string, nat>): nat
    decreases |m|
  {
    if |m| == 0 then 0 else var l := Pick(m); m[l] + Total(m - {l})
  }

  /** The sum of counts may be taken starting from any key. */
  lemma {:induction false} TotalRemove(m: map<string, nat>, l: string)
    requires l in m
    ensures Total(m) == m[l] + Total(m - {l})
    decreases |m|
  {
    var k := Pick(m);
    if k != l {
      assert |m - {k}| == |m| - 1;
      TotalRemove(m - {k}, l);
      assert |m - {l}| == |m| - 1;
      TotalRemove(m - {l}, k);
      assert m - {k} - {l} == m - {l} - {k};
    }
  }

  /** Adding one occurrence of `l` raises the total by one. */
  lemma TotalIncrement(m: map<string, nat>, l: string)
    ensures Total(m[l := (if l in m then m[l] else 0) + 1]) == Total(m) + 1
  {
    var m' := m[l := (if l in m then m[l] else 0) + 1];
    TotalRemove(m', l);
    if l in m {
      TotalRemove(m, l);
      assert m' - {l} == m - {l};
    } else {
      assert m' - {l} == m;
    }
  }

  /** The counts sum to the number of present cells. */
  lemma {:induction false} GroupCountTotal(col: seq<Option<string>>)
    ensures Total(GroupCount(col)) == Present(col)
    decreases |col|
  {
    if |col| == 0 {
      assert GroupCount(col) == map[];
    } else {
      var init := col[..|col| - 1];
      var last := col[|col| - 1];
      assert col == init + [last];
      GroupCountTotal(init);
      match last
      case None =>
      case Some(l) =>
        TotalIncrement(GroupCount(init), l);
    }
  }
}
