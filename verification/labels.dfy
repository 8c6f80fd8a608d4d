/** Transition labels `"A->B"` and Python's `str.split('->')` on them. */
module Labels {
  import opened Wrappers

  const Arrow: string := "->"
  const Start: string := "sta"
  const End: string := "end"
  /** What `'{}'.format(x)` prints for a missing (NaN) value. */
  const Missing: string := "nan"

  /** The four transaction categories the parser produces. */
  predicate IsCategory(s: string) {
    s == "CtC" || s == "CtU" || s == "UtC" || s == "UtU"
  }

  /** `'{}->{}'.format(a, b)` */
  function Join(a: string, b: string): string {
    a + Arrow + b
  }

  /** `'{}'.format(v)` for a value that may be missing. */
  function Show(v: Option<string>): string {
    v.GetOr(Missing)
  }

  /** `s` contains no occurrence of the separator. */
  predicate NoArrow(s: string) {
    forall i :: 0 <= i < |s| - 1 ==> !(s[i] == '-' && s[i + 1] == '>')
  }

  /** `s.split('->')`: the pieces between non-overlapping occurrences, scanned left to right. */
  function SplitArrow(s: string): (parts: seq<string>)
    ensures |parts| >= 1
    decreases |s|
  {
    if |s| < 2 then [s]
    else if s[0] == '-' && s[1] == '>' then [""] + SplitArrow(s[2..])
    else
      var rest := SplitArrow(s[1..]);
      [[s[0]] + rest[0]] + rest[1..]
  }

  /** `'->'.join(parts)` */
  function JoinAll(parts: seq<string>): string
    requires |parts| >= 1
    decreases |parts|
  {
    if |parts| == 1 then parts[0] else Join(parts[0], JoinAll(parts[1..]))
  }

  /** Splitting loses nothing and every piece is free of the separator. */
  lemma SplitJoin(s: string)
    ensures JoinAll(SplitArrow(s)) == s
    ensures forall k :: 0 <= k < |SplitArrow(s)| ==> NoArrow(SplitArrow(s)[k])
  {
    JoinOfSplit(s);
    SplitPieces(s);
  }

  /** Joining the pieces of a split gives the string back. */
  lemma {:induction false} JoinOfSplit(s: string)
    ensures JoinAll(SplitArrow(s)) == s
    decreases |s|
  {
    if |s| < 2 {
    } else if s[0] == '-' && s[1] == '>' {
      JoinOfSplit(s[2..]);
      var rest := SplitArrow(s[2..]);
      assert SplitArrow(s) == [""] + rest;
      assert ([""] + rest)[1..] == rest;
      assert s == "" + Arrow + s[2..];
    } else {
      JoinOfSplit(s[1..]);
      var rest := SplitArrow(s[1..]);
      var head := [s[0]] + rest[0];
      assert SplitArrow(s) == [head] + rest[1..];
      if |rest| == 1 {
        assert s == [s[0]] + s[1..];
      } else {
        assert ([head] + rest[1..])[1..] == rest[1..];
        assert JoinAll(rest) == Join(rest[0], JoinAll(rest[1..]));
        assert s == [s[0]] + s[1..];
      }
    }
  }

  /** Every piece of a split is free of the separator. */
  lemma {:induction false} SplitPieces(s: string)
    ensures forall k :: 0 <= k < |SplitArrow(s)| ==> NoArrow(SplitArrow(s)[k])
    decreases |s|
  {
    if |s| < 2 {
    } else if s[0] == '-' && s[1] == '>' {
      SplitPieces(s[2..]);
      var rest := SplitArrow(s[2..]);
      assert SplitArrow(s) == [""] + rest;
      forall k | 0 < k < |SplitArrow(s)|
        ensures NoArrow(SplitArrow(s)[k])
      {
        assert SplitArrow(s)[k] == rest[k - 1];
      }
    } else {
      SplitPieces(s[1..]);
      var rest := SplitArrow(s[1..]);
      var head := [s[0]] + rest[0];
      assert SplitArrow(s) == [head] + rest[1..];
      // the new first piece only gains a character that cannot start a separator
      assert NoArrow(rest[0]);
      forall i | 0 <= i < |head| - 1
        ensures !(head[i] == '-' && head[i + 1] == '>')
      {
        if i > 0 {
          assert head[i] == rest[0][i - 1] && head[i + 1] == rest[0][i];
        } else {
          JoinOfSplit(s[1..]);
          PrefixOfJoin(rest);
          assert head[1] == rest[0][0] == s[1..][0] == s[1];
        }
      }
      forall k | 0 <= k < |SplitArrow(s)|
        ensures NoArrow(SplitArrow(s)[k])
      {
        if k > 0 {
          assert SplitArrow(s)[k] == rest[k];
        }
      }
    }
  }

  /** The first piece is a prefix of the joined string. */
  lemma PrefixOfJoin(parts: seq<string>)
    requires |parts| >= 1
    ensures |parts[0]| <= |JoinAll(parts)|
    ensures JoinAll(parts)[..|parts[0]|] == parts[0]
  {
    if |parts| > 1 {
      assert JoinAll(parts) == parts[0] + (Arrow + JoinAll(parts[1..]));
    }
  }

  /** A separator-free string is one piece. */
  lemma {:induction false} SplitNoArrow(a: string)
    requires NoArrow(a)
    ensures SplitArrow(a) == [a]
    decreases |a|
  {
    if |a| >= 2 {
      assert !(a[0] == '-' && a[1] == '>');
      SplitNoArrow(a[1..]);
      assert [a[0]] + a[1..] == a;
    }
  }

  /** Joining two separator-free pieces and splitting again gives the two pieces back. */
  lemma {:induction false} SplitOfJoin(a: string, b: string)
    requires NoArrow(a) && NoArrow(b)
    ensures SplitArrow(Join(a, b)) == [a, b]
    decreases |a|
  {
    var s := Join(a, b);
    if |a| == 0 {
      assert s[2..] == b;
      SplitNoArrow(b);
    } else {
      assert s[0] == a[0];
      if |a| == 1 {
        assert s[1] == '-';
      } else {
        assert s[1] == a[1];
      }
      assert s[1..] == Join(a[1..], b);
      SplitOfJoin(a[1..], b);
      assert [a[0]] + a[1..] == a;
    }
  }

  /** The labels whose two ends are both separator-free: what `a, b = key.split('->')` accepts. */
  predicate IsPair(key: string) {
    |SplitArrow(key)| == 2
  }

  /** A label splits into two pieces exactly when it is the join of two separator-free pieces. */
  lemma PairIffJoin(key: string)
    ensures IsPair(key) <==>
      exists a, b :: NoArrow(a) && NoArrow(b) && key == Join(a, b)
  {
    if IsPair(key) {
      SplitJoin(key);
      var p := SplitArrow(key);
      assert JoinAll(p) == Join(p[0], JoinAll(p[1..]));
      assert NoArrow(p[0]) && NoArrow(p[1]);
      assert key == Join(p[0], p[1]);
    }
    if exists a, b :: NoArrow(a) && NoArrow(b) && key == Join(a, b) {
      var a, b :| NoArrow(a) && NoArrow(b) && key == Join(a, b);
      SplitOfJoin(a, b);
    }
  }

  /** Every three-character code the model produces is separator-free. */
  lemma ShortCodesNoArrow(s: string)
    requires IsCategory(s) || s == Start || s == End || s == Missing
    ensures NoArrow(s)
  {
  }
}
