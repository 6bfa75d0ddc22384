/** PHP's `explode('.', s)` and its inverse `implode('.', segs)`. */
module Explode {

  /**
   * The pieces of `s` between dots, in order. There is always at least
   * one piece: "" gives [""] and "a..b" gives ["a", "", "b"].
   */
  function Split(s: string): (segs: seq<string>)
    ensures |segs| >= 1
    decreases |s|
  {
    if |s| == 0 then [""]
    else
      var rest := Split(s[1..]);
      if s[0] == '.' then [""] + rest else [[s[0]] + rest[0]] + rest[1..]
  }

  /** The segments joined with a dot between each two. */
  function Join(segs: seq<string>): string
    requires |segs| >= 1
    decreases |segs|
  {
    if |segs| == 1 then segs[0] else segs[0] + "." + Join(segs[1..])
  }

  predicate NoDot(seg: string) {
    '.' !in seg
  }

  /** The number of dots in `s`. */
  function DotCount(s: string): nat
    decreases |s|
  {
    if |s| == 0 then 0 else (if s[0] == '.' then 1 else 0) + DotCount(s[1..])
  }

  /** Splitting yields one more piece than there are dots, and no piece contains a dot. */
  lemma {:induction false} SplitShape(s: string)
    ensures |Split(s)| == DotCount(s) + 1
    ensures forall i :: 0 <= i < |Split(s)| ==> NoDot(Split(s)[i])
    decreases |s|
  {
    if |s| > 0 {
      SplitShape(s[1..]);
      var rest := Split(s[1..]);
      if s[0] != '.' {
        assert NoDot([s[0]] + rest[0]);
      }
    }
  }

  /** A key without a dot is a single segment. */
  lemma {:induction false} SplitNoDot(s: string)
    requires NoDot(s)
    ensures Split(s) == [s]
    decreases |s|
  {
    if |s| > 0 {
      SplitNoDot(s[1..]);
      assert [s[0]] + s[1..] == s;
    }
  }

  /** Joining the pieces of a split gives back the original string. */
  lemma {:induction false} JoinSplit(s: string)
    ensures Join(Split(s)) == s
    decreases |s|
  {
    if |s| > 0 {
      var rest := Split(s[1..]);
      JoinSplit(s[1..]);
      if s[0] == '.' {
        assert Split(s)[1..] == rest;
        assert s == "" + "." + s[1..];
      } else {
        var segs := Split(s);
        if |rest| == 1 {
          assert segs == [[s[0]] + rest[0]];
          assert [s[0]] + s[1..] == s;
        } else {
          assert segs[1..] == rest[1..];
          assert Join(rest) == rest[0] + "." + Join(rest[1..]);
          assert [s[0]] + s[1..] == s;
        }
      }
    }
  }

  lemma {:induction false} SplitPrepend(c: char, s: string)
    requires c != '.'
    ensures Split([c] + s) == [[c] + Split(s)[0]] + Split(s)[1..]
  {
    assert ([c] + s)[1..] == s;
  }

  lemma {:induction false} SplitDotPrepend(s: string)
    ensures Split("." + s) == [""] + Split(s)
  {
    assert ("." + s)[1..] == s;
  }

  /** Splitting a dot-free segment followed by more text. */
  lemma {:induction false} SplitConcatSegment(seg: string, tail: string)
    requires NoDot(seg)
    ensures Split(seg + "." + tail) == [seg] + Split(tail)
    decreases |seg|
  {
    if |seg| == 0 {
      assert seg + "." + tail == "." + tail;
      SplitDotPrepend(tail);
    } else {
      SplitConcatSegment(seg[1..], tail);
      assert seg + "." + tail == [seg[0]] + (seg[1..] + "." + tail);
      SplitPrepend(seg[0], seg[1..] + "." + tail);
      assert [seg[0]] + seg[1..] == seg;
    }
  }

  /** Splitting the join of dot-free segments gives back the segments. */
  lemma {:induction false} SplitJoin(segs: seq<string>)
    requires |segs| >= 1
    requires forall i :: 0 <= i < |segs| ==> NoDot(segs[i])
    ensures Split(Join(segs)) == segs
    decreases |segs|
  {
    if |segs| == 1 {
      SplitNoDot(segs[0]);
    } else {
      SplitJoin(segs[1..]);
      SplitConcatSegment(segs[0], Join(segs[1..]));
      assert [segs[0]] + segs[1..] == segs;
    }
  }
}
