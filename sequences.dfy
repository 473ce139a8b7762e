/**
  Order-preserving sequence combinators the cache walks are built from, and
  how each of them distributes over concatenation.
  */
module Sequences {

  /** A prefix one element longer is the shorter prefix and that element. */
  lemma PrefixStep<A>(s: seq<A>, i: nat)
    requires i < |s|
    ensures s[..i + 1] == s[..i] + [s[i]]
    ensures s[..i + 1][..i] == s[..i]
  {
  }

  /** The same for a slice starting at `lo`. */
  lemma SliceStep<A>(s: seq<A>, lo: nat, i: nat)
    requires lo <= i < |s|
    ensures s[lo..i + 1] == s[lo..i] + [s[i]]
  {
  }

  /** The elements of `s` that `keep` accepts, in order. */
  function Filter<A>(keep: A -> bool, s: seq<A>): (r: seq<A>)
    ensures |r| <= |s|
    decreases |s|
  {
    if s == [] then []
    else Filter(keep, s[..|s| - 1]) + (if keep(s[|s| - 1]) then [s[|s| - 1]] else [])
  }

  /** An element survives the filter iff it was there and is accepted. */
  lemma {:induction false} FilterExactly<A>(keep: A -> bool, s: seq<A>, x: A)
    ensures x in Filter(keep, s) <==> x in s && keep(x)
    decreases |s|
  {
    if s != [] {
      assert s == s[..|s| - 1] + [s[|s| - 1]];
      FilterExactly(keep, s[..|s| - 1], x);
    }
  }

  /** The positions of `s` whose element `keep` accepts. */
  function Positions<A>(keep: A -> bool, s: seq<A>): set<nat> {
    set k: nat | k < |s| && keep(s[k])
  }

  /** The filter keeps one element per position whose element is accepted. */
  lemma {:induction false} FilterCount<A>(keep: A -> bool, s: seq<A>)
    ensures |Filter(keep, s)| == |Positions(keep, s)|
    decreases |s|
  {
    if s != [] {
      var init, last := s[..|s| - 1], s[|s| - 1];
      FilterCount(keep, init);
      var before := Positions(keep, init);
      var all := Positions(keep, s);
      assert forall k :: 0 <= k < |init| ==> init[k] == s[k];
      if keep(last) {
        assert all == before + {|s| - 1};
        assert |s| - 1 !in before;
      } else {
        assert all == before;
      }
    }
  }

  /** Two tests that agree on every element of `s` keep the same elements. */
  lemma {:induction false} FilterAgrees<A>(keep: A -> bool, other: A -> bool, s: seq<A>)
    requires forall k :: 0 <= k < |s| ==> keep(s[k]) == other(s[k])
    ensures Filter(keep, s) == Filter(other, s)
    decreases |s|
  {
    if s != [] {
      FilterAgrees(keep, other, s[..|s| - 1]);
    }
  }

  lemma FilterStep<A>(keep: A -> bool, s: seq<A>, x: A)
    ensures Filter(keep, s + [x]) == Filter(keep, s) + (if keep(x) then [x] else [])
  {
    assert (s + [x])[..|s|] == s;
  }

  lemma {:induction false} FilterConcat<A>(keep: A -> bool, a: seq<A>, b: seq<A>)
    ensures Filter(keep, a + b) == Filter(keep, a) + Filter(keep, b)
    decreases |b|
  {
    if b == [] {
      assert a + b == a;
    } else {
      var init, last := b[..|b| - 1], b[|b| - 1];
      assert a + b == (a + init) + [last];
      assert b == init + [last];
      FilterConcat(keep, a, init);
      FilterStep(keep, a + init, last);
      FilterStep(keep, init, last);
    }
  }

  /** `f` applied to every element of `s`, in order. */
  function MapSeq<A, B>(f: A -> B, s: seq<A>): (r: seq<B>)
    ensures |r| == |s|
    decreases |s|
  {
    if s == [] then [] else MapSeq(f, s[..|s| - 1]) + [f(s[|s| - 1])]
  }

  lemma {:induction false} MapSeqIndex<A, B>(f: A -> B, s: seq<A>, k: nat)
    requires k < |s|
    ensures MapSeq(f, s)[k] == f(s[k])
    decreases |s|
  {
    if k < |s| - 1 {
      MapSeqIndex(f, s[..|s| - 1], k);
    }
  }

  /** The image holds exactly the values of `f` on the elements of `s`. */
  lemma {:induction false} MapSeqExactly<A, B>(f: A -> B, s: seq<A>, y: B)
    ensures y in MapSeq(f, s) <==> exists x :: x in s && y == f(x)
    decreases |s|
  {
    if s != [] {
      var init, last := s[..|s| - 1], s[|s| - 1];
      assert s == init + [last];
      MapSeqExactly(f, init, y);
    }
  }

  lemma MapSeqStep<A, B>(f: A -> B, s: seq<A>, x: A)
    ensures MapSeq(f, s + [x]) == MapSeq(f, s) + [f(x)]
  {
    assert (s + [x])[..|s|] == s;
  }

  lemma {:induction false} MapSeqConcat<A, B>(f: A -> B, a: seq<A>, b: seq<A>)
    ensures MapSeq(f, a + b) == MapSeq(f, a) + MapSeq(f, b)
    decreases |b|
  {
    if b == [] {
      assert a + b == a;
    } else {
      var init, last := b[..|b| - 1], b[|b| - 1];
      assert a + b == (a + init) + [last];
      assert b == init + [last];
      MapSeqConcat(f, a, init);
      MapSeqStep(f, a + init, last);
      MapSeqStep(f, init, last);
    }
  }

  /** The concatenation of the pieces `xs`, in order. */
  function Flatten<A>(xs: seq<seq<A>>): (r: seq<A>)
    decreases |xs|
  {
    if xs == [] then []
    else Flatten(xs[..|xs| - 1]) + xs[|xs| - 1]
  }

  /** An element of the concatenation lies in one of the pieces, and every piece's elements are in it. */
  lemma {:induction false} FlattenExactly<A>(xs: seq<seq<A>>, x: A)
    ensures x in Flatten(xs) <==> exists k :: 0 <= k < |xs| && x in xs[k]
    decreases |xs|
  {
    if xs != [] {
      var init := xs[..|xs| - 1];
      FlattenExactly(init, x);
      if x in Flatten(xs) && x !in Flatten(init) {
        assert x in xs[|xs| - 1];
      }
      if exists k :: 0 <= k < |xs| && x in xs[k] {
        var k :| 0 <= k < |xs| && x in xs[k];
        if k < |xs| - 1 {
          assert init[k] == xs[k];
        }
      }
    }
  }

  lemma FlattenStep<A>(xs: seq<seq<A>>, x: seq<A>)
    ensures Flatten(xs + [x]) == Flatten(xs) + x
  {
    assert (xs + [x])[..|xs|] == xs;
  }

  lemma {:induction false} FlattenConcat<A>(xs: seq<seq<A>>, ys: seq<seq<A>>)
    ensures Flatten(xs + ys) == Flatten(xs) + Flatten(ys)
    decreases |ys|
  {
    if ys == [] {
      assert xs + ys == xs;
    } else {
      var init, last := ys[..|ys| - 1], ys[|ys| - 1];
      assert xs + ys == (xs + init) + [last];
      assert ys == init + [last];
      FlattenConcat(xs, init);
      FlattenStep(xs + init, last);
      FlattenStep(init, last);
    }
  }
}
