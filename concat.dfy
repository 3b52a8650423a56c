/** The abstract contents of a chunked list: the concatenation of the live
    runs of its chunks, in chain order, with the facts about it that the
    list operations need. */
module Concatenation {

  /** The concatenation of a sequence of runs, built from the back so that
      adding a run at the end (a new tail chunk) is one unfolding. */
  function Concat<T>(ss: seq<seq<T>>): seq<T>
    decreases |ss|
  {
    if ss == [] then [] else Concat(ss[..|ss| - 1]) + ss[|ss| - 1]
  }

  /** Every run is non-empty and holds at most `cap` elements (each chunk has
      1 <= len <= cap). */
  ghost predicate WellSized<T>(ss: seq<seq<T>>, cap: nat)
  {
    forall i :: 0 <= i < |ss| ==> 1 <= |ss[i]| <= cap
  }

  /** Every run but the last holds exactly `cap` elements: the shape built by
      pushes alone. */
  ghost predicate Packed<T>(ss: seq<seq<T>>, cap: nat)
  {
    forall i :: 0 <= i < |ss| - 1 ==> |ss[i]| == cap
  }

  /** `after` keeps every run of `before` but the last unchanged, and
      extends that last run in place: what pushing at the tail does. */
  ghost predicate Grown<T>(before: seq<seq<T>>, after: seq<seq<T>>)
  {
    |before| <= |after| &&
    (forall i :: 0 <= i < |before| - 1 ==> after[i] == before[i]) &&
    (before != [] ==> before[|before| - 1] <= after[|before| - 1])
  }

  /** Growing twice is growing. */
  lemma GrownTrans<T>(a: seq<seq<T>>, b: seq<seq<T>>, c: seq<seq<T>>)
    requires Grown(a, b) && Grown(b, c)
    ensures Grown(a, c)
  {
    if a != [] {
      var n := |a| - 1;
      if n < |b| - 1 {
        assert b[n] == c[n];
      }
    }
  }

  /** Adding a run at the end adds its elements at the end. */
  lemma ConcatSnoc<T>(ss: seq<seq<T>>, s: seq<T>)
    ensures Concat(ss + [s]) == Concat(ss) + s
  {
    assert (ss + [s])[..|ss|] == ss;
  }

  /** Concatenation distributes over joining two chains. */
  lemma {:induction false} ConcatAppend<T>(a: seq<seq<T>>, b: seq<seq<T>>)
    ensures Concat(a + b) == Concat(a) + Concat(b)
    decreases |b|
  {
    if b == [] {
      assert a + b == a;
    } else {
      var b' := b[..|b| - 1];
      var s := b[|b| - 1];
      assert b == b' + [s];
      assert a + b == (a + b') + [s];
      ConcatSnoc(a + b', s);
      ConcatAppend(a, b');
      ConcatSnoc(b', s);
    }
  }

  /** Extending the last run by one element extends the contents by it. */
  lemma ConcatGrowLast<T>(ss: seq<seq<T>>, x: T)
    requires ss != []
    ensures Concat(ss[|ss| - 1 := ss[|ss| - 1] + [x]]) == Concat(ss) + [x]
  {
    var n := |ss|;
    var ss' := ss[n - 1 := ss[n - 1] + [x]];
    assert ss'[..n - 1] == ss[..n - 1];
  }

  /** Taking one more run of a prefix adds that run. */
  lemma ConcatPrefixStep<T>(ss: seq<seq<T>>, k: nat)
    requires k < |ss|
    ensures Concat(ss[..k + 1]) == Concat(ss[..k]) + ss[k]
  {
    assert ss[..k + 1][..k] == ss[..k];
  }

  /** Element `i` of run `k` sits at offset |Concat(ss[..k])| + i of the
      contents. */
  lemma ConcatAt<T>(ss: seq<seq<T>>, k: nat, i: nat)
    requires k < |ss| && i < |ss[k]|
    ensures |Concat(ss[..k])| + i < |Concat(ss)|
    ensures Concat(ss)[|Concat(ss[..k])| + i] == ss[k][i]
  {
    assert ss == ss[..k + 1] + ss[k + 1..];
    ConcatAppend(ss[..k + 1], ss[k + 1..]);
    ConcatPrefixStep(ss, k);
  }

  /** With non-empty runs, the contents are empty exactly when there is no
      run at all. */
  lemma ConcatEmpty<T>(ss: seq<seq<T>>, cap: nat)
    requires WellSized(ss, cap)
    ensures Concat(ss) == [] <==> ss == []
  {
    if ss != [] {
      ConcatAt(ss, |ss| - 1, 0);
    }
  }

  /** The length of a packed chain: cap * (number of runs - 1) plus the
      length of the last run. */
  lemma {:induction false} PackedLength<T>(ss: seq<seq<T>>, cap: nat)
    requires ss != [] && Packed(ss, cap)
    ensures |Concat(ss)| == cap * (|ss| - 1) + |ss[|ss| - 1]|
    decreases |ss|
  {
    var n := |ss|;
    if n > 1 {
      var ss' := ss[..n - 1];
      assert Packed(ss', cap) by {
        forall i | 0 <= i < |ss'| - 1 ensures |ss'[i]| == cap {
          assert ss'[i] == ss[i];
        }
      }
      PackedLength(ss', cap);
      assert |ss'[n - 2]| == cap;
      assert Concat(ss) == Concat(ss') + ss[n - 1];
      assert cap * (n - 1) == cap * (n - 2) + cap;
    } else {
      assert ss[..0] == [];
    }
  }

  /** A well-sized packed chain of N elements has exactly ceil(N / cap) runs,
      and its last run holds N - cap * (runs - 1) elements. */
  lemma PackedCount<T>(ss: seq<seq<T>>, cap: nat)
    requires cap >= 1 && WellSized(ss, cap) && Packed(ss, cap)
    ensures |ss| == (|Concat(ss)| + cap - 1) / cap
    ensures ss != [] ==> |ss[|ss| - 1]| == |Concat(ss)| - cap * (|ss| - 1)
  {
    if ss != [] {
      PackedLength(ss, cap);
      var q := |ss| - 1;
      var r := |ss[q]|;
      DivSplit(cap, q + 1, r - 1);
      assert |Concat(ss)| + cap - 1 == cap * (q + 1) + (r - 1);
    }
  }

  /** (cap * q + r) / cap == q for 0 <= r < cap. */
  lemma DivSplit(cap: nat, q: nat, r: nat)
    requires 0 <= r < cap
    ensures (cap * q + r) / cap == q
  {
    var n := cap * q + r;
    var d := n / cap;
    var m := n % cap;
    assert n == cap * d + m;
    if d > q {
      assert cap * d >= cap * (q + 1) by { MulMono(cap, q + 1, d); }
    } else if d < q {
      assert cap * q >= cap * (d + 1) by { MulMono(cap, d + 1, q); }
    }
  }

  /** Multiplying by a natural keeps the order. */
  lemma MulMono(c: nat, a: nat, b: nat)
    requires a <= b
    ensures c * a <= c * b
  {
  }

  /** One more element of a prefix. Stated apart so that callers whose
      context holds a list invariant get the fact without searching for it. */
  lemma PrefixSnoc<T>(s: seq<T>, p: nat)
    requires p < |s|
    ensures s[..p + 1] == s[..p] + [s[p]]
  {
  }

  /** One more element of a prefix, after a fixed head. */
  lemma AppendPrefixSnoc<T>(a: seq<T>, s: seq<T>, p: nat)
    requires p < |s|
    ensures a + s[..p + 1] == (a + s[..p]) + [s[p]]
  {
    assert s[..p + 1] == s[..p] + [s[p]];
  }

  /** Joining after nothing (stated apart for the same reason). */
  lemma EmptyAppend<T>(a: seq<T>, b: seq<T>)
    requires a == []
    ensures a + b == b
  {
  }
}
