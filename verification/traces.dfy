/**
  Facts about injection traces: sequences of vectors, their order, and how
  they sit against sets of vectors.  Used to describe what a run of
  interrupt-window exits hands to the window.  Everything here is about
  plain sequences and sets, so a proof about the register page can take the
  sequence and set algebra from these lemmas instead of redoing it.
 */
module Traces {
  /** The elements of `t` strictly decrease. */
  predicate Decreasing(t: seq<bv8>) {
    forall i, j :: 0 <= i < j < |t| ==> t[i] > t[j]
  }

  /** The vectors that occur in `t`. */
  ghost function Elems(t: seq<bv8>): iset<bv8> {
    iset u | u in t
  }

  /** Every element of `t` lies above every element of `s`. */
  ghost predicate AllAbove(t: seq<bv8>, s: iset<bv8>) {
    forall x, u :: x in t && u in s ==> u < x
  }

  lemma ElemsNil()
    ensures Elems([]) == iset{}
  {
    assert forall u :: u !in Elems([]);
  }

  lemma ElemsSingle(v: bv8)
    ensures Elems([v]) == iset{v}
  {
    assert forall u :: u in Elems([v]) <==> u == v;
  }

  lemma ElemsAppend(a: seq<bv8>, b: seq<bv8>)
    ensures Elems(a + b) == Elems(a) + Elems(b)
  {
    assert forall u :: u in a + b <==> u in a || u in b;
  }

  lemma AppendAssoc(a: seq<bv8>, b: seq<bv8>, c: seq<bv8>)
    ensures (a + b) + c == a + (b + c)
  {
  }

  lemma AppendTwo(a: seq<bv8>, x: bv8, y: bv8)
    ensures (a + [x]) + [y] == a + [x, y]
  {
  }

  /** Two decreasing traces, the first entirely above the second, make a decreasing trace. */
  lemma AppendDecreasing(a: seq<bv8>, b: seq<bv8>)
    requires Decreasing(a) && Decreasing(b)
    requires AllAbove(a, Elems(b))
    ensures Decreasing(a + b)
  {
    var ab := a + b;
    forall i, j | 0 <= i < j < |ab|
      ensures ab[i] > ab[j]
    {
      if j >= |a| {
        assert ab[j] == b[j - |a|];
        if i >= |a| {
          assert ab[i] == b[i - |a|];
        } else {
          assert ab[i] == a[i] && a[i] in a;
          assert ab[j] in Elems(b);
        }
      } else {
        assert ab[i] == a[i] && ab[j] == a[j];
      }
    }
  }

  /**
    The trace `t` is what a run delivered out of the pending set `s`, leaving
    `s1`, into the in-service set `q`, giving `q1`: every delivered vector was
    pending, the trace is strictly decreasing, it lies above everything still
    pending, and exactly the delivered vectors moved from one set to the other.
   */
  ghost predicate Delivers(s: iset<bv8>, s1: iset<bv8>, q: iset<bv8>, q1: iset<bv8>, t: seq<bv8>) {
    && Elems(t) <= s && Decreasing(t)
    && s1 == s - Elems(t)
    && AllAbove(t, s1)
    && q1 == q + Elems(t)
  }

  /** The empty trace moves nothing. */
  lemma TraceNil(s: iset<bv8>, q: iset<bv8>)
    ensures Delivers(s, s, q, q, [])
  {
    ElemsNil();
  }

  /** Delivering the one highest pending vector `v`. */
  lemma TraceSingle(s: iset<bv8>, s1: iset<bv8>, q: iset<bv8>, q1: iset<bv8>, v: bv8)
    requires v in s && forall u :: u in s ==> u <= v
    requires s1 == s - iset{v} && q1 == q + iset{v}
    ensures Delivers(s, s1, q, q1, [v])
  {
    ElemsSingle(v);
  }

  /** A delivery followed by another delivery is one delivery of both traces, in order. */
  lemma TraceStep(s: iset<bv8>, s1: iset<bv8>, sr: iset<bv8>,
                  q: iset<bv8>, q1: iset<bv8>, qr: iset<bv8>,
                  d: seq<bv8>, t: seq<bv8>)
    requires Delivers(s, s1, q, q1, d) && Delivers(s1, sr, q1, qr, t)
    ensures Delivers(s, sr, q, qr, d + t)
  {
    ElemsAppend(d, t);
    assert AllAbove(d, Elems(t));
    AppendDecreasing(d, t);
    assert forall x :: x in d + t <==> x in d || x in t;
  }

  /** Removing the head of a decreasing trace removes exactly that vector. */
  lemma DecreasingTail(t: seq<bv8>)
    requires Decreasing(t) && |t| > 0
    ensures Decreasing(t[1..])
    ensures Elems(t[1..]) == Elems(t) - iset{t[0]}
    ensures forall u :: u in Elems(t) ==> u <= t[0]
  {
    assert forall u :: u in t <==> u == t[0] || u in t[1..];
    assert forall u :: u in t[1..] ==> u < t[0];
  }

  /** A decreasing trace is determined by its elements. */
  lemma {:induction false} DecreasingUnique(a: seq<bv8>, b: seq<bv8>)
    requires Decreasing(a) && Decreasing(b) && Elems(a) == Elems(b)
    ensures a == b
    decreases |a|
  {
    assert |a| > 0 ==> a[0] in Elems(b);
    assert |b| > 0 ==> b[0] in Elems(a);
    if |a| > 0 && |b| > 0 {
      DecreasingTail(a);
      DecreasingTail(b);
      assert a[0] in Elems(b) && b[0] in Elems(a);
      assert a[0] == b[0];
      DecreasingUnique(a[1..], b[1..]);
      assert a == [a[0]] + a[1..] && b == [b[0]] + b[1..];
    }
  }

  /** A trace that leaves nothing of the set it was taken from delivered the whole set. */
  lemma DeliveredAll(s: iset<bv8>, t: seq<bv8>)
    requires Elems(t) <= s && s - Elems(t) == iset{}
    ensures Elems(t) == s
  {
    forall u | u in s
      ensures u in Elems(t)
    {
      assert u in Elems(t) || u in s - Elems(t);
    }
  }
}
