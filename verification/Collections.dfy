/** Linked lists as sequences without repeats, and sizes of sets. */
module Collections {

  predicate Distinct<T(==)>(q: seq<T>) {
    forall i, j :: 0 <= i < j < |q| ==> q[i] != q[j]
  }

  /** DLL_Remove. */
  function Without(q: seq<nat>, s: nat): seq<nat> {
    if q == [] then [] else if q[0] == s then q[1..] else [q[0]] + Without(q[1..], s)
  }

  lemma {:induction false} WithoutSpec(q: seq<nat>, s: nat)
    requires Distinct(q)
    ensures Distinct(Without(q, s))
    ensures forall x :: x in Without(q, s) <==> x in q && x != s
    ensures |Without(q, s)| == |q| - (if s in q then 1 else 0)
  {
    if q != [] && q[0] != s {
      WithoutSpec(q[1..], s);
      forall x ensures x in Without(q, s) <==> x in q && x != s {
        assert x in q <==> x == q[0] || x in q[1..];
      }
      assert q[0] !in q[1..];
    }
  }

  /** `r` is `q` without its first `s`, everything else in order. */
  ghost predicate CutOut(q: seq<nat>, r: seq<nat>, s: nat) {
    if s !in q then r == q else exists i :: CutAt(q, r, s, i)
  }

  ghost predicate CutAt(q: seq<nat>, r: seq<nat>, s: nat, i: int) {
    0 <= i < |q| && q[i] == s && s !in q[..i] && r == q[..i] + q[i + 1..]
  }

  lemma CutLater(x: nat, q: seq<nat>, r: seq<nat>, s: nat, i: int)
    requires x != s && CutAt(q, r, s, i)
    ensures CutAt([x] + q, [x] + r, s, i + 1)
  {
    var w := [x] + q;
    assert w[..i + 1] == [x] + q[..i];
    assert w[i + 2..] == q[i + 1..];
    assert [x] + r == [x] + q[..i] + q[i + 1..];
  }

  lemma {:induction false} WithoutCuts(q: seq<nat>, s: nat)
    ensures CutOut(q, Without(q, s), s)
  {
    if q != [] && q[0] == s {
      assert CutAt(q, Without(q, s), s, 0);
    } else if q != [] {
      WithoutCuts(q[1..], s);
      assert q == [q[0]] + q[1..];
      if s in q[1..] {
        var i :| CutAt(q[1..], Without(q[1..], s), s, i);
        CutLater(q[0], q[1..], Without(q[1..], s), s, i);
      }
    }
  }

  lemma SubsetCard<T>(a: set<T>, b: set<T>)
    requires a <= b
    ensures |a| <= |b| && (|a| == |b| ==> a == b)
  {
    assert b == a + (b - a);
    assert |b| == |a| + |b - a|;
  }
}
