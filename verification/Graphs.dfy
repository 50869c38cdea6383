/** Finite directed graphs given by successor lists. A node without an entry has no
    successors, which is how every lookup table of the pipeline treats an unknown name. */
module Graphs {

  function Succ<K>(g: map<K, seq<K>>, k: K): seq<K> {
    if k in g then g[k] else []
  }

  /** p is a non-empty walk along edges of g. */
  ghost predicate IsWalk<K>(g: map<K, seq<K>>, p: seq<K>) {
    |p| > 0 && forall i | 0 < i < |p| :: p[i] in Succ(g, p[i - 1])
  }

  ghost predicate IsWalkFromTo<K>(g: map<K, seq<K>>, p: seq<K>, a: K, b: K) {
    IsWalk(g, p) && p[0] == a && p[|p| - 1] == b
  }

  /** b can be reached from a in zero or more steps. */
  ghost predicate Reaches<K(!new)>(g: map<K, seq<K>>, a: K, b: K) {
    exists p: seq<K> :: IsWalkFromTo(g, p, a, b)
  }

  ghost predicate Closed<K(!new)>(g: map<K, seq<K>>, s: set<K>) {
    forall x, y | x in s && y in Succ(g, x) :: y in s
  }

  ghost predicate Simple<K>(p: seq<K>) {
    forall i, j | 0 <= i < j < |p| :: p[i] != p[j]
  }

  lemma ReachesSelf<K(!new)>(g: map<K, seq<K>>, a: K)
    ensures Reaches(g, a, a)
  {
    assert IsWalkFromTo(g, [a], a, a);
  }

  lemma ReachesThenStep<K(!new)>(g: map<K, seq<K>>, a: K, b: K, c: K)
    requires Reaches(g, a, b) && c in Succ(g, b)
    ensures Reaches(g, a, c)
  {
    var p :| IsWalkFromTo(g, p, a, b);
    assert IsWalkFromTo(g, p + [c], a, c);
  }

  lemma StepThenReaches<K(!new)>(g: map<K, seq<K>>, a: K, b: K, c: K)
    requires b in Succ(g, a) && Reaches(g, b, c)
    ensures Reaches(g, a, c)
  {
    var p :| IsWalkFromTo(g, p, b, c);
    var q := [a] + p;
    assert forall i | 0 <= i < |p| :: q[i + 1] == p[i];
    assert IsWalkFromTo(g, q, a, c);
  }

  /** A walk never leaves a closed set it starts in. */
  lemma {:induction false} WalkStaysInside<K(!new)>(g: map<K, seq<K>>, s: set<K>, p: seq<K>, n: nat)
    requires Closed(g, s) && IsWalk(g, p) && p[0] in s && n < |p|
    ensures p[n] in s
  {
    if n > 0 {
      WalkStaysInside(g, s, p, n - 1);
    }
  }

  lemma ClosedContainsReachable<K(!new)>(g: map<K, seq<K>>, s: set<K>, a: K)
    requires Closed(g, s) && a in s
    ensures forall b | Reaches(g, a, b) :: b in s
  {
    forall b | Reaches(g, a, b) ensures b in s {
      var p :| IsWalkFromTo(g, p, a, b);
      WalkStaysInside(g, s, p, |p| - 1);
    }
  }

  /** Cutting cycles out of a walk: whatever is reachable is reachable without visiting a node twice. */
  lemma {:induction false} SimpleWalkExists<K(!new)>(g: map<K, seq<K>>, p: seq<K>, a: K, b: K) returns (q: seq<K>)
    requires IsWalkFromTo(g, p, a, b)
    ensures IsWalkFromTo(g, q, a, b) && Simple(q)
    decreases |p|
  {
    if Simple(p) {
      return p;
    }
    var i, j :| 0 <= i < j < |p| && p[i] == p[j];
    var cut := p[..i] + p[j..];
    forall n | 0 < n < |cut| ensures cut[n] in Succ(g, cut[n - 1]) {
      if n < i {
        assert cut[n] == p[n] && cut[n - 1] == p[n - 1];
      } else if n == i {
        assert cut[n] == p[i] && cut[n - 1] == p[i - 1];
      } else {
        assert cut[n] == p[n + j - i] && cut[n - 1] == p[n + j - i - 1];
      }
    }
    q := SimpleWalkExists(g, cut, a, b);
  }

  // ---- Per-path depth-first search ----------------------------------------------------------------

  /** The naive depth-first listing from a: left to right, one copy per path, a path cut where it
      would repeat itself. */
  function Preorder<K(==)>(g: map<K, seq<K>>, a: K, path: set<K>): seq<K>
    decreases g.Keys - path, 0
  {
    if a in path then []
    else if a !in g then [a]
    else
      [a] + PreorderOfAll(g, g[a], path + {a})
  }

  function PreorderOfAll<K(==)>(g: map<K, seq<K>>, ks: seq<K>, path: set<K>): seq<K>
    decreases g.Keys - path, |ks| + 1
  {
    if ks == [] then [] else Preorder(g, ks[0], path) + PreorderOfAll(g, ks[1..], path)
  }

  lemma {:induction false} PreorderOfAllMeans<K(!new)>(g: map<K, seq<K>>, ks: seq<K>, path: set<K>, c: K)
    ensures c in PreorderOfAll(g, ks, path) <==> exists b :: b in ks && c in Preorder(g, b, path)
    decreases |ks|
  {
    if ks != [] {
      PreorderOfAllMeans(g, ks[1..], path, c);
      assert PreorderOfAll(g, ks, path) == Preorder(g, ks[0], path) + PreorderOfAll(g, ks[1..], path);
      if c in PreorderOfAll(g, ks[1..], path) {
        var b :| b in ks[1..] && c in Preorder(g, b, path);
        assert b in ks;
      }
      assert ks[0] in ks;
      assert forall b | b in ks :: b == ks[0] || b in ks[1..];
    }
  }

  /** Everything listed is reachable. */
  lemma {:induction false} PreorderReachable<K(!new)>(g: map<K, seq<K>>, a: K, path: set<K>, c: K)
    requires c in Preorder(g, a, path)
    ensures Reaches(g, a, c)
    decreases g.Keys - path
  {
    ReachesSelf(g, a);
    if c != a {
      PreorderOfAllMeans(g, g[a], path + {a}, c);
      var b :| b in g[a] && c in Preorder(g, b, path + {a});
      PreorderReachable(g, b, path + {a}, c);
      StepThenReaches(g, a, b, c);
    }
  }

  /** A walk that repeats no node and avoids the path so far is followed to its end. */
  lemma {:induction false} SimpleWalkIsFollowed<K(!new)>(g: map<K, seq<K>>, path: set<K>, p: seq<K>)
    requires IsWalk(g, p) && Simple(p) && forall c | c in p :: c !in path
    ensures p[|p| - 1] in Preorder(g, p[0], path)
    decreases |p|
  {
    if |p| > 1 {
      var q := p[1..];
      assert p[1] in Succ(g, p[0]);
      assert p[0] in g;
      forall i | 0 < i < |q| ensures q[i] in Succ(g, q[i - 1]) {
        assert p[i + 1] in Succ(g, p[i]);
      }
      forall c | c in q ensures c !in path + {p[0]} {
        var i :| 0 <= i < |q| && q[i] == c;
        assert p[i + 1] == c && p[0] != p[i + 1];
      }
      SimpleWalkIsFollowed(g, path + {p[0]}, q);
      PreorderOfAllMeans(g, g[p[0]], path + {p[0]}, q[|q| - 1]);
      assert p[0] in p;
    } else {
      assert p[0] in p;
    }
  }

  /** The search lists exactly the nodes reachable from its start, cycles or not. */
  lemma PreorderExact<K(!new)>(g: map<K, seq<K>>, a: K, c: K)
    ensures c in Preorder(g, a, {}) <==> Reaches(g, a, c)
  {
    if c in Preorder(g, a, {}) {
      PreorderReachable(g, a, {}, c);
    }
    if Reaches(g, a, c) {
      var p :| IsWalkFromTo(g, p, a, c);
      var q := SimpleWalkExists(g, p, a, c);
      SimpleWalkIsFollowed(g, {}, q);
    }
  }
}
