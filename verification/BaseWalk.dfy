/** `ancestors` of hack/extract-netbox-schema.py: the depth-first walk over a class's bases with
    one `seen` set of bare names, shared and mutated by every recursive call. */
module BaseWalk {
  import opened Options
  import opened Graphs
  import opened BaseGraph

  type Graph = map<Key, seq<Key>>

  ghost function Names(g: Graph): set<string> {
    set k | k in g :: k.name
  }

  ghost function NamesOf(ks: seq<Key>): set<string> {
    set k | k in ks :: k.name
  }

  ghost predicate Within(g: Graph, ks: seq<Key>) {
    forall k | k in ks :: k in g
  }

  /** What the walk yields from a list of bases, and the names it leaves in `seen`. */
  ghost function Visit(g: Graph, ks: seq<Key>, seen: set<string>): (r: (seq<Key>, set<string>))
    requires Total(g) && Within(g, ks)
    ensures seen <= r.1
    decreases Names(g) - seen, |ks|
  {
    if ks == [] then ([], seen)
    else if ks[0].name in seen then Visit(g, ks[1..], seen)
    else
      assert ks[0] in g && ks[0].name in Names(g);
      var inner := Visit(g, g[ks[0]], seen + {ks[0].name});
      var rest := Visit(g, ks[1..], inner.1);
      ([ks[0]] + inner.0 + rest.0, rest.1)
  }

  ghost function Ancestors(g: Graph, v: Key): seq<Key>
    requires Total(g) && v in g
  {
    Visit(g, g[v], {v.name}).0
  }

  ghost predicate DistinctNames(g: Graph, v: Key) {
    forall x, y | Reaches(g, v, x) && Reaches(g, v, y) && x.name == y.name :: x == y
  }

  // ---- The imperative walk --------------------------------------------------------------------

  /** The mutable state of the walk: the set threaded through one entry's recursion, and the
      global record of bases no app could be chosen for. */
  class Walker {
    var seen: set<string>
    var ambiguous: set<(Key, string)>

    constructor ()
      ensures seen == {} && ambiguous == {}
    {
      seen, ambiguous := {}, {};
    }
  }

  /** Every base that no app can be chosen for, with the class that names it. */
  ghost function AllAmbiguous(d: Decls): set<(Key, string)> {
    set k, b | k in d && b in d[k] && Ambiguous(d, k.app, b) :: (k, b)
  }

  /** The walk over a list of bases is the walk over its front, then over its back. */
  lemma {:induction false} VisitAppend(g: Graph, a: seq<Key>, b: seq<Key>, seen: set<string>)
    requires Total(g) && Within(g, a) && Within(g, b)
    ensures Within(g, a + b)
    ensures var front := Visit(g, a, seen); var back := Visit(g, b, front.1);
            Visit(g, a + b, seen) == (front.0 + back.0, back.1)
    decreases Names(g) - seen, |a|
  {
    if a == [] {
      assert a + b == b && [] + Visit(g, b, seen).0 == Visit(g, b, seen).0;
    } else {
      assert (a + b)[1..] == a[1..] + b;
      if a[0].name in seen {
        VisitAppend(g, a[1..], b, seen);
      } else {
        assert a[0] in g && a[0].name in Names(g);
        var inner := Visit(g, g[a[0]], seen + {a[0].name});
        VisitAppend(g, a[1..], b, inner.1);
        var mid := Visit(g, a[1..], inner.1);
        var back := Visit(g, b, mid.1);
        assert [a[0]] + inner.0 + (mid.0 + back.0) == [a[0]] + inner.0 + mid.0 + back.0;
      }
    }
  }

  ghost function ResolveOne(d: Decls, app: string, base: string): (ks: seq<Key>)
    ensures forall k | k in ks :: k in d
  {
    var r := Resolve(d, app, base);
    if r.Some? then [r.value] else []
  }

  lemma {:induction false} ResolveAllSnoc(d: Decls, app: string, bases: seq<string>, base: string)
    ensures ResolveAll(d, app, bases + [base]) == ResolveAll(d, app, bases) + ResolveOne(d, app, base)
  {
    if bases == [] {
      assert bases + [base] == [base] && [base][1..] == [];
    } else {
      assert (bases + [base])[1..] == bases[1..] + [base];
      ResolveAllSnoc(d, app, bases[1..], base);
    }
  }

  lemma OneBaseFurther(d: Decls, g: Graph, v: Key, i: nat, seen: set<string>)
    requires v in d && i < |d[v]| && g.Keys == d.Keys && Total(g)
    ensures var front := Visit(g, ResolveAll(d, v.app, d[v][..i]), seen);
            var more := Visit(g, ResolveOne(d, v.app, d[v][i]), front.1);
            Visit(g, ResolveAll(d, v.app, d[v][..i + 1]), seen) == (front.0 + more.0, more.1)
  {
    assert d[v][..i + 1] == d[v][..i] + [d[v][i]];
    ResolveAllSnoc(d, v.app, d[v][..i], d[v][i]);
    VisitAppend(g, ResolveAll(d, v.app, d[v][..i]), ResolveOne(d, v.app, d[v][i]), seen);
  }

  /** `ancestors(v, seen)`: the loop over v's bases. */
  method Walk(d: Decls, byName: map<string, Option<Key>>, ghost g: Graph, v: Key, w: Walker) returns (out: seq<Key>)
    requires v in d && Answers(d, byName) && IsBases(d, g)
    modifies w
    ensures (out, w.seen) == Visit(g, g[v], old(w.seen))
    ensures old(w.ambiguous) <= w.ambiguous <= old(w.ambiguous) + AllAmbiguous(d)
    ensures forall b | b in d[v] && Ambiguous(d, v.app, b) :: (v, b) in w.ambiguous
    decreases Names(g) - w.seen, 1
  {
    out := [];
    ghost var seen0 := w.seen;
    for i := 0 to |d[v]|
      invariant (out, w.seen) == Visit(g, ResolveAll(d, v.app, d[v][..i]), seen0)
      invariant old(w.ambiguous) <= w.ambiguous <= old(w.ambiguous) + AllAmbiguous(d)
      invariant forall b | b in d[v][..i] && Ambiguous(d, v.app, b) :: (v, b) in w.ambiguous
    {
      OneBaseFurther(d, g, v, i, seen0);
      assert d[v][..i + 1] == d[v][..i] + [d[v][i]];
      var more := WalkBase(d, byName, g, v, d[v][i], w);
      out := out + more;
    }
    assert d[v][..|d[v]|] == d[v];
  }

  /** The body of that loop: one base of v. */
  method WalkBase(d: Decls, byName: map<string, Option<Key>>, ghost g: Graph, v: Key, base: string, w: Walker)
    returns (out: seq<Key>)
    requires v in d && base in d[v] && Answers(d, byName) && IsBases(d, g)
    modifies w
    ensures (out, w.seen) == Visit(g, ResolveOne(d, v.app, base), old(w.seen))
    ensures old(w.ambiguous) <= w.ambiguous <= old(w.ambiguous) + AllAmbiguous(d)
    ensures Ambiguous(d, v.app, base) ==> (v, base) in w.ambiguous
    decreases Names(g) - w.seen, 0
  {
    out := [];
    var e := Lookup(d, byName, v.app, base);
    if e.None? {
      if base in byName {
        w.ambiguous := w.ambiguous + {(v, base)};
      }
      return;
    }
    if e.value.name in w.seen {
      return;
    }
    assert e.value.name in Names(g);
    w.seen := w.seen + {e.value.name};
    var inner := Walk(d, byName, g, e.value, w);
    out := [e.value] + inner;
    assert out == out + [];
  }

  // ---- What it yields -------------------------------------------------------------------------

  ghost predicate DistinctNamesIn(ks: seq<Key>) {
    forall i, j | 0 <= i < j < |ks| :: ks[i].name != ks[j].name
  }

  /** No name twice, none already seen; `seen` grows by exactly the names yielded. */
  lemma {:induction false} VisitNames(g: Graph, ks: seq<Key>, seen: set<string>)
    requires Total(g) && Within(g, ks)
    ensures var r := Visit(g, ks, seen);
            DistinctNamesIn(r.0) && NamesOf(r.0) !! seen && r.1 == seen + NamesOf(r.0) && Within(g, r.0)
    decreases Names(g) - seen, |ks|
  {
    if ks != [] {
      if ks[0].name in seen {
        VisitNames(g, ks[1..], seen);
      } else {
        assert ks[0] in g && ks[0].name in Names(g);
        var inner := Visit(g, g[ks[0]], seen + {ks[0].name});
        VisitNames(g, g[ks[0]], seen + {ks[0].name});
        VisitNames(g, ks[1..], inner.1);
        var rest := Visit(g, ks[1..], inner.1);
        NamesConcat([ks[0]] + inner.0, rest.0);
        NamesConcat([ks[0]], inner.0);
        assert NamesOf([ks[0]]) == {ks[0].name};
        DistinctConcat([ks[0]], inner.0);
        DistinctConcat([ks[0]] + inner.0, rest.0);
      }
    }
  }

  lemma NamesConcat(a: seq<Key>, b: seq<Key>)
    ensures NamesOf(a + b) == NamesOf(a) + NamesOf(b)
  {
  }

  lemma DistinctConcat(a: seq<Key>, b: seq<Key>)
    requires DistinctNamesIn(a) && DistinctNamesIn(b) && NamesOf(a) !! NamesOf(b)
    ensures DistinctNamesIn(a + b)
  {
    forall i, j | 0 <= i < j < |a + b| ensures (a + b)[i].name != (a + b)[j].name {
      if i < |a| <= j {
        assert a[i].name in NamesOf(a) && b[j - |a|].name in NamesOf(b);
      }
    }
  }

  lemma {:induction false} VisitReachable(g: Graph, v: Key, ks: seq<Key>, seen: set<string>)
    requires Total(g) && Within(g, ks) && forall k | k in ks :: Reaches(g, v, k)
    ensures forall k | k in Visit(g, ks, seen).0 :: Reaches(g, v, k)
    decreases Names(g) - seen, |ks|
  {
    if ks != [] {
      if ks[0].name in seen {
        VisitReachable(g, v, ks[1..], seen);
      } else {
        assert ks[0] in g && ks[0].name in Names(g);
        forall k | k in g[ks[0]] ensures Reaches(g, v, k) {
          ReachesThenStep(g, v, ks[0], k);
        }
        VisitReachable(g, v, g[ks[0]], seen + {ks[0].name});
        VisitReachable(g, v, ks[1..], Visit(g, g[ks[0]], seen + {ks[0].name}).1);
      }
    }
  }

  /** Nothing met on the way is left unnamed: every base of everything yielded was seen. */
  lemma {:induction false} VisitClosed(g: Graph, ks: seq<Key>, seen: set<string>)
    requires Total(g) && Within(g, ks)
    ensures var r := Visit(g, ks, seen);
            (forall k | k in ks :: k.name in r.1) && forall x, y | x in r.0 && y in Succ(g, x) :: y.name in r.1
    decreases Names(g) - seen, |ks|
  {
    if ks != [] {
      if ks[0].name in seen {
        VisitClosed(g, ks[1..], seen);
      } else {
        assert ks[0] in g && ks[0].name in Names(g);
        VisitClosed(g, g[ks[0]], seen + {ks[0].name});
        VisitClosed(g, ks[1..], Visit(g, g[ks[0]], seen + {ks[0].name}).1);
      }
    }
  }

  /** No class name twice and never the entry's own, on any base graph, cyclic ones included. */
  lemma AncestorsNamedOnce(g: Graph, v: Key)
    requires Total(g) && v in g
    ensures DistinctNamesIn(Ancestors(g, v)) && v.name !in NamesOf(Ancestors(g, v))
    ensures forall x | x in Ancestors(g, v) :: x != v && Reaches(g, v, x)
  {
    VisitNames(g, g[v], {v.name});
    ReachesSelf(g, v);
    forall k | k in g[v] ensures Reaches(g, v, k) {
      ReachesThenStep(g, v, v, k);
    }
    VisitReachable(g, v, g[v], {v.name});
    forall x | x in Ancestors(g, v) ensures x != v {
      assert x.name in NamesOf(Ancestors(g, v));
    }
  }

  /** The walk yields exactly what the entry reaches, itself aside, if and only if no two classes
      it reaches share a bare name. */
  lemma AncestorsExact(g: Graph, v: Key)
    requires Total(g) && v in g
    ensures (forall x :: x in Ancestors(g, v) <==> x != v && Reaches(g, v, x)) <==> DistinctNames(g, v)
  {
    AncestorsNamedOnce(g, v);
    if DistinctNames(g, v) {
      AncestorsComplete(g, v);
    }
    if forall x :: x in Ancestors(g, v) <==> x != v && Reaches(g, v, x) {
      forall x, y | Reaches(g, v, x) && Reaches(g, v, y) && x.name == y.name ensures x == y {
        SameNameSameAncestor(Ancestors(g, v), v, x, y);
      }
    }
  }

  lemma SameNameSameAncestor(ks: seq<Key>, v: Key, x: Key, y: Key)
    requires DistinctNamesIn(ks) && v.name !in NamesOf(ks) && x.name == y.name
    requires (x == v || x in ks) && (y == v || y in ks)
    ensures x == y
  {
    assert forall k | k in ks :: k.name in NamesOf(ks);
    if x in ks && y in ks {
      var i :| 0 <= i < |ks| && ks[i] == x;
      var j :| 0 <= j < |ks| && ks[j] == y;
    }
  }

  lemma AncestorsComplete(g: Graph, v: Key)
    requires Total(g) && v in g && DistinctNames(g, v)
    ensures forall x :: x in Ancestors(g, v) <==> x != v && Reaches(g, v, x)
  {
    AncestorsNamedOnce(g, v);
    VisitNames(g, g[v], {v.name});
    VisitClosed(g, g[v], {v.name});
    ReachesSelf(g, v);
    var s := {v} + set k | k in Ancestors(g, v);
    forall x, y | x in s && y in Succ(g, x) ensures y in s {
      ReachesThenStep(g, v, x, y);
      assert y.name in {v.name} + NamesOf(Ancestors(g, v));
      if y.name != v.name {
        var z :| z in Ancestors(g, v) && z.name == y.name;
        assert z == y;
      }
    }
    ClosedContainsReachable(g, s, v);
  }

  // ---- The shared set refines the naive listing -----------------------------------------------------

  /** The first class of each name, in the order listed, leaving out the names in `seen`. */
  ghost function FirstMet(ks: seq<Key>, seen: set<string>): seq<Key>
    decreases |ks|
  {
    if ks == [] then []
    else if ks[0].name in seen then FirstMet(ks[1..], seen)
    else [ks[0]] + FirstMet(ks[1..], seen + {ks[0].name})
  }

  lemma {:induction false} FirstMetConcat(a: seq<Key>, b: seq<Key>, seen: set<string>)
    ensures FirstMet(a + b, seen) == FirstMet(a, seen) + FirstMet(b, seen + NamesOf(a))
    decreases |a|
  {
    if a == [] {
      assert a + b == b && seen + NamesOf(a) == seen;
    } else {
      assert (a + b)[0] == a[0] && (a + b)[1..] == a[1..] + b;
      assert a == [a[0]] + a[1..];
      NamesConcat([a[0]], a[1..]);
      assert NamesOf([a[0]]) == {a[0].name};
      if a[0].name in seen {
        FirstMetConcat(a[1..], b, seen);
        assert seen + NamesOf(a[1..]) == seen + NamesOf(a);
      } else {
        FirstMetConcat(a[1..], b, seen + {a[0].name});
        assert seen + {a[0].name} + NamesOf(a[1..]) == seen + NamesOf(a);
      }
    }
  }

  lemma {:induction false} NothingNew(ks: seq<Key>, seen: set<string>)
    requires NamesOf(ks) <= seen
    ensures FirstMet(ks, seen) == [] && seen + NamesOf(ks) == seen
    decreases |ks|
  {
    if ks != [] {
      assert ks[0].name in NamesOf(ks);
      assert forall k | k in ks[1..] :: k.name in NamesOf(ks);
      NothingNew(ks[1..], seen);
    }
  }

  /** r is closed under bases and no two of its classes share a name. */
  ghost predicate Region(g: Graph, r: set<Key>) {
    Total(g) && r <= g.Keys && Closed(g, r) && forall x, y | x in r && y in r && x.name == y.name :: x == y
  }

  /** Every class of the region already seen and no longer on the path has all its bases seen. */
  ghost predicate Finished(g: Graph, r: set<Key>, path: set<Key>, seen: set<string>)
    requires r <= g.Keys
  {
    && (forall x | x in path :: x.name in seen)
    && forall x {:trigger x.name} | x in r && x.name in seen && x !in path :: NamesOf(g[x]) <= seen
  }

  /** The listing below a seen class meets only seen names. */
  lemma {:induction false} ListingOfSeen(g: Graph, r: set<Key>, path: set<Key>, seen: set<string>, e: Key)
    requires Region(g, r) && e in r && e.name in seen && Finished(g, r, path, seen)
    ensures NamesOf(Preorder(g, e, path)) <= seen
    decreases g.Keys - path, 0
  {
    if e !in path {
      InRegion(g, r, e);
      assert forall x | x in g[e] :: x.name in NamesOf(g[e]);
      ListingOfAllSeen(g, r, path + {e}, seen, g[e]);
      NamesConcat([e], PreorderOfAll(g, g[e], path + {e}));
    }
  }

  lemma {:induction false} ListingOfAllSeen(g: Graph, r: set<Key>, path: set<Key>, seen: set<string>, ks: seq<Key>)
    requires Region(g, r) && (forall k | k in ks :: k in r && k.name in seen) && Finished(g, r, path, seen)
    ensures NamesOf(PreorderOfAll(g, ks, path)) <= seen
    decreases g.Keys - path, |ks| + 1
  {
    if ks != [] {
      ListingOfSeen(g, r, path, seen, ks[0]);
      ListingOfAllSeen(g, r, path, seen, ks[1..]);
      NamesConcat(Preorder(g, ks[0], path), PreorderOfAll(g, ks[1..], path));
    }
  }

  lemma InRegion(g: Graph, r: set<Key>, e: Key)
    requires Region(g, r) && e in r
    ensures e in g && forall x | x in g[e] :: x in r
  {
    assert forall x | x in g[e] :: x in Succ(g, e);
  }

  lemma FirstMetOfNew(e: Key, below: seq<Key>, rest: seq<Key>, seen: set<string>)
    requires e.name !in seen
    ensures var seen1 := seen + {e.name};
            && FirstMet([e] + below + rest, seen)
               == [e] + FirstMet(below, seen1) + FirstMet(rest, seen1 + NamesOf(below))
            && seen + NamesOf([e] + below + rest) == seen1 + NamesOf(below) + NamesOf(rest)
  {
    assert [e] + below + rest == [e] + (below + rest);
    assert ([e] + (below + rest))[1..] == below + rest;
    FirstMetConcat(below, rest, seen + {e.name});
    NamesConcat([e], below + rest);
    NamesConcat(below, rest);
    assert NamesOf([e]) == {e.name};
  }

  /** The walk with its one shared set yields the first meeting of each class in the full left-to-right
      depth-first listing, and leaves seen what that listing meets. */
  lemma {:induction false} VisitIsFirstMet(g: Graph, r: set<Key>, path: set<Key>, seen: set<string>, ks: seq<Key>)
    requires Region(g, r) && Within(g, ks) && (forall k | k in ks :: k in r) && Finished(g, r, path, seen)
    ensures Visit(g, ks, seen).0 == FirstMet(PreorderOfAll(g, ks, path), seen)
    ensures Visit(g, ks, seen).1 == seen + NamesOf(PreorderOfAll(g, ks, path))
    ensures Finished(g, r, path, Visit(g, ks, seen).1)
    decreases Names(g) - seen, |ks|
  {
    if ks == [] {
    } else if ks[0].name in seen {
      SeenIsFirstMet(g, r, path, seen, ks);
      VisitIsFirstMet(g, r, path, seen, ks[1..]);
    } else {
      var e := ks[0];
      InRegion(g, r, e);
      assert e.name in Names(g);
      EnteringKeepsFinished(g, r, path, seen, e);
      VisitIsFirstMet(g, r, path + {e}, seen + {e.name}, g[e]);
      LeavingKeepsFinished(g, r, path, seen + {e.name}, e);
      VisitIsFirstMet(g, r, path, Visit(g, g[e], seen + {e.name}).1, ks[1..]);
      ListingOfNew(g, ks, path);
      hide Preorder, PreorderOfAll, Finished, Region, FirstMet;
      FirstMetOfNew(e, PreorderOfAll(g, g[e], path + {e}), PreorderOfAll(g, ks[1..], path), seen);
    }
  }

  lemma ListingOfNew(g: Graph, ks: seq<Key>, path: set<Key>)
    requires ks != [] && ks[0] in g && ks[0] !in path
    ensures PreorderOfAll(g, ks, path)
         == [ks[0]] + PreorderOfAll(g, g[ks[0]], path + {ks[0]}) + PreorderOfAll(g, ks[1..], path)
  {
  }

  lemma SeenIsFirstMet(g: Graph, r: set<Key>, path: set<Key>, seen: set<string>, ks: seq<Key>)
    requires Region(g, r) && ks != [] && ks[0] in r && ks[0].name in seen && Finished(g, r, path, seen)
    ensures var rest := PreorderOfAll(g, ks[1..], path); var all := PreorderOfAll(g, ks, path);
            FirstMet(all, seen) == FirstMet(rest, seen) && seen + NamesOf(all) == seen + NamesOf(rest)
  {
    var first, rest := Preorder(g, ks[0], path), PreorderOfAll(g, ks[1..], path);
    ListingOfSeen(g, r, path, seen, ks[0]);
    NothingNew(first, seen);
    FirstMetConcat(first, rest, seen);
    NamesConcat(first, rest);
    assert [] + FirstMet(rest, seen) == FirstMet(rest, seen);
  }

  lemma EnteringKeepsFinished(g: Graph, r: set<Key>, path: set<Key>, seen: set<string>, e: Key)
    requires Region(g, r) && e in r && e.name !in seen && Finished(g, r, path, seen)
    ensures Finished(g, r, path + {e}, seen + {e.name})
  {
  }

  lemma LeavingKeepsFinished(g: Graph, r: set<Key>, path: set<Key>, seen: set<string>, e: Key)
    requires Region(g, r) && e in r && e in g && Within(g, g[e]) && (forall x | x in path :: x.name in seen)
    requires Finished(g, r, path + {e}, Visit(g, g[e], seen).1)
    ensures Finished(g, r, path, Visit(g, g[e], seen).1)
  {
    VisitClosed(g, g[e], seen);
    assert NamesOf(g[e]) <= Visit(g, g[e], seen).1;
  }

  /** For distinct names the ancestors are, in order, the first meetings of the full left-to-right
      depth-first listing of the bases: skipping what was seen loses nothing and reorders nothing. */
  lemma AncestorsAreFirstMeetings(g: Graph, v: Key)
    requires Total(g) && v in g && DistinctNames(g, v)
    ensures Ancestors(g, v) == FirstMet(PreorderOfAll(g, g[v], {v}), {v.name})
  {
    var r := set k | k in g && Reaches(g, v, k);
    ReachesSelf(g, v);
    forall x, y | x in r && y in Succ(g, x) ensures y in r {
      ReachesThenStep(g, v, x, y);
    }
    InRegion(g, r, v);
    VisitIsFirstMet(g, r, {v}, {v.name}, g[v]);
  }
}
