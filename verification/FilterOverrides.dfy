/** hack/build-netbox-ir.py:136-161: when a subclass's declared filter overwrites its base's, said on
    the base table. */
module FilterOverrides {
  import opened Options
  import opened Graphs
  import opened FilterLookups

  /** x strictly below y: it reaches y through its bases. */
  ghost predicate Subclasses(g: Classes, x: string, y: string) {
    x != y && Reaches(g, x, y)
  }

  /** No winner has a listed proper subclass that also declares the filter, whoever declares it. */
  ghost predicate SubclassesOverride(g: Classes, name: string) {
    forall declares: set<string>, x, y |
      x in Chain(g, name, {}) && x in declares && LastDeclaring(Chain(g, name, {}), declares) == Some(y) ::
      !Subclasses(g, x, y)
  }

  /** y is listed again after every listing of its subclass x. */
  ghost predicate ListedLater(chain: seq<string>, x: string, y: string) {
    exists i :: 0 <= i < |chain| && chain[i] == y && forall j | i < j < |chain| :: chain[j] != x
  }

  /** Read off the chain: a subclass overwrites its base exactly when no listed base comes back after
      the last listing of a class below it. */
  lemma OverrideIffBasesFirst(g: Classes, name: string)
    ensures SubclassesOverride(g, name) <==>
      forall x, y | x in Chain(g, name, {}) && Subclasses(g, x, y) :: !ListedLater(Chain(g, name, {}), x, y)
  {
    var chain := Chain(g, name, {});
    if forall x, y | x in chain && Subclasses(g, x, y) :: !ListedLater(chain, x, y) {
      forall declares: set<string>, x, y | x in chain && x in declares && LastDeclaring(chain, declares) == Some(y)
        ensures !Subclasses(g, x, y)
      {
        LastDeclaringMeans(chain, declares);
        var i :| 0 <= i < |chain| && chain[i] == y && forall j | i < j < |chain| :: chain[j] !in declares;
        assert forall j | i < j < |chain| :: chain[j] != x;
        assert ListedLater(chain, x, y);
      }
    }
    if SubclassesOverride(g, name) {
      forall x, y | x in chain && Subclasses(g, x, y) ensures !ListedLater(chain, x, y) {
        var both := {x, y};
        assert x in both;
        if ListedLater(chain, x, y) {
          BaseWins(chain, x, y);
          assert false;
        }
      }
    }
  }

  lemma BaseWins(chain: seq<string>, x: string, y: string)
    requires x != y && ListedLater(chain, x, y)
    ensures LastDeclaring(chain, {x, y}) == Some(y)
  {
    LastDeclaringMeans(chain, {x, y});
    var i :| 0 <= i < |chain| && chain[i] == y && forall j | i < j < |chain| :: chain[j] != x;
    var w := LastDeclaring(chain, {x, y}).value;
    var n :| 0 <= n < |chain| && chain[n] == w && forall j | n < j < |chain| :: chain[j] !in {x, y};
    assert i <= n;
  }

  // ---- Tables without cycles --------------------------------------------------------------------------

  /** No class reached from name comes back to itself through another one. A class that bears the bare
      name of its own base is its own base here; the search skips such a loop. */
  ghost predicate Acyclic(g: Classes, name: string) {
    forall c, b | Reaches(g, name, c) && b in Succ(g, c) && b != c :: !Reaches(g, b, c)
  }

  /** Around a cycle each class is below the other, so the one that is merged first loses to a base. */
  lemma CyclesNeverOverride(g: Classes, name: string)
    requires !Acyclic(g, name)
    ensures !SubclassesOverride(g, name)
  {
    var c, b :| Reaches(g, name, c) && b in Succ(g, c) && b != c && Reaches(g, b, c);
    FirstStep(g, b, c);
    ReachesThenStep(g, name, c, b);
    ReachesSelf(g, c);
    ReachesThenStep(g, c, c, b);
    ChainExact(g, name, c);
    ChainExact(g, name, b);
    var declares, chain := {b, c}, Chain(g, name, {});
    LastDeclaringMeans(chain, declares);
    assert b in declares && c in declares;
    hide Chain;
    var y := LastDeclaring(chain, declares).value;
    assert y == b || y == c;
    var x := if y == b then c else b;
    assert x in chain && x in declares && Subclasses(g, x, y);
  }

  /** The bases of a class, itself left out. */
  function Above(bases: seq<string>, c: string): seq<string> {
    if bases == [] then [] else (if bases[0] == c then [] else [bases[0]]) + Above(bases[1..], c)
  }

  lemma {:induction false} AboveMeans(bases: seq<string>, c: string)
    ensures forall b :: b in Above(bases, c) <==> b in bases && b != c
  {
    if bases != [] {
      AboveMeans(bases[1..], c);
      assert forall b :: b in bases <==> b == bases[0] || b in bases[1..];
    }
  }

  function BasesOf(g: Classes, c: string): (bases: seq<string>)
    requires c in g
    ensures forall b :: b in bases <==> b in g[c] && b != c
  {
    AboveMeans(g[c], c);
    Above(g[c], c)
  }

  lemma {:induction false} LoopsAreSkipped(g: Classes, bases: seq<string>, c: string, path: set<string>)
    requires c in path
    ensures ChainOfAll(g, bases, path) == ChainOfAll(g, Above(bases, c), path)
  {
    if bases != [] {
      LoopsAreSkipped(g, bases[1..], c, path);
      var rest := Above(bases[1..], c);
      if bases[0] == c {
        assert Above(bases, c) == rest && Chain(g, c, path) == [];
      } else {
        assert ([bases[0]] + rest)[1..] == rest;
      }
    }
  }

  // ---- Chains of such tables ----------------------------------------------------------------------------

  /** The classes of the table from name upwards: what the inductions below go along. */
  ghost function Up(g: Classes, name: string): set<string> {
    set c | c in g.Keys && Reaches(g, name, c)
  }

  lemma BaseIsAbove(g: Classes, name: string, b: string)
    requires Acyclic(g, name) && name in g && b in BasesOf(g, name)
    ensures Acyclic(g, b) && Up(g, b) < Up(g, name) && !Reaches(g, b, name)
  {
    ReachesSelf(g, name);
    forall c | Reaches(g, b, c) ensures Reaches(g, name, c) {
      StepThenReaches(g, name, b, c);
    }
    assert name in Up(g, name) && name !in Up(g, b);
  }

  lemma ReachesTransitively(g: Classes, a: string, b: string, c: string)
    requires Reaches(g, a, b) && Reaches(g, b, c)
    ensures Reaches(g, a, c)
  {
    var p :| IsWalkFromTo(g, p, a, b);
    var q :| IsWalkFromTo(g, q, b, c);
    var r := p + q[1..];
    forall i | 0 < i < |r| ensures r[i] in Succ(g, r[i - 1]) {
      if i >= |p| {
        assert r[i] == q[i - |p| + 1];
        assert r[i - 1] == q[i - |p|];
      }
    }
    assert IsWalkFromTo(g, r, a, c);
  }

  /** The chains of some bases, one after the other, each from a path of its own. */
  function Chains(g: Classes, bases: seq<string>): seq<string> {
    if bases == [] then [] else Chain(g, bases[0], {}) + Chains(g, bases[1..])
  }

  lemma {:induction false} ChainsAppend(g: Classes, a: seq<string>, b: seq<string>)
    ensures Chains(g, a + b) == Chains(g, a) + Chains(g, b)
  {
    if a == [] {
      assert a + b == b;
    } else {
      assert (a + b)[1..] == a[1..] + b;
      ChainsAppend(g, a[1..], b);
    }
  }

  lemma {:induction false} ChainsOfAllAre(g: Classes, bases: seq<string>, path: set<string>)
    requires forall b | b in bases :: Chain(g, b, path) == Chain(g, b, {})
    ensures ChainOfAll(g, bases, path) == Chains(g, bases)
  {
    if bases != [] {
      assert bases[0] in bases;
      ChainsOfAllAre(g, bases[1..], path);
    }
  }

  /** The way in does not matter: nothing on it can come back. */
  lemma {:induction false} PathDoesNotMatter(g: Classes, name: string, path: set<string>)
    requires Acyclic(g, name) && forall p | p in path :: !Reaches(g, name, p)
    ensures Chain(g, name, path) == Chain(g, name, {})
    decreases Up(g, name)
  {
    ReachesSelf(g, name);
    if name in g {
      forall b | b in BasesOf(g, name)
        ensures Chain(g, b, path + {name}) == Chain(g, b, {}) == Chain(g, b, {} + {name})
      {
        BaseIsAbove(g, name, b);
        forall p | p in path ensures !Reaches(g, b, p) {
          if Reaches(g, b, p) { StepThenReaches(g, name, b, p); }
        }
        PathDoesNotMatter(g, b, path + {name});
        PathDoesNotMatter(g, b, {} + {name});
      }
      LoopsAreSkipped(g, g[name], name, path + {name});
      LoopsAreSkipped(g, g[name], name, {} + {name});
      ChainsOfAllAre(g, BasesOf(g, name), path + {name});
      ChainsOfAllAre(g, BasesOf(g, name), {} + {name});
    }
  }

  lemma ChainUnfolds(g: Classes, name: string)
    requires Acyclic(g, name) && name in g
    ensures Chain(g, name, {}) == Chains(g, BasesOf(g, name)) + [name]
  {
    forall b | b in BasesOf(g, name) ensures Chain(g, b, {} + {name}) == Chain(g, b, {}) {
      BaseIsAbove(g, name, b);
      PathDoesNotMatter(g, b, {} + {name});
    }
    LoopsAreSkipped(g, g[name], name, {} + {name});
    ChainsOfAllAre(g, BasesOf(g, name), {} + {name});
  }

  // ---- Who comes last -------------------------------------------------------------------------------

  lemma LaterInBack(a: seq<string>, b: seq<string>, x: string, y: string)
    requires x in b
    ensures ListedLater(a + b, x, y) <==> ListedLater(b, x, y)
  {
    var chain := a + b;
    assert forall j | 0 <= j < |b| :: chain[|a| + j] == b[j];
    if ListedLater(chain, x, y) {
      var i :| 0 <= i < |chain| && chain[i] == y && forall j | i < j < |chain| :: chain[j] != x;
      var k :| 0 <= k < |b| && b[k] == x;
      assert chain[|a| + k] == x;
      assert b[i - |a|] == y;
    }
    if ListedLater(b, x, y) {
      var i :| 0 <= i < |b| && b[i] == y && forall j | i < j < |b| :: b[j] != x;
      assert chain[|a| + i] == y;
    }
  }

  lemma LaterInFront(a: seq<string>, b: seq<string>, x: string, y: string)
    requires x !in b
    ensures ListedLater(a + b, x, y) <==> y in b || ListedLater(a, x, y)
  {
    var chain := a + b;
    assert forall j | 0 <= j < |a| :: chain[j] == a[j];
    assert forall j | |a| <= j < |chain| :: chain[j] == b[j - |a|] && chain[j] in b;
    if ListedLater(chain, x, y) {
      var i :| 0 <= i < |chain| && chain[i] == y && forall j | i < j < |chain| :: chain[j] != x;
      assert i < |a| ==> a[i] == y && forall j | i < j < |a| :: a[j] != x;
    }
    if y in b {
      var i :| 0 <= i < |b| && b[i] == y;
      assert chain[|a| + i] == y;
    }
    if ListedLater(a, x, y) {
      var i :| 0 <= i < |a| && a[i] == y && forall j | i < j < |a| :: a[j] != x;
      assert chain[i] == y;
    }
  }

  lemma LaterInAppend(a: seq<string>, b: seq<string>, x: string, y: string)
    ensures ListedLater(a + b, x, y) <==> if x in b then ListedLater(b, x, y) else y in b || ListedLater(a, x, y)
  {
    hide ListedLater;
    if x in b {
      LaterInBack(a, b, x, y);
    } else {
      LaterInFront(a, b, x, y);
    }
  }

  /** The last base of c through which x is reached. */
  ghost predicate IsLastBase(g: Classes, bases: seq<string>, x: string, j: int) {
    0 <= j < |bases| && Reaches(g, bases[j], x) && forall m | j < m < |bases| :: !Reaches(g, bases[m], x)
  }

  /** A base after position j reaches y. */
  ghost predicate LaterBaseReaches(g: Classes, bases: seq<string>, j: int, y: string) {
    exists k :: 0 <= j < k < |bases| && Reaches(g, bases[k], y)
  }

  /** Among bases, y comes back after x exactly when a base later than the last one with x has y, or
      it comes back inside that base. */
  lemma {:induction false} LaterAmongBases(g: Classes, bases: seq<string>, x: string, y: string, j: int)
    requires x in g && y in g && IsLastBase(g, bases, x, j)
    ensures ListedLater(Chains(g, bases), x, y) <==>
      LaterBaseReaches(g, bases, j, y) || ListedLater(Chain(g, bases[j], {}), x, y)
    decreases |bases|
  {
    var front, last := bases[..|bases| - 1], bases[|bases| - 1];
    assert bases == front + [last];
    ChainsAppend(g, front, [last]);
    assert Chains(g, [last]) == Chain(g, last, {}) by {
      assert [last][1..] == [];
    }
    LaterInAppend(Chains(g, front), Chain(g, last, {}), x, y);
    ChainExact(g, last, x);
    ChainExact(g, last, y);
    if j < |front| {
      assert bases[|front|] == last;
      assert forall m | 0 <= m < |front| :: front[m] == bases[m];
      LaterAmongBases(g, front, x, y, j);
      assert LaterBaseReaches(g, bases, j, y) <==> LaterBaseReaches(g, front, j, y) || Reaches(g, last, y);
    }
  }

  /** The same in the chain of a class other than x. */
  lemma LaterInChain(g: Classes, c: string, x: string, y: string, j: int)
    requires Acyclic(g, c) && c in g && c != x && c != y && x in g && y in g && IsLastBase(g, BasesOf(g, c), x, j)
    ensures ListedLater(Chain(g, c, {}), x, y) <==>
      LaterBaseReaches(g, BasesOf(g, c), j, y) || ListedLater(Chain(g, BasesOf(g, c)[j], {}), x, y)
  {
    ChainUnfolds(g, c);
    LaterInAppend(Chains(g, BasesOf(g, c)), [c], x, y);
    LaterAmongBases(g, BasesOf(g, c), x, y, j);
  }

  lemma NotLaterThanItself(g: Classes, x: string, y: string)
    requires Acyclic(g, x) && x in g && x != y
    ensures !ListedLater(Chain(g, x, {}), x, y)
  {
    ChainUnfolds(g, x);
    LaterInAppend(Chains(g, BasesOf(g, x)), [x], x, y);
  }

  lemma {:induction false} LastBaseExists(g: Classes, bases: seq<string>, x: string) returns (j: nat)
    requires exists b :: b in bases && Reaches(g, b, x)
    ensures IsLastBase(g, bases, x, j)
  {
    j := |bases| - 1;
    if !Reaches(g, bases[j], x) {
      var front := bases[..j];
      assert bases == front + [bases[j]];
      j := LastBaseExists(g, front, x);
      forall m | j < m < |bases| ensures !Reaches(g, bases[m], x) {
        if m < |front| { assert front[m] == bases[m]; }
      }
    }
  }

  /** Follow, from c, the last base through which x is reached, until x: somewhere on the way a still
      later base reaches y. */
  ghost predicate Overtaken(g: Classes, c: string, x: string, y: string)
    requires Acyclic(g, c)
    decreases Up(g, c)
  {
    c != x && c in g && exists j :: IsLastBase(g, BasesOf(g, c), x, j) && OvertakenAt(g, c, x, y, j)
  }

  ghost predicate OvertakenAt(g: Classes, c: string, x: string, y: string, j: int)
    requires Acyclic(g, c) && c in g && 0 <= j < |BasesOf(g, c)|
    decreases Up(g, c), 0
  {
    BaseIsAbove(g, c, BasesOf(g, c)[j]);
    LaterBaseReaches(g, BasesOf(g, c), j, y) || Overtaken(g, BasesOf(g, c)[j], x, y)
  }

  lemma FirstStep(g: Classes, a: string, x: string)
    requires Reaches(g, a, x) && a != x
    ensures a in g && exists b :: b in BasesOf(g, a) && Reaches(g, b, x)
  {
    var w :| IsWalkFromTo(g, w, a, x);
    var p := SimpleWalkExists(g, w, a, x);
    var q := p[1..];
    assert p[1] in Succ(g, p[0]);
    forall i | 0 < i < |q| ensures q[i] in Succ(g, q[i - 1]) {
      assert p[i + 1] in Succ(g, p[i]);
    }
    assert IsWalkFromTo(g, q, p[1], x);
  }

  lemma {:induction false} ListedLaterIffOvertaken(g: Classes, c: string, x: string, y: string)
    requires Acyclic(g, c) && x in g && y in g && Reaches(g, c, x) && Subclasses(g, x, y)
    ensures ListedLater(Chain(g, c, {}), x, y) <==> Overtaken(g, c, x, y)
    decreases Up(g, c)
  {
    if c == x {
      NotLaterThanItself(g, x, y);
    } else {
      FirstStep(g, c, x);
      var j := LastBaseExists(g, BasesOf(g, c), x);
      BaseIsAbove(g, c, BasesOf(g, c)[j]);
      if c == y {
        ReachesTransitively(g, BasesOf(g, c)[j], x, y);
      }
      LaterInChain(g, c, x, y, j);
      ListedLaterIffOvertaken(g, BasesOf(g, c)[j], x, y);
      assert Overtaken(g, c, x, y) <==> OvertakenAt(g, c, x, y, j) by {
        assert forall i | IsLastBase(g, BasesOf(g, c), x, i) :: i == j;
      }
    }
  }

  ghost predicate NoneOvertaken(g: Classes, name: string)
    requires Acyclic(g, name)
  {
    forall x, y | x in g && y in g && Reaches(g, name, x) && Subclasses(g, x, y) :: !Overtaken(g, name, x, y)
  }

  /** What a filterset's declarations come to, decided on the base table: every subclass overrides
      exactly when there is no cycle and, on the way of last bases to the subclass, no later base
      brings back a class above it. */
  lemma OverrideIffNotOvertaken(g: Classes, name: string)
    ensures SubclassesOverride(g, name) <==> Acyclic(g, name) && NoneOvertaken(g, name)
  {
    if Acyclic(g, name) {
      AcyclicOverrideIff(g, name);
    } else {
      CyclesNeverOverride(g, name);
    }
  }

  lemma AcyclicOverrideIff(g: Classes, name: string)
    requires Acyclic(g, name)
    ensures SubclassesOverride(g, name) <==> NoneOvertaken(g, name)
  {
    OverrideIffBasesFirst(g, name);
    forall x, y | x in g && Subclasses(g, x, y)
      ensures x in Chain(g, name, {}) <==> Reaches(g, name, x)
      ensures y !in g ==> !ListedLater(Chain(g, name, {}), x, y)
      ensures y in g && Reaches(g, name, x) ==>
        (ListedLater(Chain(g, name, {}), x, y) <==> Overtaken(g, name, x, y))
    {
      ChainExact(g, name, x);
      ChainExact(g, name, y);
      if y in g && Reaches(g, name, x) {
        ListedLaterIffOvertaken(g, name, x, y);
      }
    }
    forall x | x in Chain(g, name, {}) ensures x in g {
      ChainExact(g, name, x);
    }
  }

  /** c lists its bases in an order that suits: none brings back a class above one that an earlier
      base was the last to bring. */
  ghost predicate BasesInOrder(g: Classes, c: string)
    requires c in g
  {
    forall x, y, j | x in g && y in g && Subclasses(g, x, y) && IsLastBase(g, BasesOf(g, c), x, j) ::
      !LaterBaseReaches(g, BasesOf(g, c), j, y)
  }

  lemma {:induction false} NeverOvertaken(g: Classes, c: string, x: string, y: string)
    requires Acyclic(g, c) && x in g && y in g && Subclasses(g, x, y)
    requires forall d | d in g && Reaches(g, c, d) :: BasesInOrder(g, d)
    ensures !Overtaken(g, c, x, y)
    decreases Up(g, c)
  {
    ReachesSelf(g, c);
    if Overtaken(g, c, x, y) {
      var j :| IsLastBase(g, BasesOf(g, c), x, j) && OvertakenAt(g, c, x, y, j);
      BaseIsAbove(g, c, BasesOf(g, c)[j]);
      forall d | d in g && Reaches(g, BasesOf(g, c)[j], d) ensures BasesInOrder(g, d) {
        StepThenReaches(g, c, BasesOf(g, c)[j], d);
      }
      NeverOvertaken(g, BasesOf(g, c)[j], x, y);
    }
  }

  /** Subclasses override in name and in every filterset it is made from, exactly when there is no
      cycle and all of these list their bases in such an order. */
  lemma EveryOverrideIffBasesInOrder(g: Classes, name: string)
    ensures (forall c | c in g && Reaches(g, name, c) :: SubclassesOverride(g, c)) <==>
      Acyclic(g, name) && forall c | c in g && Reaches(g, name, c) :: BasesInOrder(g, c)
  {
    if Acyclic(g, name) && forall c | c in g && Reaches(g, name, c) :: BasesInOrder(g, c) {
      forall c | c in g && Reaches(g, name, c) ensures SubclassesOverride(g, c) {
        AllInOrderOverride(g, name, c);
      }
    }
    if forall c | c in g && Reaches(g, name, c) :: SubclassesOverride(g, c) {
      AllOverridingIsAcyclic(g, name);
      forall c | c in g && Reaches(g, name, c) ensures BasesInOrder(g, c) {
        AcyclicAbove(g, name, c);
        OverridingIsInOrder(g, c);
      }
    }
  }

  lemma AllOverridingIsAcyclic(g: Classes, name: string)
    requires forall c | c in g && Reaches(g, name, c) :: SubclassesOverride(g, c)
    ensures Acyclic(g, name)
  {
    ReachesSelf(g, name);
    if name in g {
      OverrideIffNotOvertaken(g, name);
    } else {
      forall c | Reaches(g, name, c) ensures c == name {
        if c != name { FirstStep(g, name, c); }
      }
    }
  }

  lemma AcyclicAbove(g: Classes, name: string, c: string)
    requires Acyclic(g, name) && Reaches(g, name, c)
    ensures Acyclic(g, c)
  {
    forall d, b | Reaches(g, c, d) && b in Succ(g, d) && b != d ensures !Reaches(g, b, d) {
      ReachesTransitively(g, name, c, d);
    }
  }

  lemma AllInOrderOverride(g: Classes, name: string, c: string)
    requires Acyclic(g, name) && c in g && Reaches(g, name, c)
    requires forall d | d in g && Reaches(g, name, d) :: BasesInOrder(g, d)
    ensures SubclassesOverride(g, c)
  {
    AcyclicAbove(g, name, c);
    OverrideIffNotOvertaken(g, c);
    forall d | d in g && Reaches(g, c, d) ensures BasesInOrder(g, d) {
      ReachesTransitively(g, name, c, d);
    }
    forall x, y | x in g && y in g && Reaches(g, c, x) && Subclasses(g, x, y) ensures !Overtaken(g, c, x, y) {
      NeverOvertaken(g, c, x, y);
    }
  }

  lemma OverridingIsInOrder(g: Classes, c: string)
    requires Acyclic(g, c) && c in g && SubclassesOverride(g, c)
    ensures BasesInOrder(g, c)
  {
    OverrideIffNotOvertaken(g, c);
    forall x, y, j | x in g && y in g && Subclasses(g, x, y) && IsLastBase(g, BasesOf(g, c), x, j)
      ensures !LaterBaseReaches(g, BasesOf(g, c), j, y)
    {
      BaseIsAbove(g, c, BasesOf(g, c)[j]);
      StepThenReaches(g, c, BasesOf(g, c)[j], x);
      assert c != x;
      assert LaterBaseReaches(g, BasesOf(g, c), j, y) ==> OvertakenAt(g, c, x, y, j);
    }
  }

  // ---- One way to every base --------------------------------------------------------------------------

  /** The walk never steps from a class to itself. */
  ghost predicate Moves(p: seq<string>) {
    forall i | 0 < i < |p| :: p[i] != p[i - 1]
  }

  /** No class is reached from name along two different ways, loops aside. */
  ghost predicate OneWayUp(g: Classes, name: string) {
    forall p, q, c | IsWalkFromTo(g, p, name, c) && Moves(p) && IsWalkFromTo(g, q, name, c) && Moves(q) :: p == q
  }

  lemma MovingWalk(g: Classes, a: string, b: string) returns (p: seq<string>)
    requires Reaches(g, a, b)
    ensures IsWalkFromTo(g, p, a, b) && Moves(p)
  {
    var w :| IsWalkFromTo(g, w, a, b);
    p := SimpleWalkExists(g, w, a, b);
  }

  lemma OneWayIsAcyclic(g: Classes, name: string)
    requires OneWayUp(g, name)
    ensures Acyclic(g, name)
  {
    forall c, b | Reaches(g, name, c) && b in Succ(g, c) && b != c ensures !Reaches(g, b, c) {
      if Reaches(g, b, c) {
        var p := MovingWalk(g, name, c);
        var q := MovingWalk(g, b, c);
        JoinWalks(g, p, name, c, b, q, c);
      }
    }
  }

  lemma JoinWalks(g: Classes, p: seq<string>, a: string, c: string, b: string, q: seq<string>, d: string)
    requires IsWalkFromTo(g, p, a, c) && b in Succ(g, c) && b != c && IsWalkFromTo(g, q, b, d) && Moves(p) && Moves(q)
    ensures IsWalkFromTo(g, p + q, a, d) && Moves(p + q) && |p + q| > |p| && (p + q)[|p|] == b
  {
    var r := p + q;
    forall i | 0 < i < |r| ensures r[i] in Succ(g, r[i - 1]) && r[i] != r[i - 1] {
      if i > |p| {
        assert r[i] == q[i - |p|] && r[i - 1] == q[i - |p| - 1];
      } else if i < |p| {
        assert r[i] == p[i] && r[i - 1] == p[i - 1];
      }
    }
  }

  /** Without diamonds the docstring's promise is kept, whatever order bases are listed in. */
  lemma OneWayUpOverrides(g: Classes, name: string)
    requires OneWayUp(g, name)
    ensures Acyclic(g, name) && SubclassesOverride(g, name)
  {
    OneWayIsAcyclic(g, name);
    forall c | c in g && Reaches(g, name, c) ensures BasesInOrder(g, c) {
      OneWayIsInOrder(g, name, c);
    }
    ReachesSelf(g, name);
    if name in g {
      AllInOrderOverride(g, name, name);
    }
  }

  lemma OneWayIsInOrder(g: Classes, name: string, c: string)
    requires OneWayUp(g, name) && c in g && Reaches(g, name, c)
    ensures BasesInOrder(g, c)
  {
    forall x, y, j | x in g && y in g && Subclasses(g, x, y) && IsLastBase(g, BasesOf(g, c), x, j)
      ensures !LaterBaseReaches(g, BasesOf(g, c), j, y)
    {
      if LaterBaseReaches(g, BasesOf(g, c), j, y) {
        var k :| 0 <= j < k < |BasesOf(g, c)| && Reaches(g, BasesOf(g, c)[k], y);
        ReachesTransitively(g, BasesOf(g, c)[j], x, y);
        var p := MovingWalk(g, name, c);
        var q := MovingWalk(g, BasesOf(g, c)[j], y);
        var r := MovingWalk(g, BasesOf(g, c)[k], y);
        JoinWalks(g, p, name, c, BasesOf(g, c)[j], q, y);
        JoinWalks(g, p, name, c, BasesOf(g, c)[k], r, y);
      }
    }
  }

  // ---- The diamond ------------------------------------------------------------------------------------

  /** The diamond A(B, C), B(D), C(D): D's second listing overwrites what B declares. */
  lemma DiamondLosesOverride()
    ensures var g := map["A" := ["B", "C"], "B" := ["D"], "C" := ["D"], "D" := []];
            && Chain(g, "A", {}) == ["D", "B", "D", "C", "A"]
            && LastDeclaring(Chain(g, "A", {}), {"B", "D"}) == Some("D")
            && !SubclassesOverride(g, "A")
  {
    var g := map["A" := ["B", "C"], "B" := ["D"], "C" := ["D"], "D" := []];
    assert "A" != "B" && "A" != "C" && "A" != "D" && "B" != "C" && "B" != "D" && "C" != "D";
    Diamond(g, "A", "B", "C", "D");
  }

  lemma Diamond(g: Classes, a: string, b: string, c: string, d: string)
    requires a != b && a != c && a != d && b != c && b != d && c != d
    requires a in g && b in g && c in g && d in g && g[a] == [b, c] && g[b] == [d] && g[c] == [d] && g[d] == []
    ensures Chain(g, a, {}) == [d, b, d, c, a]
    ensures LastDeclaring(Chain(g, a, {}), {b, d}) == Some(d) && !SubclassesOverride(g, a)
  {
    OneBase(g, b, d, {a});
    OneBase(g, c, d, {a});
    assert [b, c][1..] == [c] && [c][1..] == [] && {} + {a} == {a};
    assert ChainOfAll(g, [c], {a}) == Chain(g, c, {a}) + [];
    assert ChainOfAll(g, [b, c], {a}) == Chain(g, b, {a}) + Chain(g, c, {a});
    var chain := Chain(g, a, {});
    assert chain == [d, b, d, c, a];
    ReachesSelf(g, b);
    ReachesThenStep(g, b, b, d);
    assert chain[2] == d && chain[1] == b;
    hide Chain;
    assert ListedLater(chain, b, d);
    BaseWins(chain, b, d);
    OverrideIffBasesFirst(g, a);
  }

  /** A class with one base that has none itself. */
  lemma OneBase(g: Classes, name: string, b: string, path: set<string>)
    requires name in g && b in g && g[name] == [b] && g[b] == [] && name != b && name !in path && b !in path
    ensures Chain(g, name, path) == [b, name]
  {
    assert [b][1..] == [];
    assert Chain(g, b, path + {name}) == [b];
    assert ChainOfAll(g, [b], path + {name}) == [b];
  }
}
