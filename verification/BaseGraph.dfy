/** hack/extract-netbox-schema.py, first half: which class a bare base name means, and which
    classes are models at all. A class is keyed by its app and its name; neither holds a dot, so
    the pair is the `app.Name` string the source uses. Bases are bare names. */
module BaseGraph {
  import opened Options
  import opened Graphs

  datatype Key = Key(app: string, name: string)

  /** Each declared class with the names of its bases, left to right. */
  type Decls = map<Key, seq<string>>

  // ---- Resolution: own app first, else the one class of that name ---------------------------

  ghost predicate OnlyNamed(d: Decls, name: string, k: Key) {
    IsNamed(d, name, k) && forall j | IsNamed(d, name, j) :: j == k
  }

  ghost predicate IsNamed(d: Decls, name: string, k: Key) {
    k in d && k.name == name
  }

  ghost function Resolve(d: Decls, app: string, base: string): Option<Key> {
    if Key(app, base) in d then Some(Key(app, base))
    else if exists k :: OnlyNamed(d, base, k) then
      var k :| OnlyNamed(d, base, k);
      Some(k)
    else None
  }

  ghost function ResolveAll(d: Decls, app: string, bases: seq<string>): (ks: seq<Key>)
    ensures forall k | k in ks :: k in d
  {
    if bases == [] then []
    else
      var rest := ResolveAll(d, app, bases[1..]);
      var r := Resolve(d, app, bases[0]);
      if r.Some? then [r.value] + rest else rest
  }

  /** The base graph: an edge for every base that resolves. */
  ghost function Bases(d: Decls): (g: map<Key, seq<Key>>)
    ensures g.Keys == d.Keys && Total(g)
  {
    map k | k in d :: ResolveAll(d, k.app, d[k])
  }

  /** Every edge ends at a node of the graph. */
  ghost predicate Total(g: map<Key, seq<Key>>) {
    forall k, j {:trigger j in g[k]} | k in g && j in g[k] :: j in g
  }

  /** g is the base graph of d, said edge list by edge list. */
  ghost predicate IsBases(d: Decls, g: map<Key, seq<Key>>) {
    g.Keys == d.Keys && Total(g) && forall k {:trigger g[k]} | k in g :: g[k] == ResolveAll(d, k.app, d[k])
  }

  lemma {:induction false} ResolveAllMeans(d: Decls, app: string, bases: seq<string>, k: Key)
    ensures k in ResolveAll(d, app, bases) <==> exists i :: 0 <= i < |bases| && Resolve(d, app, bases[i]) == Some(k)
  {
    if bases != [] {
      ResolveAllMeans(d, app, bases[1..], k);
      assert forall i | 0 < i < |bases| :: bases[i] == bases[1..][i - 1];
      if k in ResolveAll(d, app, bases[1..]) {
        var i :| 0 <= i < |bases[1..]| && Resolve(d, app, bases[1..][i]) == Some(k);
        assert Resolve(d, app, bases[i + 1]) == Some(k);
      }
    }
  }

  // ---- The two lookup tables ----------------------------------------------------------------

  ghost predicate ListsNamed(d: Decls, m: map<string, seq<Key>>) {
    && (forall name, k :: name in m && k in m[name] <==> IsNamed(d, name, k))
    && (forall name | name in m :: |m[name]| > 0 && Simple(m[name]))
  }

  /** BY_NAME_ALL: every class of a name, used before the deletion. */
  method BuildByNameAll(d: Decls) returns (m: map<string, seq<Key>>)
    ensures ListsNamed(d, m)
  {
    m := map[];
    var todo := d.Keys;
    while todo != {}
      invariant todo <= d.Keys
      invariant forall name, k :: name in m && k in m[name] <==> IsNamed(d, name, k) && k !in todo
      invariant forall name | name in m :: |m[name]| > 0 && Simple(m[name])
    {
      var k :| k in todo;
      todo := todo - {k};
      var same := if k.name in m then m[k.name] else [];
      assert forall j | j in same + [k] :: j in same || j == k;
      assert k in same + [k];
      m := m[k.name := same + [k]];
    }
  }

  /** Lines 218-221: the class a base name means while every candidate is still present. */
  method LookupAll(d: Decls, byNameAll: map<string, seq<Key>>, app: string, base: string) returns (e: Option<Key>)
    requires ListsNamed(d, byNameAll)
    ensures e == Resolve(d, app, base)
  {
    if Key(app, base) in d {
      return Some(Key(app, base));
    }
    var same := if base in byNameAll then byNameAll[base] else [];
    if |same| == 1 {
      assert IsNamed(d, base, same[0]);
      assert forall j | IsNamed(d, base, j) :: j in byNameAll[base];
      assert OnlyNamed(d, base, same[0]);
      return Some(same[0]);
    }
    if |same| > 1 {
      assert same[0] in same && same[1] in same;
      assert IsNamed(d, base, same[0]) && IsNamed(d, base, same[1]);
    } else {
      assert base !in byNameAll;
    }
    return None;
  }

  /** What BY_NAME holds: a name once seen, and its class unless two apps declare it. */
  ghost predicate IsByName(d: Decls, m: map<string, Option<Key>>) {
    && (forall name :: name in m <==> exists k :: IsNamed(d, name, k))
    && (forall name | name in m ::
          m[name].None? <==> exists j, k :: IsNamed(d, name, j) && IsNamed(d, name, k) && j != k)
    && (forall name | name in m && m[name].Some? :: OnlyNamed(d, name, m[name].value))
  }

  /** BY_NAME, built over what the deletion leaves: a third class of a name leaves it at None. */
  method BuildByName(d: Decls) returns (m: map<string, Option<Key>>)
    ensures IsByName(d, m)
  {
    m := map[];
    var todo := d.Keys;
    while todo != {}
      invariant todo <= d.Keys
      invariant forall name :: name in m <==> exists k :: IsNamed(d, name, k) && k !in todo
      invariant forall name | name in m && m[name].Some? ::
        IsNamed(d, name, m[name].value) && m[name].value !in todo
        && forall j | IsNamed(d, name, j) && j !in todo :: j == m[name].value
      invariant forall name | name in m && m[name].None? ::
        exists j, k :: IsNamed(d, name, j) && IsNamed(d, name, k) && j != k
    {
      var k :| k in todo;
      todo := todo - {k};
      assert IsNamed(d, k.name, k);
      if k.name in m {
        m := m[k.name := None];
      } else {
        m := m[k.name := Some(k)];
      }
    }
  }

  /** Line 278: the same question after the deletion, asked of the other table. */
  function Lookup(d: Decls, byName: map<string, Option<Key>>, app: string, base: string): Option<Key> {
    if Key(app, base) in d then Some(Key(app, base))
    else if base in byName then byName[base]
    else None
  }

  /** A base left unresolved although some class carries its name: the one omission said out loud. */
  ghost predicate Ambiguous(d: Decls, app: string, base: string) {
    Resolve(d, app, base).None? && exists k :: IsNamed(d, base, k)
  }

  /** What the walk needs of BY_NAME: it resolves as the full list did, and knows what it gave up on. */
  ghost predicate Answers(d: Decls, byName: map<string, Option<Key>>) {
    forall app, base ::
      && Lookup(d, byName, app, base) == Resolve(d, app, base)
      && (Ambiguous(d, app, base) <==> Lookup(d, byName, app, base).None? && base in byName)
  }

  lemma ByNameAnswers(d: Decls, byName: map<string, Option<Key>>)
    requires IsByName(d, byName)
    ensures Answers(d, byName)
  {
    forall app, base
      ensures Lookup(d, byName, app, base) == Resolve(d, app, base)
    {
      LookupIsResolve(d, byName, app, base);
    }
  }

  lemma LookupIsResolve(d: Decls, byName: map<string, Option<Key>>, app: string, base: string)
    requires IsByName(d, byName)
    ensures Lookup(d, byName, app, base) == Resolve(d, app, base)
  {
    if Key(app, base) !in d && base in byName && byName[base].None? {
      var j, k :| IsNamed(d, base, j) && IsNamed(d, base, k) && j != k;
      assert forall o | OnlyNamed(d, base, o) :: o == j && o == k;
    } else if Key(app, base) !in d && base !in byName {
      assert forall o | OnlyNamed(d, base, o) :: IsNamed(d, base, o);
    }
  }

  /** A base goes unresolved with a warning exactly when two apps declare it and its own does not. */
  lemma AmbiguousMeans(d: Decls, app: string, base: string)
    ensures Ambiguous(d, app, base) <==>
      Key(app, base) !in d && exists j, k :: IsNamed(d, base, j) && IsNamed(d, base, k) && j != k
  {
    if Ambiguous(d, app, base) {
      var j :| IsNamed(d, base, j);
      assert !OnlyNamed(d, base, j);
    } else if Resolve(d, app, base).Some? && Key(app, base) !in d {
      assert OnlyNamed(d, base, Resolve(d, app, base).value);
    }
  }

  // ---- The growing fixed point of models ------------------------------------------------------

  method AnyBaseIn(d: Decls, byNameAll: map<string, seq<Key>>, k: Key, models: set<Key>) returns (found: bool)
    requires k in d
    requires ListsNamed(d, byNameAll)
    ensures found <==> exists j :: j in Bases(d)[k] && j in models
  {
    var i := 0;
    while i < |d[k]|
      invariant 0 <= i <= |d[k]|
      invariant forall n | 0 <= n < i :: var r := Resolve(d, k.app, d[k][n]); r.None? || r.value !in models
    {
      var e := LookupAll(d, byNameAll, k.app, d[k][i]);
      if e.Some? && e.value in models {
        ResolveAllMeans(d, k.app, d[k], e.value);
        return true;
      }
      i := i + 1;
    }
    forall j | j in Bases(d)[k] ensures j !in models {
      ResolveAllMeans(d, k.app, d[k], j);
    }
    return false;
  }

  ghost predicate IsModel(d: Decls, declaring: set<Key>, k: Key) {
    exists t :: t in declaring && Reaches(Bases(d), k, t)
  }

  /** The fixed point of lines 225-231. */
  method FindModels(d: Decls, declaring: set<Key>) returns (models: set<Key>)
    requires declaring <= d.Keys
    ensures forall k :: k in models <==> k in d && IsModel(d, declaring, k)
  {
    var byNameAll := BuildByNameAll(d);
    models := declaring;
    DeclaringAreModels(d, declaring);
    while true
      invariant declaring <= models <= d.Keys
      invariant AllModels(d, declaring, models)
      decreases d.Keys - models
    {
      var grown := GrowOnce(d, byNameAll, models);
      if grown == {} {
        break;
      }
      GrownAreModels(d, declaring, models, grown);
      models := models + grown;
    }
    NothingGrows(d, declaring, models);
  }

  ghost predicate AllModels(d: Decls, declaring: set<Key>, s: set<Key>) {
    forall k | k in s :: IsModel(d, declaring, k)
  }

  lemma DeclaringAreModels(d: Decls, declaring: set<Key>)
    ensures AllModels(d, declaring, declaring)
  {
    forall k | k in declaring ensures IsModel(d, declaring, k) {
      ReachesSelf(Bases(d), k);
    }
  }

  method GrowOnce(d: Decls, byNameAll: map<string, seq<Key>>, models: set<Key>) returns (grown: set<Key>)
    requires ListsNamed(d, byNameAll)
    ensures forall k :: k in grown <==> Grows(d, models, k)
  {
    grown := {};
    var todo := d.Keys - models;
    while todo != {}
      invariant todo <= d.Keys - models
      invariant forall k :: k in grown <==> k !in todo && Grows(d, models, k)
    {
      var k :| k in todo;
      todo := todo - {k};
      var found := AnyBaseIn(d, byNameAll, k, models);
      if found {
        grown := grown + {k};
      }
    }
  }

  ghost predicate Grows(d: Decls, models: set<Key>, k: Key) {
    k in d && k !in models && exists j :: j in Bases(d)[k] && j in models
  }

  lemma GrownAreModels(d: Decls, declaring: set<Key>, models: set<Key>, grown: set<Key>)
    requires AllModels(d, declaring, models) && forall k | k in grown :: Grows(d, models, k)
    ensures AllModels(d, declaring, models + grown)
  {
    forall k | k in grown ensures IsModel(d, declaring, k) {
      var j :| j in Bases(d)[k] && j in models;
      var t :| t in declaring && Reaches(Bases(d), j, t);
      StepThenReaches(Bases(d), k, j, t);
    }
  }

  lemma NothingGrows(d: Decls, declaring: set<Key>, models: set<Key>)
    requires declaring <= models <= d.Keys
    requires AllModels(d, declaring, models) && forall k :: !Grows(d, models, k)
    ensures forall k :: k in models <==> k in d && IsModel(d, declaring, k)
  {
    var rest := d.Keys - models;
    forall x, y | x in rest && y in Succ(Bases(d), x) ensures y in rest {
      assert !Grows(d, models, x);
    }
    forall k | k in d && IsModel(d, declaring, k) ensures k in models {
      if k in rest {
        ClosedContainsReachable(Bases(d), rest, k);
        assert false;
      }
    }
  }

  // ---- The deletion ---------------------------------------------------------------------------

  function Keep(d: Decls, models: set<Key>): Decls {
    map k | k in d && k in models :: d[k]
  }

  /** Deleting classes never redirects a base that resolved to a survivor. */
  lemma ResolutionExtends(d: Decls, models: set<Key>, app: string, base: string)
    requires Resolve(d, app, base).Some? && Resolve(d, app, base).value in models
    ensures Resolve(Keep(d, models), app, base) == Resolve(d, app, base)
  {
    var e := Resolve(d, app, base).value;
    if Key(app, base) !in d {
      assert OnlyNamed(d, base, e);
      var kept := Keep(d, models);
      assert IsNamed(kept, base, e);
      forall j | IsNamed(kept, base, j) ensures j == e {
        assert IsNamed(d, base, j);
      }
      assert OnlyNamed(kept, base, e);
    }
  }

  /** A survivor keeps its chain to a class that declares a column, through survivors only. */
  lemma {:induction false} ChainSurvives(d: Decls, declaring: set<Key>, models: set<Key>, p: seq<Key>)
    requires forall k :: k in models <==> k in d && IsModel(d, declaring, k)
    requires IsWalk(Bases(d), p) && p[0] in d && p[|p| - 1] in declaring && declaring <= d.Keys
    ensures IsWalk(Bases(Keep(d, models)), p) && forall k | k in p :: k in models
    decreases |p|
  {
    var g, h := Bases(d), Bases(Keep(d, models));
    assert IsWalkFromTo(g, p, p[0], p[|p| - 1]);
    assert p[0] in models;
    if |p| > 1 {
      var q := p[1..];
      assert p[1] in Succ(g, p[0]);
      forall i | 0 < i < |q| ensures q[i] in Succ(g, q[i - 1]) {
        assert p[i + 1] in Succ(g, p[i]);
      }
      ChainSurvives(d, declaring, models, q);
      ResolveAllMeans(d, p[0].app, d[p[0]], p[1]);
      var i :| 0 <= i < |d[p[0]]| && Resolve(d, p[0].app, d[p[0]][i]) == Some(p[1]);
      assert p[1] in q;
      ResolutionExtends(d, models, p[0].app, d[p[0]][i]);
      ResolveAllMeans(Keep(d, models), p[0].app, d[p[0]], p[1]);
      forall i | 0 < i < |p| ensures p[i] in Succ(h, p[i - 1]) {
        if i > 1 {
          assert p[i] == q[i - 1] && p[i - 1] == q[i - 2];
        }
      }
      assert p == [p[0]] + q;
    }
  }

  lemma SurvivorReachesColumn(d: Decls, declaring: set<Key>, models: set<Key>, k: Key) returns (t: Key)
    requires forall k :: k in models <==> k in d && IsModel(d, declaring, k)
    requires declaring <= d.Keys && k in models
    ensures t in declaring && t in models && Reaches(Bases(Keep(d, models)), k, t)
  {
    t :| t in declaring && Reaches(Bases(d), k, t);
    var p :| IsWalkFromTo(Bases(d), p, k, t);
    ChainSurvives(d, declaring, models, p);
    assert IsWalkFromTo(Bases(Keep(d, models)), p, k, t);
    assert p[|p| - 1] in p;
  }
}
