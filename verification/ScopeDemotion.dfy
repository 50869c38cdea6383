/** hack/classify-scope.py: shrinking a curated seed of kinds until no kind in it holds a
    required reference to a kind outside it. */
module ScopeDemotion {

  import opened Options

  type Kind = string

  /** What `norm` made of a foreign-key target: nothing usable, the model itself, or a kind. */
  datatype Target = Unknown | Itself | To(kind: Kind)

  datatype Field = Field(name: string, fieldType: string, target: Target, nullable: bool, hasDefault: bool)

  datatype Edge = Edge(field: string, target: Kind, required: bool)

  type Edges = map<Kind, seq<Edge>>

  const NEUTRAL: set<Kind> := {"core.DataSource", "core.DataFile", "core.ObjectType", "core.Job"}

  predicate IsRelation(f: Field) {
    && f.fieldType in {"ForeignKey", "OneToOneField", "ManyToManyField"}
    && !(|f.name| > 0 && f.name[0] == '_')
  }

  predicate Contributes(k: Kind, f: Field) {
    IsRelation(f) && f.target.To? && f.target.kind != k && f.target.kind !in NEUTRAL
  }

  predicate IsRequired(f: Field) {
    f.fieldType != "ManyToManyField" && !(f.nullable || f.hasDefault)
  }

  function EdgeOf(f: Field): Edge
    requires f.target.To?
  {
    Edge(f.name, f.target.kind, IsRequired(f))
  }

  /** The positions among the first n of the fields that contribute an edge, ascending, all of them. */
  ghost predicate Contributing(k: Kind, fields: seq<Field>, n: nat, at: seq<nat>)
    requires n <= |fields|
  {
    && (forall i :: i in at <==> 0 <= i < n && Contributes(k, fields[i]))
    && forall i, j | 0 <= i < j < |at| :: at[i] < at[j]
  }

  ghost predicate EdgesAt(fields: seq<Field>, at: seq<nat>, out: seq<Edge>) {
    |at| == |out| && forall i | 0 <= i < |out| ::
      at[i] < |fields| && fields[at[i]].target.To? && out[i] == EdgeOf(fields[at[i]])
  }

  /** The edge list built for one kind: an edge a contributing field, in field order. */
  method BuildEdges(k: Kind, fields: seq<Field>) returns (out: seq<Edge>)
    ensures exists at :: Contributing(k, fields, |fields|, at) && EdgesAt(fields, at, out)
    ensures forall e :: e in out <==>
      exists i :: 0 <= i < |fields| && Contributes(k, fields[i]) && e == EdgeOf(fields[i])
  {
    hide Contributes, EdgeOf;
    out := [];
    ghost var at: seq<nat> := [];
    for n := 0 to |fields|
      invariant Contributing(k, fields, n, at) && EdgesAt(fields, at, out)
    {
      if Contributes(k, fields[n]) {
        HasTarget(k, fields[n]);
        out := out + [EdgeOf(fields[n])];
        at := at + [n];
      }
    }
    EdgesMean(k, fields, at, out);
  }

  lemma HasTarget(k: Kind, f: Field)
    requires Contributes(k, f)
    ensures f.target.To?
  {
  }

  lemma EdgesMean(k: Kind, fields: seq<Field>, at: seq<nat>, out: seq<Edge>)
    requires Contributing(k, fields, |fields|, at) && EdgesAt(fields, at, out)
    ensures forall e :: e in out <==>
      exists i :: 0 <= i < |fields| && Contributes(k, fields[i]) && e == EdgeOf(fields[i])
  {
    hide EdgeOf;
    forall e | e in out ensures exists i :: 0 <= i < |fields| && Contributes(k, fields[i]) && e == EdgeOf(fields[i]) {
      var m :| 0 <= m < |out| && out[m] == e;
      assert at[m] in at;
    }
    forall i | 0 <= i < |fields| && Contributes(k, fields[i]) ensures EdgeOf(fields[i]) in out {
      var m :| 0 <= m < |at| && at[m] == i;
      assert out[m] == EdgeOf(fields[i]);
    }
  }

  // ---- What the loop is for -------------------------------------------------------------

  ghost predicate Requires(edges: Edges, k: Kind, t: Kind) {
    k in edges && exists e :: e in edges[k] && e.required && e.target == t
  }

  ghost predicate ClosedUnderRequired(edges: Edges, s: set<Kind>) {
    forall k, t | k in s && Requires(edges, k, t) :: t in s
  }

  /** A chain of required references from k whose last kind is the only one outside the seed.
      Its length is the number of references, |p| - 1. */
  ghost predicate EscapeChain(edges: Edges, seed: set<Kind>, k: Kind, p: seq<Kind>) {
    && |p| >= 2 && p[0] == k
    && (forall i | 0 < i < |p| :: Requires(edges, p[i - 1], p[i]))
    && (forall i | 0 <= i < |p| - 1 :: p[i] in seed)
    && p[|p| - 1] !in seed
  }

  ghost predicate EscapesIn(edges: Edges, seed: set<Kind>, k: Kind, n: nat) {
    exists p :: EscapeChain(edges, seed, k, p) && |p| == n + 1
  }

  ghost predicate ShortestEscape(edges: Edges, seed: set<Kind>, k: Kind, n: nat) {
    EscapesIn(edges, seed, k, n) && forall m: nat | m < n :: !EscapesIn(edges, seed, k, m)
  }

  // ---- The loop ---------------------------------------------------------------------------

  predicate Leaves(e: Edge, s: set<Kind>) {
    e.required && e.target !in s
  }

  /** The first edge of es that is required and leaves s: the one the report names. */
  function FirstLeaving(es: seq<Edge>, s: set<Kind>): (r: Option<Edge>) {
    if es == [] then None
    else if Leaves(es[0], s) then Some(es[0])
    else FirstLeaving(es[1..], s)
  }

  lemma {:induction false} FirstLeavingMeans(es: seq<Edge>, s: set<Kind>)
    ensures FirstLeaving(es, s).None? <==> forall e | e in es && e.required :: e.target in s
    ensures FirstLeaving(es, s).Some? ==>
      exists i :: 0 <= i < |es| && es[i] == FirstLeaving(es, s).value && Leaves(es[i], s)
                  && forall j | 0 <= j < i :: !Leaves(es[j], s)
  {
    if es != [] && !Leaves(es[0], s) {
      FirstLeavingMeans(es[1..], s);
      assert es == [es[0]] + es[1..];
      if FirstLeaving(es[1..], s).Some? {
        var i :| 0 <= i < |es[1..]| && es[1..][i] == FirstLeaving(es, s).value && Leaves(es[1..][i], s)
                 && forall j | 0 <= j < i :: !Leaves(es[1..][j], s);
        assert es[i + 1] == FirstLeaving(es, s).value;
        assert forall j | 0 <= j < i + 1 :: !Leaves(es[j], s) by {
          forall j | 0 <= j < i + 1 ensures !Leaves(es[j], s) {
            if j > 0 { assert es[j] == es[1..][j - 1]; }
          }
        }
      }
    }
  }

  /** One round: every kind of s with a required edge out of s, and the edge it is reported with. */
  ghost function Drops(edges: Edges, s: set<Kind>): map<Kind, Edge> {
    map k | k in s && k in edges && FirstLeaving(edges[k], s).Some? :: FirstLeaving(edges[k], s).value
  }

  /** The survivors of r rounds, each demoting all its kinds at once. */
  ghost function After(edges: Edges, seed: set<Kind>, r: nat): set<Kind> {
    if r == 0 then seed
    else After(edges, seed, r - 1) - Drops(edges, After(edges, seed, r - 1)).Keys
  }

  /** The printed report: one table of demotions a round. */
  ghost function Report(edges: Edges, seed: set<Kind>, rounds: nat): (log: seq<map<Kind, Edge>>)
    ensures |log| == rounds
  {
    if rounds == 0 then []
    else Report(edges, seed, rounds - 1) + [Drops(edges, After(edges, seed, rounds - 1))]
  }

  lemma {:induction false} ReportedRound(edges: Edges, seed: set<Kind>, rounds: nat, r: nat)
    requires r < rounds
    ensures Report(edges, seed, rounds)[r] == Drops(edges, After(edges, seed, r))
  {
    if r < rounds - 1 {
      ReportedRound(edges, seed, rounds - 1, r);
    }
  }

  /** The scan that fills `drop`. The source visits s in sorted order; here the order is arbitrary. */
  method FindDrops(edges: Edges, s: set<Kind>) returns (drop: map<Kind, Edge>)
    requires s <= edges.Keys
    ensures drop == Drops(edges, s)
  {
    drop := map[];
    var todo := s;
    while todo != {}
      invariant todo <= s
      invariant drop == Drops(edges, s) - todo
    {
      var k :| k in todo;
      todo := todo - {k};
      var i := 0;
      while i < |edges[k]| && !Leaves(edges[k][i], s)
        invariant 0 <= i <= |edges[k]|
        invariant FirstLeaving(edges[k], s) == FirstLeaving(edges[k][i..], s)
      {
        i := i + 1;
      }
      if i < |edges[k]| {
        drop := drop[k := edges[k][i]];
      }
    }
  }

  /** The loop over one round's report, discarding each kind from the set. */
  method Discard(s0: set<Kind>, drop: map<Kind, Edge>) returns (s: set<Kind>)
    ensures s == s0 - drop.Keys
  {
    s := s0;
    var left := drop.Keys;
    while left != {}
      invariant s == s0 - (drop.Keys - left) && left <= drop.Keys
    {
      var k :| k in left;
      left := left - {k};
      s := s - {k};
    }
  }

  /** The whole demotion loop. `log` is the printed report: one table of demotions a round. */
  method Demote(edges: Edges, seed: set<Kind>) returns (s: set<Kind>, rounds: nat, log: seq<map<Kind, Edge>>)
    requires seed <= edges.Keys
    ensures s <= seed && ClosedUnderRequired(edges, s)
    ensures forall t: set<Kind> | t <= seed && ClosedUnderRequired(edges, t) :: t <= s
    ensures forall k :: k in s <==> k in seed && forall n: nat :: !EscapesIn(edges, seed, k, n)
    ensures rounds == |log| && rounds + |s| <= |seed|
    ensures log == Report(edges, seed, rounds)
    ensures forall r: nat | r < rounds :: !ClosedUnderRequired(edges, After(edges, seed, r))
    ensures forall r: nat, k | r < rounds ::
      k in log[r] <==> k in seed && ShortestEscape(edges, seed, k, r + 1)
  {
    s, rounds, log := seed, 0, [];
    while true
      invariant s == After(edges, seed, rounds) && s <= seed
      invariant rounds == |log| && rounds + |s| <= |seed|
      invariant log == Report(edges, seed, rounds)
      invariant rounds > 0 ==> Drops(edges, After(edges, seed, rounds - 1)) != map[]
      decreases |s|
    {
      var drop := FindDrops(edges, s);
      if drop == map[] {
        break;
      }
      ghost var before := s;
      s := Discard(s, drop);
      SomethingDropped(edges, before, s);
      rounds, log := rounds + 1, log + [drop];
    }
    NothingDropped(edges, s);
    FinalSet(edges, seed, rounds);
    RoundsAreMinimal(edges, seed, rounds);
    forall r: nat, k | r < rounds
      ensures k in log[r] <==> k in seed && ShortestEscape(edges, seed, k, r + 1)
    {
      ReportedRound(edges, seed, rounds, r);
      RoundIsShortestEscape(edges, seed, k, r);
    }
  }

  lemma NextAfterQuietRound(edges: Edges, seed: set<Kind>, r: nat)
    requires Drops(edges, After(edges, seed, r)) == map[]
    ensures After(edges, seed, r + 1) == After(edges, seed, r)
  {
    assert Drops(edges, After(edges, seed, r)).Keys == {};
  }

  lemma {:induction false} RoundsAreMinimal(edges: Edges, seed: set<Kind>, rounds: nat)
    requires rounds > 0 ==> Drops(edges, After(edges, seed, rounds - 1)) != map[]
    ensures forall r: nat | r < rounds :: !ClosedUnderRequired(edges, After(edges, seed, r))
  {
    if rounds > 0 {
      NothingDropped(edges, After(edges, seed, rounds - 1));
      if rounds > 1 && Drops(edges, After(edges, seed, rounds - 2)) == map[] {
        NextAfterQuietRound(edges, seed, rounds - 2);
      }
      RoundsAreMinimal(edges, seed, rounds - 1);
    }
  }

  lemma SomethingDropped(edges: Edges, s: set<Kind>, t: set<Kind>)
    requires Drops(edges, s) != map[] && t == s - Drops(edges, s).Keys
    ensures |t| < |s|
  {
    assert Drops(edges, s).Keys != {};
    var k :| k in Drops(edges, s).Keys;
    assert k in s && k !in t;
    SmallerSubset(t, s);
  }

  lemma NothingDropped(edges: Edges, s: set<Kind>)
    ensures Drops(edges, s) == map[] <==> ClosedUnderRequired(edges, s)
  {
    forall k | k in s && k in edges
      ensures k in Drops(edges, s) <==> exists t :: Requires(edges, k, t) && t !in s
    {
      DroppedMeans(edges, s, k);
    }
    if Drops(edges, s) != map[] {
      assert Drops(edges, s).Keys != {};
      var k :| k in Drops(edges, s).Keys;
    }
  }

  lemma DroppedMeans(edges: Edges, s: set<Kind>, k: Kind)
    ensures k in Drops(edges, s) <==> k in s && exists t :: Requires(edges, k, t) && t !in s
  {
    if k in edges {
      FirstLeavingMeans(edges[k], s);
    }
  }

  lemma FinalSet(edges: Edges, seed: set<Kind>, r: nat)
    requires ClosedUnderRequired(edges, After(edges, seed, r))
    ensures forall t: set<Kind> | t <= seed && ClosedUnderRequired(edges, t) :: t <= After(edges, seed, r)
    ensures forall k :: k in After(edges, seed, r) <==> k in seed && forall n: nat :: !EscapesIn(edges, seed, k, n)
  {
    forall t: set<Kind> | t <= seed && ClosedUnderRequired(edges, t) ensures t <= After(edges, seed, r) {
      ClosedSurvives(edges, seed, t, r);
    }
    forall k
      ensures k in After(edges, seed, r) <==> k in seed && forall n: nat :: !EscapesIn(edges, seed, k, n)
    {
      SurvivorsNeverEscape(edges, seed, r, k);
    }
  }

  lemma SmallerSubset(a: set<Kind>, b: set<Kind>)
    requires a < b
    ensures |a| < |b|
  {
    var x :| x in b && x !in a;
    assert |b - {x}| == |b| - 1;
    SubsetSize(a, b - {x});
  }

  lemma SubsetSize(a: set<Kind>, b: set<Kind>)
    requires a <= b
    ensures |a| <= |b|
  {
    assert b == a + (b - a);
  }

  /** A kind survives r rounds exactly when no required chain of length at most r leads out. */
  lemma {:induction false} SurvivesUnlessEscape(edges: Edges, seed: set<Kind>, k: Kind, r: nat)
    ensures k in After(edges, seed, r) <==> k in seed && forall n: nat | n <= r :: !EscapesIn(edges, seed, k, n)
    decreases r
  {
    if r > 0 {
      var s := After(edges, seed, r - 1);
      SurvivesUnlessEscape(edges, seed, k, r - 1);
      DroppedMeans(edges, s, k);
      if k in s && k !in After(edges, seed, r) {
        var t :| Requires(edges, k, t) && t !in s;
        SurvivesUnlessEscape(edges, seed, t, r - 1);
        if t !in seed {
          assert EscapeChain(edges, seed, k, [k, t]);
          assert EscapesIn(edges, seed, k, 1);
        } else {
          var n: nat :| n <= r - 1 && EscapesIn(edges, seed, t, n);
          ExtendEscape(edges, seed, k, t, n);
        }
      }
      if k in After(edges, seed, r) {
        forall n: nat | n <= r ensures !EscapesIn(edges, seed, k, n) {
          if EscapesIn(edges, seed, k, n) {
            var t := FirstHop(edges, seed, k, n);
            SurvivesUnlessEscape(edges, seed, t, r - 1);
            assert false;
          }
        }
      }
    } else {
      forall n: nat | n <= 0 ensures !EscapesIn(edges, seed, k, n) {
        assert forall p | EscapeChain(edges, seed, k, p) :: |p| > n + 1;
      }
    }
  }

  lemma FirstHop(edges: Edges, seed: set<Kind>, k: Kind, n: nat) returns (t: Kind)
    requires EscapesIn(edges, seed, k, n)
    ensures n > 0 && Requires(edges, k, t)
    ensures if n == 1 then t !in seed else EscapesIn(edges, seed, t, n - 1)
  {
    var p :| EscapeChain(edges, seed, k, p) && |p| == n + 1;
    t := p[1];
    if n > 1 {
      assert EscapeChain(edges, seed, t, p[1..]);
    }
  }

  lemma ExtendEscape(edges: Edges, seed: set<Kind>, k: Kind, t: Kind, n: nat)
    requires k in seed && Requires(edges, k, t) && EscapesIn(edges, seed, t, n)
    ensures EscapesIn(edges, seed, k, n + 1)
  {
    var p :| EscapeChain(edges, seed, t, p) && |p| == n + 1;
    var q := [k] + p;
    assert forall i | 0 <= i < |p| :: q[i + 1] == p[i];
    assert EscapeChain(edges, seed, k, q) && |q| == n + 2;
  }

  /** The round number means something of its own: the length of the shortest way out. */
  lemma RoundIsShortestEscape(edges: Edges, seed: set<Kind>, k: Kind, r: nat)
    ensures k in After(edges, seed, r) && k !in After(edges, seed, r + 1)
       <==> k in seed && ShortestEscape(edges, seed, k, r + 1)
  {
    SurvivesUnlessEscape(edges, seed, k, r);
    SurvivesUnlessEscape(edges, seed, k, r + 1);
  }

  /** Every closed subset of the seed survives every round. */
  lemma {:induction false} ClosedSurvives(edges: Edges, seed: set<Kind>, t: set<Kind>, r: nat)
    requires t <= seed && ClosedUnderRequired(edges, t)
    ensures t <= After(edges, seed, r)
  {
    if r > 0 {
      var s := After(edges, seed, r - 1);
      ClosedSurvives(edges, seed, t, r - 1);
      forall k | k in t ensures k !in Drops(edges, s) {
        DroppedMeans(edges, s, k);
      }
    }
  }

  lemma {:induction false} AfterShrinks(edges: Edges, seed: set<Kind>, r: nat)
    ensures After(edges, seed, r) <= seed
  {
    if r > 0 {
      AfterShrinks(edges, seed, r - 1);
    }
  }

  lemma {:induction false} ClosedNeverEscapes(edges: Edges, s: set<Kind>, p: seq<Kind>, n: nat)
    requires ClosedUnderRequired(edges, s) && n < |p| && p[0] in s
    requires forall i | 0 < i < |p| :: Requires(edges, p[i - 1], p[i])
    ensures p[n] in s
  {
    if n > 0 {
      ClosedNeverEscapes(edges, s, p, n - 1);
    }
  }

  lemma SurvivorsNeverEscape(edges: Edges, seed: set<Kind>, r: nat, k: Kind)
    requires ClosedUnderRequired(edges, After(edges, seed, r))
    ensures k in After(edges, seed, r) <==> k in seed && forall n: nat :: !EscapesIn(edges, seed, k, n)
  {
    var s := After(edges, seed, r);
    SurvivesUnlessEscape(edges, seed, k, r);
    if k in s {
      forall n: nat ensures !EscapesIn(edges, seed, k, n) {
        if EscapesIn(edges, seed, k, n) {
          var p :| EscapeChain(edges, seed, k, p) && |p| == n + 1;
          ClosedNeverEscapes(edges, s, p, n);
          AfterShrinks(edges, seed, r);
          assert false;
        }
      }
    }
  }

  // ---- Said on the columns ------------------------------------------------------------------------

  /** Kind k has a foreign key or one-to-one column to t, another kind that counts, which must hold a
      value: it is not nullable and has no default. A column name with a leading underscore is a
      cached copy. */
  ghost predicate MustPointTo(schema: map<Kind, seq<Field>>, k: Kind, t: Kind) {
    k in schema && exists f ::
      && f in schema[k] && f.target == To(t) && f.fieldType in {"ForeignKey", "OneToOneField"}
      && !f.nullable && !f.hasDefault && (f.name == "" || f.name[0] != '_')
      && t != k && t !in {"core.DataSource", "core.DataFile", "core.ObjectType", "core.Job"}
  }

  /** Each edge list is what BuildEdges makes of the kind's columns. */
  ghost predicate BuiltFrom(edges: Edges, schema: map<Kind, seq<Field>>) {
    edges.Keys == schema.Keys && forall k | k in edges ::
      exists at :: Contributing(k, schema[k], |schema[k]|, at) && EdgesAt(schema[k], at, edges[k])
  }

  lemma RequiresIffMustPointTo(edges: Edges, schema: map<Kind, seq<Field>>, k: Kind, t: Kind)
    requires BuiltFrom(edges, schema)
    ensures Requires(edges, k, t) <==> MustPointTo(schema, k, t)
  {
    if k in edges {
      var at :| Contributing(k, schema[k], |schema[k]|, at) && EdgesAt(schema[k], at, edges[k]);
      hide Contributing, EdgesAt, MustPointTo;
      if e :| e in edges[k] && e.required && e.target == t {
        EdgeIsAColumn(schema, k, at, edges[k], e);
      }
      if MustPointTo(schema, k, t) {
        ColumnIsAnEdge(schema, k, t, at, edges[k]);
      }
    }
  }

  lemma EdgeIsAColumn(schema: map<Kind, seq<Field>>, k: Kind, at: seq<nat>, es: seq<Edge>, e: Edge)
    requires k in schema && Contributing(k, schema[k], |schema[k]|, at) && EdgesAt(schema[k], at, es)
    requires e in es && e.required
    ensures MustPointTo(schema, k, e.target)
  {
    var n :| 0 <= n < |es| && es[n] == e;
    assert at[n] in at;
    var f := schema[k][at[n]];
    assert f in schema[k] && Contributes(k, f) && e == EdgeOf(f);
  }

  lemma ColumnIsAnEdge(schema: map<Kind, seq<Field>>, k: Kind, t: Kind, at: seq<nat>, es: seq<Edge>)
    requires k in schema && Contributing(k, schema[k], |schema[k]|, at) && EdgesAt(schema[k], at, es)
    requires MustPointTo(schema, k, t)
    ensures exists e :: e in es && e.required && e.target == t
  {
    var f :| && f in schema[k] && f.target == To(t) && f.fieldType in {"ForeignKey", "OneToOneField"}
             && !f.nullable && !f.hasDefault && (f.name == "" || f.name[0] != '_')
             && t != k && t !in {"core.DataSource", "core.DataFile", "core.ObjectType", "core.Job"};
    var i :| 0 <= i < |schema[k]| && schema[k][i] == f;
    assert Contributes(k, f) && IsRequired(f);
    hide Contributes, IsRequired;
    assert i in at;
    var n :| 0 <= n < |at| && at[n] == i;
    assert es[n] == EdgeOf(f);
  }

  /** In any round a kind is demoted exactly when such a column of it points out of what is left: no
      nullable, defaulted or many-to-many column ever demotes, every other one does. */
  lemma DemotedIffColumnLeaves(edges: Edges, schema: map<Kind, seq<Field>>, s: set<Kind>, k: Kind)
    requires BuiltFrom(edges, schema)
    ensures k in Drops(edges, s) <==> k in s && exists t :: t !in s && MustPointTo(schema, k, t)
  {
    forall t ensures Requires(edges, k, t) <==> MustPointTo(schema, k, t) {
      RequiresIffMustPointTo(edges, schema, k, t);
    }
    hide MustPointTo;
    DroppedMeans(edges, s, k);
  }

  /** What is left in the end is the greatest part of the seed from which no such column points out. */
  lemma StableOnColumns(edges: Edges, schema: map<Kind, seq<Field>>, s: set<Kind>)
    requires BuiltFrom(edges, schema)
    ensures ClosedUnderRequired(edges, s) <==> forall k, t | k in s && MustPointTo(schema, k, t) :: t in s
  {
    forall k, t ensures Requires(edges, k, t) <==> MustPointTo(schema, k, t) {
      RequiresIffMustPointTo(edges, schema, k, t);
    }
    hide MustPointTo, Requires;
  }

  /** A column and the edge it makes. */
  predicate MakesEdge(k: Kind, f: Field, e: Edge) {
    && f.name == e.field && f.target == To(e.target)
    && f.fieldType in {"ForeignKey", "OneToOneField", "ManyToManyField"} && (f.name == "" || f.name[0] != '_')
    && e.target != k && e.target !in {"core.DataSource", "core.DataFile", "core.ObjectType", "core.Job"}
    && (e.required <==> f.fieldType != "ManyToManyField" && !f.nullable && !f.hasDefault)
  }

  lemma MakesEdgeIff(k: Kind, f: Field, e: Edge)
    ensures MakesEdge(k, f, e) <==> Contributes(k, f) && e == EdgeOf(f)
  {
  }

  /** The edges of a kind, required or not, said on its columns. */
  lemma EdgesAreColumns(edges: Edges, schema: map<Kind, seq<Field>>, k: Kind, e: Edge)
    requires BuiltFrom(edges, schema) && k in edges
    ensures e in edges[k] <==> exists f :: f in schema[k] && MakesEdge(k, f, e)
  {
    var at :| Contributing(k, schema[k], |schema[k]|, at) && EdgesAt(schema[k], at, edges[k]);
    hide MakesEdge, Contributes, EdgeOf;
    if e in edges[k] {
      var n :| 0 <= n < |edges[k]| && edges[k][n] == e;
      assert at[n] in at;
      MakesEdgeIff(k, schema[k][at[n]], e);
    }
    if f :| f in schema[k] && MakesEdge(k, f, e) {
      var i :| 0 <= i < |schema[k]| && schema[k][i] == f;
      MakesEdgeIff(k, f, e);
      assert i in at;
      var n :| 0 <= n < |at| && at[n] == i;
      assert edges[k][n] == e;
    }
  }
}
