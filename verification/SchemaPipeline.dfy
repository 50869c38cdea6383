/** hack/extract-netbox-schema.py from the parsed classes to the printed schema: which classes are
    models, the deletion of the rest, the qualification of relation targets, the column merge and
    the `self` pass, in the source's order. */
module SchemaPipeline {
  import opened Options
  import opened BaseGraph
  import opened BaseWalk
  import opened ColumnMerge

  // ---- Relation targets -------------------------------------------------------------------------

  /** A bare target means what a base of that name would mean to the declaring class's app. */
  ghost function Qualified(d: Decls, app: string, c: Column): Column {
    if !c.target.Bare? then c
    else if Resolve(d, app, c.target.name).Some? then c.(target := Model(Resolve(d, app, c.target.name).value))
    else c.(target := Unresolved(c.target.name))
  }

  ghost predicate AreQualified(d: Decls, app: string, before: seq<Column>, after: seq<Column>) {
    |after| == |before| && forall i | 0 <= i < |before| :: after[i] == Qualified(d, app, before[i])
  }

  /** Lines 263-268 for one entry: its field list, rewritten in place. */
  method QualifyFields(d: Decls, byName: map<string, Option<Key>>, app: string, before: seq<Column>)
    returns (fields: seq<Column>)
    requires Answers(d, byName)
    ensures AreQualified(d, app, before, fields)
  {
    fields := before;
    for i := 0 to |fields|
      invariant |fields| == |before|
      invariant forall j | 0 <= j < |fields| :: fields[j] == if j < i then Qualified(d, app, before[j]) else before[j]
    {
      if fields[i].target.Bare? {
        var e := Lookup(d, byName, app, fields[i].target.name);
        var target := if e.Some? then Model(e.value) else Unresolved(fields[i].target.name);
        fields := fields[i := fields[i].(target := target)];
      }
    }
  }

  method QualifyAll(d: Decls, byName: map<string, Option<Key>>, out: Catalogue)
    requires Answers(d, byName) && out.entries.Keys == d.Keys
    modifies out
    ensures out.entries.Keys == d.Keys
    ensures forall k | k in d ::
      AreQualified(d, k.app, old(out.entries)[k].fields, out.entries[k].fields)
      && out.entries[k].shadowed == old(out.entries)[k].shadowed
  {
    hide Answers, AreQualified;
    var todo := out.entries.Keys;
    while todo != {}
      invariant todo <= d.Keys && out.entries.Keys == d.Keys
      invariant forall k {:trigger out.entries[k]} | k in d :: out.entries[k].shadowed == old(out.entries)[k].shadowed
      invariant forall k {:trigger out.entries[k]} | k in todo :: out.entries[k] == old(out.entries)[k]
      invariant forall k {:trigger out.entries[k]} | k in d && k !in todo ::
        AreQualified(d, k.app, old(out.entries)[k].fields, out.entries[k].fields)
    {
      var k :| k in todo;
      todo := todo - {k};
      var fields := QualifyFields(d, byName, k.app, out.entries[k].fields);
      out.entries := out.entries[k := out.entries[k].(fields := fields)];
    }
  }

  // ---- The `self` pass --------------------------------------------------------------------------

  /** `self` becomes the model k the column ends up on, which for an inherited column is not its
      declarer; nothing else about a column changes. */
  ghost predicate SelfResolved(k: Key, before: seq<Column>, after: seq<Column>) {
    |after| == |before| && forall i | 0 <= i < |before| ::
      && after[i].name == before[i].name && after[i].attributes == before[i].attributes
      && after[i].declaredBy == before[i].declaredBy
      && after[i].target == if before[i].target.SelfTarget? then Model(k) else before[i].target
  }

  method ResolveSelf(out: Catalogue)
    modifies out
    ensures out.entries.Keys == old(out.entries).Keys
    ensures forall k | k in out.entries ::
      SelfResolved(k, old(out.entries)[k].fields, out.entries[k].fields)
      && out.entries[k].shadowed == old(out.entries)[k].shadowed
  {
    hide SelfResolved;
    var todo := out.entries.Keys;
    while todo != {}
      invariant todo <= old(out.entries).Keys == out.entries.Keys
      invariant forall k {:trigger out.entries[k]} | k in out.entries ::
        out.entries[k].shadowed == old(out.entries)[k].shadowed
      invariant forall k {:trigger out.entries[k]} | k in todo :: out.entries[k] == old(out.entries)[k]
      invariant forall k {:trigger out.entries[k]} | k in out.entries && k !in todo ::
        SelfResolved(k, old(out.entries)[k].fields, out.entries[k].fields)
    {
      var k :| k in todo;
      todo := todo - {k};
      var fields := ResolveFields(k, out.entries[k].fields);
      out.entries := out.entries[k := out.entries[k].(fields := fields)];
    }
  }

  /** Lines 317-319 for one entry. */
  method ResolveFields(k: Key, before: seq<Column>) returns (fields: seq<Column>)
    ensures SelfResolved(k, before, fields)
  {
    fields := before;
    for i := 0 to |fields|
      invariant |fields| == |before|
      invariant forall j | i <= j < |fields| :: fields[j] == before[j]
      invariant SelfResolved(k, before[..i], fields[..i])
    {
      if fields[i].target.SelfTarget? {
        fields := fields[i := fields[i].(target := Model(k))];
      }
    }
    assert before[..|before|] == before && fields[..|fields|] == fields;
  }

  // ---- The whole run ------------------------------------------------------------------------------

  /** The schema of the surviving classes d: every list is a function of the declarations alone. */
  ghost predicate IsSchema(d: Decls, parsed: map<Key, Entry>, g: Graph, own: Columns, schema: map<Key, Entry>)
    requires d.Keys <= parsed.Keys
  {
    && Declares(g, own) && g.Keys == d.Keys == schema.Keys && IsBases(d, g)
    && (forall k {:trigger own[k]} | k in own :: AreQualified(d, k.app, parsed[k].fields, own[k]))
    && forall k {:trigger schema[k]} | k in schema ::
         SelfResolved(k, FinalColumns(g, own, k), schema[k].fields) && schema[k].shadowed == FinalShadowed(g, own, k)
  }

  /** c, a column of entry k, is the column o that the class a declares: the same name and attributes,
      tagged with a where a is another class, and its target read from where the declaration stands,
      except that `self` is k. */
  ghost predicate StandsFor(d: Decls, k: Key, a: Key, o: Column, c: Column) {
    && c.name == o.name && c.attributes == o.attributes
    && c.declaredBy == (if a == k then o.declaredBy else Some(a.name))
    && match o.target
       case NoTarget => c.target == NoTarget
       case SelfTarget => c.target == Model(k)
       case Model(m) => c.target == Model(m)
       case Unresolved(name) => c.target == Unresolved(name)
       case Bare(name) =>
         var e := Resolve(d, a.app, name);
         c.target == if e.Some? then Model(e.value) else Unresolved(name)
  }

  /** c is a column that the entry or a class of its walk declares. */
  ghost predicate IsDeclared(d: Decls, parsed: map<Key, Entry>, g: Graph, k: Key, c: Column)
    requires Total(g) && k in g
  {
    exists a, o :: a in [k] + Ancestors(g, k) && a in parsed && o in parsed[a].fields && StandsFor(d, k, a, o, c)
  }

  lemma {:induction false} ProviderMeans(own: Columns, ks: seq<Key>, name: string) returns (a: Key, o: Column)
    requires (forall k | k in ks :: k in own) && Provider(own, ks, name).Some?
    ensures a in ks && o in own[a] && Provider(own, ks, name).value == o.(declaredBy := Some(a.name))
  {
    var first := FirstNamed(own[ks[0]], name);
    FirstNamedMeans(own[ks[0]], name);
    if first.Some? {
      a, o := ks[0], first.value;
    } else {
      a, o := ProviderMeans(own, ks[1..], name);
    }
  }

  /** Each final column is a declared one, tagged when it is inherited. */
  lemma FinalColumnFrom(g: Graph, own: Columns, k: Key, i: nat) returns (a: Key, q: Column)
    requires Declares(g, own) && k in g && i < |FinalColumns(g, own, k)|
    ensures a in [k] + Ancestors(g, k) && a in own && q in own[a]
    ensures FinalColumns(g, own, k)[i] == if a == k then q else q.(declaredBy := Some(a.name))
  {
    FinalColumnsMean(g, own, k);
    AncestorsNamedOnce(g, k);
    hide Ancestors, FinalColumns, Provider;
    var final := FinalColumns(g, own, k);
    if i < |own[k]| {
      a, q := k, own[k][i];
    } else {
      var inherited := final[|own[k]|..];
      assert inherited[i - |own[k]|] == final[i] && final[i] in inherited;
      a, q := ProviderMeans(own, Ancestors(g, k), final[i].name);
    }
  }

  lemma QualifiedStandsFor(d: Decls, k: Key, a: Key, o: Column, f: Column, c: Column)
    requires var q := Qualified(d, a.app, o); f == if a == k then q else q.(declaredBy := Some(a.name))
    requires SelfResolved(k, [f], [c])
    ensures StandsFor(d, k, a, o, c)
  {
    hide Resolve;
    assert [f][0] == f && [c][0] == c;
  }

  lemma SchemaIsDeclared(d: Decls, parsed: map<Key, Entry>, g: Graph, own: Columns, schema: map<Key, Entry>, k: Key)
    requires d.Keys <= parsed.Keys && IsSchema(d, parsed, g, own, schema) && k in schema
    ensures forall c | c in schema[k].fields :: IsDeclared(d, parsed, g, k, c)
  {
    hide Resolve, FinalColumns, Ancestors, FinalShadowed, IsBases, Qualified;
    forall c | c in schema[k].fields ensures IsDeclared(d, parsed, g, k, c) {
      var i :| 0 <= i < |schema[k].fields| && schema[k].fields[i] == c;
      var f := FinalColumns(g, own, k)[i];
      var a, q := FinalColumnFrom(g, own, k, i);
      var j :| 0 <= j < |own[a]| && own[a][j] == q;
      var o := parsed[a].fields[j];
      assert AreQualified(d, a.app, parsed[a].fields, own[a]);
      assert SelfResolved(k, [f], [c]);
      QualifiedStandsFor(d, k, a, o, f, c);
    }
  }

  function Declaring(parsed: map<Key, Entry>): set<Key> {
    set k | k in parsed && parsed[k].fields != []
  }

  /** Lines 241-319 over the surviving classes d. */
  method Complete(d: Decls, parsed: map<Key, Entry>)
    returns (out: Catalogue, w: Walker, ghost own: Columns)
    requires d.Keys <= parsed.Keys && forall k | k in parsed :: parsed[k].shadowed == []
    ensures IsSchema(d, parsed, Bases(d), own, out.entries)
    ensures w.ambiguous == AllAmbiguous(d)
  {
    hide Bases, Answers, IsBases, FinalEntry, FinalColumns, FinalShadowed, AllAmbiguous, SelfResolved;
    var byName := BuildByName(d);
    ByNameAnswers(d, byName);
    out := new Catalogue(map k | k in d :: parsed[k]);
    w := new Walker();
    QualifyAll(d, byName, out);
    var snapshot := Snapshot(out.entries);
    own := snapshot;
    BasesAreBases(d);
    MergeAll(d, byName, Bases(d), snapshot, out, w);
    FinalFields(Bases(d), own, out.entries);
    ResolveSelf(out);
  }

  /** The whole run. */
  method Extract(d0: Decls, parsed: map<Key, Entry>)
    returns (out: Catalogue, w: Walker, models: set<Key>, ghost g: Graph, ghost own: Columns)
    requires d0.Keys == parsed.Keys && forall k | k in parsed :: parsed[k].shadowed == []
    ensures forall k :: k in models <==> k in d0 && IsModel(d0, Declaring(parsed), k)
    ensures IsSchema(Keep(d0, models), parsed, g, own, out.entries)
    ensures w.ambiguous == AllAmbiguous(Keep(d0, models))
    ensures forall k, c | k in out.entries && c in out.entries[k].fields ::
      !c.target.SelfTarget? && IsDeclared(Keep(d0, models), parsed, g, k, c)
    ensures forall k | k in out.entries :: out.entries[k].fields == [] <==> WalkDeclaresNothing(parsed, g, k)
    ensures forall k | k in out.entries && DistinctNames(g, k) :: out.entries[k].fields != []
  {
    hide Bases, IsBases, FinalColumns, FinalShadowed, AllAmbiguous, IsModel, DistinctNames, WalkDeclaresNothing,
      IsDeclared, SelfResolved, AreQualified;
    models := FindModels(d0, Declaring(parsed));
    out, w, own := Complete(Keep(d0, models), parsed);
    g := Bases(Keep(d0, models));
    EmptyEntries(d0, parsed, models, own, out.entries);
    EveryColumn(Keep(d0, models), parsed, g, own, out.entries);
  }

  /** Neither the class nor any class of its walk declares a column. */
  ghost predicate WalkDeclaresNothing(parsed: map<Key, Entry>, g: Graph, k: Key)
    requires Total(g) && k in g
  {
    forall a | a in [k] + Ancestors(g, k) :: a in parsed ==> parsed[a].fields == []
  }

  lemma EveryColumn(d: Decls, parsed: map<Key, Entry>, g: Graph, own: Columns, schema: map<Key, Entry>)
    requires d.Keys <= parsed.Keys && IsSchema(d, parsed, g, own, schema)
    ensures forall k, c | k in schema && c in schema[k].fields ::
      !c.target.SelfTarget? && IsDeclared(d, parsed, g, k, c)
  {
    hide IsDeclared, FinalColumns, FinalShadowed, SelfResolved, AreQualified, IsBases;
    forall k | k in schema
      ensures forall c | c in schema[k].fields :: !c.target.SelfTarget? && IsDeclared(d, parsed, g, k, c)
    {
      SchemaIsDeclared(d, parsed, g, own, schema, k);
      NoSelfIsLeft(k, FinalColumns(g, own, k), schema[k].fields);
    }
  }

  lemma NoSelfIsLeft(k: Key, before: seq<Column>, after: seq<Column>)
    requires SelfResolved(k, before, after)
    ensures forall c | c in after :: !c.target.SelfTarget?
  {
  }

  lemma BasesAreBases(d: Decls)
    ensures IsBases(d, Bases(d)) && Total(Bases(d)) && Bases(d).Keys == d.Keys
  {
  }

  lemma FinalFields(g: Graph, own: Columns, entries: map<Key, Entry>)
    requires Declares(g, own) && entries == AllFinal(g, own)
    ensures forall k {:trigger entries[k]} | k in entries ::
      entries[k].fields == FinalColumns(g, own, k) && entries[k].shadowed == FinalShadowed(g, own, k)
  {
  }

  lemma EmptyEntries(d0: Decls, parsed: map<Key, Entry>, models: set<Key>, own: Columns, schema: map<Key, Entry>)
    requires d0.Keys == parsed.Keys
    requires forall k :: k in models <==> k in d0 && IsModel(d0, Declaring(parsed), k)
    requires IsSchema(Keep(d0, models), parsed, Bases(Keep(d0, models)), own, schema)
    ensures var g := Bases(Keep(d0, models));
            forall k | k in schema ::
              && (schema[k].fields == [] <==> WalkDeclaresNothing(parsed, g, k))
              && (DistinctNames(g, k) ==> schema[k].fields != [])
  {
    hide IsModel, Bases, Resolve, FinalColumns, FinalShadowed, Ancestors, DistinctNames, WalkDeclaresNothing;
    var g := Bases(Keep(d0, models));
    assert forall k | k in own :: |own[k]| == |parsed[k].fields|;
    forall k | k in schema
      ensures schema[k].fields == [] <==> WalkDeclaresNothing(parsed, g, k)
      ensures DistinctNames(g, k) ==> schema[k].fields != []
    {
      assert |schema[k].fields| == |FinalColumns(g, own, k)|;
      EmptyFinalIff(parsed, g, own, k);
      if DistinctNames(g, k) {
        SurvivorHasColumn(d0, parsed, models, own, k);
      }
    }
  }

  lemma EmptyFinalIff(parsed: map<Key, Entry>, g: Graph, own: Columns, k: Key)
    requires Declares(g, own) && k in g && own.Keys <= parsed.Keys
    requires forall j | j in own :: |own[j]| == |parsed[j].fields|
    ensures FinalColumns(g, own, k) == [] <==> WalkDeclaresNothing(parsed, g, k)
  {
    NoColumnsIff(g, own, k);
    hide FinalColumns, Ancestors;
    assert k in [k] + Ancestors(g, k);
    assert forall a | a in Ancestors(g, k) :: a in [k] + Ancestors(g, k);
  }

  /** A survivor of the deletion ends the merge with a column. */
  lemma SurvivorHasColumn(d0: Decls, parsed: map<Key, Entry>, models: set<Key>, own: Columns, k: Key)
    requires d0.Keys == parsed.Keys
    requires forall k :: k in models <==> k in d0 && IsModel(d0, Declaring(parsed), k)
    requires own.Keys == Keep(d0, models).Keys && k in models
    requires forall j | j in own :: |own[j]| == |parsed[j].fields|
    requires DistinctNames(Bases(Keep(d0, models)), k)
    ensures FinalColumns(Bases(Keep(d0, models)), own, k) != []
  {
    var t := SurvivorReachesColumn(d0, Declaring(parsed), models, k);
    KeepsSomeIfDistinct(Bases(Keep(d0, models)), own, k);
  }
}
