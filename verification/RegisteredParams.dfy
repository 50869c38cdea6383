/** hack/build-netbox-ir.py:117-222: from a filterset and its bases to the query parameters it
    registers, each with the suffixes its filter class selects. */
module RegisteredParams {
  import opened Options
  import opened Graphs
  import opened FilterLookups
  import opened ParamSplit

  /** A filter declaration, with the keywords it may leave out. */
  datatype Declared = Declared(
    filterClass: string,
    fieldName: Option<string>,
    filterMethod: Option<string>,
    lookupExpr: Option<string>)

  datatype FilterSet = FilterSet(bases: seq<string>, declared: map<string, Declared>, metaFields: Option<seq<string>>)

  datatype ModelField = ModelField(name: string, fieldType: string)

  /** Everything read out of the NetBox source. */
  datatype Tables = Tables(
    filterSets: map<string, FilterSet>,
    lookupMaps: map<string, map<string, string>>,
    dispatch: seq<Arm>,
    standardLookups: set<string>,
    filterClassBases: Classes,
    filterDefaults: map<string, string>,
    modelFieldBases: Classes)

  datatype Note = NoFilterClass(fieldType: string) | MetaFieldsUnparsed(filterSet: string) | NoSuchColumn(field: string)

  const DJANGO_FILTER_DEFAULTS: map<string, string> := map[
    "BooleanField" := "BooleanFilter", "NullBooleanField" := "BooleanFilter", "TextField" := "CharFilter",
    "BigIntegerField" := "NumberFilter", "PositiveBigIntegerField" := "NumberFilter", "UUIDField" := "UUIDFilter",
    "DurationField" := "DurationFilter", "ForeignKey" := "ModelChoiceFilter", "OneToOneField" := "ModelChoiceFilter",
    "TreeForeignKey" := "ModelChoiceFilter", "ManyToManyField" := "ModelMultipleChoiceFilter",
    "IPAddressField" := "CharFilter", "GenericIPAddressField" := "CharFilter"]

  const RELATIONS: set<string> := {"ForeignKey", "OneToOneField", "TreeForeignKey"}

  ghost predicate ValidTables(t: Tables) {
    forall i | 0 <= i < |t.dispatch| :: t.dispatch[i].lookupMap in t.lookupMaps
  }

  function BaseTable(t: Tables): Classes {
    map f | f in t.filterSets :: t.filterSets[f].bases
  }

  // ---- Declared filters, merged down the chain ----------------------------------------------------

  function Declarers(t: Tables, p: string): set<string> {
    set f | f in t.filterSets && p in t.filterSets[f].declared
  }

  /** The declaration in force for p after merging the chain in order. */
  ghost function InForce(t: Tables, chain: seq<string>, p: string): (d: Option<Declared>) {
    var w := LastDeclaring(chain, Declarers(t, p));
    if w.Some? && w.value in t.filterSets && p in t.filterSets[w.value].declared
    then Some(t.filterSets[w.value].declared[p]) else None
  }

  /** Every parameter that a class of the chain declares. */
  function DeclaredIn(t: Tables, chain: seq<string>): set<string> {
    set f, p | f in chain && f in t.filterSets && p in t.filterSets[f].declared :: p
  }

  method MergeDeclared(t: Tables, chain: seq<string>) returns (m: map<string, Declared>)
    requires forall f | f in chain :: f in t.filterSets
    ensures forall p :: p in m <==> InForce(t, chain, p).Some?
    ensures forall p | p in m :: InForce(t, chain, p) == Some(m[p])
    ensures m.Keys == DeclaredIn(t, chain)
  {
    m := map[];
    for i := 0 to |chain|
      invariant forall p :: p in m <==> InForce(t, chain[..i], p).Some?
      invariant forall p | p in m :: InForce(t, chain[..i], p) == Some(m[p])
    {
      m := m + t.filterSets[chain[i]].declared;
      assert chain[..i + 1][..i] == chain[..i];
    }
    assert chain[..|chain|] == chain;
    forall p ensures InForce(t, chain, p).Some? <==> p in DeclaredIn(t, chain) {
      InForceMeans(t, chain, p);
    }
  }

  lemma {:induction false} InForceMeans(t: Tables, chain: seq<string>, p: string)
    requires forall f | f in chain :: f in t.filterSets
    ensures InForce(t, chain, p).Some? <==> exists f :: f in chain && p in t.filterSets[f].declared
  {
    LastDeclaringMeans(chain, Declarers(t, p));
    if InForce(t, chain, p).None? {
      assert forall f | f in chain :: f !in Declarers(t, p);
    }
  }

  // ---- Columns of Meta.fields ---------------------------------------------------------------------

  function FirstKnown(t: Tables, chain: seq<string>): Option<string> {
    if chain == [] then None
    else if chain[0] in t.filterDefaults then Some(t.filterDefaults[chain[0]])
    else if chain[0] in DJANGO_FILTER_DEFAULTS then Some(DJANGO_FILTER_DEFAULTS[chain[0]])
    else FirstKnown(t, chain[1..])
  }

  /** The filter class of a column: nearest class first that either table knows. */
  function ColumnFilterClass(t: Tables, fieldType: string): Option<string> {
    FirstKnown(t, Preorder(t.modelFieldBases, fieldType, {}))
  }

  predicate EndsInId(p: string) {
    |p| >= 3 && p[|p| - 3..] == "_id"
  }

  /** The column type a Meta.fields entry means: the column, the implicit key, or a relation's `_id`. */
  function ColumnType(columns: map<string, string>, p: string): Option<string> {
    if p in columns then Some(columns[p])
    else if p == "id" then Some("AutoField")
    else if EndsInId(p) && p[..|p| - 3] in columns && columns[p[..|p| - 3]] in RELATIONS then
      Some(columns[p[..|p| - 3]])
    else None
  }

  function MetaFilterClass(t: Tables, columns: map<string, string>, p: string): Option<string> {
    var c := ColumnType(columns, p);
    if c.None? then None else ColumnFilterClass(t, c.value)
  }

  /** The filter class either table gives a class of columns, NetBox's own first. */
  ghost predicate Knows(t: Tables, cls: string, filterClass: string) {
    || (cls in t.filterDefaults && t.filterDefaults[cls] == filterClass)
    || (cls !in t.filterDefaults && cls in DJANGO_FILTER_DEFAULTS && DJANGO_FILTER_DEFAULTS[cls] == filterClass)
  }

  lemma {:induction false} FirstKnownMeans(t: Tables, chain: seq<string>, filterClass: string)
    ensures FirstKnown(t, chain) == Some(filterClass) <==>
      exists i :: 0 <= i < |chain| && Knows(t, chain[i], filterClass)
                  && forall j, f | 0 <= j < i :: !Knows(t, chain[j], f)
    ensures FirstKnown(t, chain).None? <==> forall c, f | c in chain :: !Knows(t, c, f)
  {
    if chain != [] {
      var first, rest := chain[0], chain[1..];
      FirstKnownMeans(t, rest, filterClass);
      assert forall c :: c in chain <==> c == first || c in rest;
      if f :| Knows(t, first, f) {
        assert FirstKnown(t, chain) == Some(f);
        assert Knows(t, first, filterClass) <==> f == filterClass;
      } else {
        assert first !in t.filterDefaults && first !in DJANGO_FILTER_DEFAULTS by {
          assert first in t.filterDefaults ==> Knows(t, first, t.filterDefaults[first]);
          assert first !in t.filterDefaults && first in DJANGO_FILTER_DEFAULTS ==>
            Knows(t, first, DJANGO_FILTER_DEFAULTS[first]);
        }
        KnownLater(t, chain, filterClass);
      }
    }
  }

  lemma KnownLater(t: Tables, chain: seq<string>, filterClass: string)
    requires chain != [] && forall f :: !Knows(t, chain[0], f)
    ensures (exists i :: 0 <= i < |chain| && Knows(t, chain[i], filterClass)
                         && forall j, f | 0 <= j < i :: !Knows(t, chain[j], f)) <==>
      exists i :: 0 <= i < |chain[1..]| && Knows(t, chain[1..][i], filterClass)
                  && forall j, f | 0 <= j < i :: !Knows(t, chain[1..][j], f)
  {
    hide Knows;
    var rest := chain[1..];
    if i :| 0 <= i < |rest| && Knows(t, rest[i], filterClass) && forall j, f | 0 <= j < i :: !Knows(t, rest[j], f) {
      forall j, f | 0 <= j < i + 1 ensures !Knows(t, chain[j], f) {
        assert j > 0 ==> chain[j] == rest[j - 1];
      }
      assert Knows(t, chain[i + 1], filterClass);
    }
    if i :| 0 <= i < |chain| && Knows(t, chain[i], filterClass) && forall j, f | 0 <= j < i :: !Knows(t, chain[j], f) {
      assert rest[i - 1] == chain[i];
      forall j, f | 0 <= j < i - 1 ensures !Knows(t, rest[j], f) {
        assert rest[j] == chain[j + 1];
      }
    }
  }

  /** The column a Meta.fields entry means: its own; the implicit key; the relation behind an `_id`. */
  lemma ColumnTypeMeans(columns: map<string, string>, p: string, base: string)
    ensures p in columns ==> ColumnType(columns, p) == Some(columns[p])
    ensures "id" !in columns ==> ColumnType(columns, "id") == Some("AutoField")
    ensures base + "_id" !in columns ==>
      ColumnType(columns, base + "_id") ==
        if base in columns && columns[base] in {"ForeignKey", "OneToOneField", "TreeForeignKey"}
        then Some(columns[base])
        else None
    ensures p !in columns && p != "id" && (forall b :: p != b + "_id") ==> ColumnType(columns, p) == None
  {
    var whole := base + "_id";
    assert whole[|whole| - 3..] == "_id" && whole[..|whole| - 3] == base;
    if EndsInId(p) {
      assert p == p[..|p| - 3] + "_id";
    }
  }

  /** `by_name`: the last field of a name wins. */
  method ByName(fields: seq<ModelField>) returns (m: map<string, string>)
    ensures m == Columns(fields)
  {
    m := map[];
    for i := 0 to |fields|
      invariant m == Columns(fields[..i])
    {
      assert fields[..i + 1][..i] == fields[..i];
      m := m[fields[i].name := fields[i].fieldType];
    }
    assert fields[..|fields|] == fields;
  }

  function Columns(fields: seq<ModelField>): map<string, string> {
    if fields == [] then map[]
    else Columns(fields[..|fields| - 1])[fields[|fields| - 1].name := fields[|fields| - 1].fieldType]
  }

  lemma {:induction false} ColumnsMean(fields: seq<ModelField>, name: string)
    ensures name in Columns(fields) <==> exists i :: 0 <= i < |fields| && fields[i].name == name
    ensures name in Columns(fields) ==>
      exists i :: 0 <= i < |fields| && fields[i].name == name && fields[i].fieldType == Columns(fields)[name]
                  && forall j | i < j < |fields| :: fields[j].name != name
  {
    if fields != [] {
      var front, last := fields[..|fields| - 1], fields[|fields| - 1];
      assert fields == front + [last];
      ColumnsMean(front, name);
      if last.name == name {
        assert fields[|fields| - 1].name == name;
      } else if name in Columns(front) {
        var i :| 0 <= i < |front| && front[i].name == name && front[i].fieldType == Columns(front)[name]
                 && forall j | i < j < |front| :: front[j].name != name;
        assert fields[i] == front[i];
        assert forall j | i < j < |fields| :: fields[j] == if j < |front| then front[j] else last;
      }
    }
  }

  // ---- The registered set -------------------------------------------------------------------------

  function Or(o: Option<string>, default: string): string {
    if o.Some? then o.value else default
  }

  function FromDeclared(p: string, d: Declared): Source {
    Source(Some(d.filterClass), Or(d.fieldName, p), d.filterMethod, Or(d.lookupExpr, "exact"))
  }

  function FromMeta(p: string, c: Option<string>): Source {
    Source(c, p, None, "exact")
  }

  /** The suffixes NetBox adds: none for a method or a non-standard lookup, none when no arm of the
      dispatch table matches, unknown when the filter class is. */
  ghost function Suffixes(t: Tables, s: Source): Option<map<string, string>>
    requires ValidTables(t)
  {
    if s.filterMethod.Some? || s.lookupExpr !in t.standardLookups then Some(map[])
    else if s.filterClass.None? then None
    else
      var m := LookupMap(t.filterClassBases, t.dispatch, s.filterClass.value);
      if m.None? || m.value !in t.lookupMaps then Some(map[]) else Some(t.lookupMaps[m.value])
  }

  /** The name of the lookup map the suffixes were taken from, where they were taken from one. */
  ghost function MapName(t: Tables, s: Source): Option<string> {
    if s.filterMethod.Some? || s.lookupExpr !in t.standardLookups || s.filterClass.None? then None
    else LookupMap(t.filterClassBases, t.dispatch, s.filterClass.value)
  }

  lemma {:induction false} LookupMapInTables(g: Classes, dispatch: seq<Arm>, maps: set<string>, cls: string)
    requires forall i | 0 <= i < |dispatch| :: dispatch[i].lookupMap in maps
    ensures LookupMap(g, dispatch, cls).Some? ==> LookupMap(g, dispatch, cls).value in maps
  {
    if dispatch != [] && !Matches(g, dispatch[0], cls) {
      forall i | 0 <= i < |dispatch| - 1 ensures dispatch[1..][i].lookupMap in maps {
        assert dispatch[1..][i] == dispatch[i + 1];
      }
      LookupMapInTables(g, dispatch[1..], maps, cls);
    }
  }

  method MakeFilter(t: Tables, s: Source) returns (f: Filter)
    requires ValidTables(t)
    ensures f == Filter(s, Suffixes(t, s), MapName(t, s))
  {
    f := Filter(s, Some(map[]), None);
    if s.filterMethod.Some? || s.lookupExpr !in t.standardLookups {
    } else if s.filterClass.None? {
      f := f.(lookups := None);
    } else {
      var m := LookupMapFor(t.filterClassBases, t.dispatch, s.filterClass.value);
      LookupMapInTables(t.filterClassBases, t.dispatch, t.lookupMaps.Keys, s.filterClass.value);
      if m.Some? {
        f := f.(lookups := Some(t.lookupMaps[m.value]), lookupMap := m);
      }
    }
  }

  /** What makes p a parameter of the filterset, if anything does: a declaration beats Meta.fields. */
  ghost function SourceOf(t: Tables, fs: string, columns: map<string, string>, p: string): Option<Source>
    requires fs in t.filterSets
  {
    var d := InForce(t, Chain(BaseTable(t), fs, {}), p);
    if d.Some? then Some(FromDeclared(p, d.value))
    else if t.filterSets[fs].metaFields.Some? && p in t.filterSets[fs].metaFields.value
    then Some(FromMeta(p, MetaFilterClass(t, columns, p)))
    else None
  }

  lemma ChainInTable(t: Tables, fs: string)
    ensures forall f | f in Chain(BaseTable(t), fs, {}) :: f in t.filterSets
  {
    forall f | f in Chain(BaseTable(t), fs, {}) ensures f in t.filterSets {
      ChainExact(BaseTable(t), fs, f);
    }
  }

  /** What an undeclared name of Meta.fields is noted for, if anything. */
  function NoteOf(t: Tables, columns: map<string, string>, p: string): seq<Note> {
    var column := ColumnType(columns, p);
    if column.None? then [NoSuchColumn(p)]
    else if ColumnFilterClass(t, column.value).None? then [NoFilterClass(column.value)]
    else []
  }

  /** The notes on Meta.fields, in order: a declared name and a repeated one add none. */
  function MetaNotes(t: Tables, columns: map<string, string>, declared: set<string>, names: seq<string>): seq<Note> {
    if names == [] then []
    else
      var front, last := names[..|names| - 1], names[|names| - 1];
      MetaNotes(t, columns, declared, front)
      + if last in declared || last in front then [] else NoteOf(t, columns, last)
  }

  lemma NoNames(t: Tables, columns: map<string, string>, declared: set<string>)
    ensures MetaNotes(t, columns, declared, []) == []
  {
  }

  lemma OneMoreName(t: Tables, columns: map<string, string>, declared: set<string>, names: seq<string>, i: nat)
    requires i < |names|
    ensures MetaNotes(t, columns, declared, names[..i + 1]) == MetaNotes(t, columns, declared, names[..i])
      + if names[i] in declared || names[i] in names[..i] then [] else NoteOf(t, columns, names[i])
  {
    assert names[..i + 1][..i] == names[..i];
  }

  /** Every gap is noted, and nothing that is none. */
  lemma {:induction false} MetaNotesMean(t: Tables, columns: map<string, string>, declared: set<string>,
                                         names: seq<string>)
    ensures forall n :: n in MetaNotes(t, columns, declared, names) <==>
      exists p :: p in names && p !in declared && n in NoteOf(t, columns, p)
  {
    hide NoteOf;
    if names != [] {
      var front, last := names[..|names| - 1], names[|names| - 1];
      assert names == front + [last];
      MetaNotesMean(t, columns, declared, front);
    }
  }

  /** A name that means no column is noted as such, one whose column has no known filter class by the
      type of that column. */
  lemma NotesAre(t: Tables, columns: map<string, string>, p: string, n: Note)
    ensures n in NoteOf(t, columns, p) <==>
      || (n == NoSuchColumn(p) && ColumnType(columns, p) == None)
      || (exists fieldType :: n == NoFilterClass(fieldType) && ColumnType(columns, p) == Some(fieldType)
                              && ColumnFilterClass(t, fieldType) == None)
  {
  }

  /** Everything noted while the parameters of a filterset are put together. */
  function SourceNotes(t: Tables, fs: string, columns: map<string, string>): seq<Note>
    requires fs in t.filterSets
  {
    var own := t.filterSets[fs].metaFields;
    if own.None? then [MetaFieldsUnparsed(fs)]
    else MetaNotes(t, columns, DeclaredIn(t, Chain(BaseTable(t), fs, {})), own.value)
  }

  class Pipeline {
    /** UNRESOLVED: everything that could not be pinned down, in the order met. */
    var unresolved: seq<Note>

    constructor ()
      ensures unresolved == []
    {
      unresolved := [];
    }

    /** Lines 168-194: the base parameters, with a note for each gap in Meta.fields. */
    method Sources(t: Tables, fs: string, columns: map<string, string>) returns (base: map<string, Source>)
      requires fs in t.filterSets
      modifies this
      ensures forall p :: p in base <==> SourceOf(t, fs, columns, p).Some?
      ensures forall p | p in base :: SourceOf(t, fs, columns, p) == Some(base[p])
      ensures unresolved == old(unresolved) + SourceNotes(t, fs, columns)
    {
      hide InForce, Chain, MetaNotes, MetaFilterClass, DeclaredIn;
      var chain := Chain(BaseTable(t), fs, {});
      ChainInTable(t, fs);
      var declared := MergeDeclared(t, chain);
      base := map p | p in declared :: FromDeclared(p, declared[p]);
      assert base.Keys == declared.Keys;
      var own := t.filterSets[fs].metaFields;
      if own.None? {
        unresolved := unresolved + [MetaFieldsUnparsed(fs)];
      } else {
        base := AddMetaFields(t, own.value, columns, base);
      }
    }

    /** `filter_class_for_column` on the column a name means, noting what is not known. */
    method FilterClassFor(t: Tables, columns: map<string, string>, p: string) returns (cls: Option<string>)
      modifies this
      ensures cls == MetaFilterClass(t, columns, p)
      ensures unresolved == old(unresolved) + NoteOf(t, columns, p)
    {
      var column := ColumnType(columns, p);
      if column.None? {
        unresolved := unresolved + [NoSuchColumn(p)];
        return None;
      }
      cls := ColumnFilterClass(t, column.value);
      if cls.None? {
        unresolved := unresolved + [NoFilterClass(column.value)];
      }
    }

    /** Lines 178-194: a declared filter of the same name wins. */
    method AddMetaFields(t: Tables, names: seq<string>, columns: map<string, string>, declared: map<string, Source>)
      returns (base: map<string, Source>)
      modifies this
      ensures forall p :: p in base <==> p in declared || p in names
      ensures forall p | p in declared :: base[p] == declared[p]
      ensures forall p | p in names && p !in declared :: base[p] == FromMeta(p, MetaFilterClass(t, columns, p))
      ensures unresolved == old(unresolved) + MetaNotes(t, columns, declared.Keys, names)
    {
      hide MetaNotes, NoteOf, MetaFilterClass;
      base := declared;
      ghost var noted := unresolved;
      NoNames(t, columns, declared.Keys);
      for i := 0 to |names|
        invariant forall p :: p in base <==> p in declared || p in names[..i]
        invariant forall p | p in declared :: base[p] == declared[p]
        invariant forall p | p in names[..i] && p !in declared :: base[p] == FromMeta(p, MetaFilterClass(t, columns, p))
        invariant unresolved == noted + MetaNotes(t, columns, declared.Keys, names[..i])
      {
        var p := names[i];
        assert names[..i + 1] == names[..i] + [p];
        OneMoreName(t, columns, declared.Keys, names, i);
        if p !in base {
          var cls := FilterClassFor(t, columns, p);
          base := base[p := FromMeta(p, cls)];
        }
      }
      assert names[..|names|] == names;
    }

    /** `registered_filters`. Parameters are visited in an arbitrary order. */
    method RegisteredFilters(t: Tables, fs: string, fields: seq<ModelField>) returns (out: Filters)
      requires fs in t.filterSets && ValidTables(t)
      modifies this
      ensures IsRegistry(t, fs, Columns(fields), out)
      ensures unresolved == old(unresolved) + SourceNotes(t, fs, Columns(fields))
    {
      var columns := ByName(fields);
      var base := Sources(t, fs, columns);
      hide SourceOf, Suffixes, MapName, SourceNotes;
      ghost var noted := unresolved;
      out := map[];
      var todo := base.Keys;
      while todo != {}
        invariant todo <= base.Keys && out.Keys == base.Keys - todo
        invariant unresolved == noted
        invariant forall p | p in out ::
          out[p] == Filter(base[p], Suffixes(t, base[p]), MapName(t, base[p]))
      {
        var p :| p in todo;
        todo := todo - {p};
        var f := MakeFilter(t, base[p]);
        out := out[p := f];
      }
    }
  }

  ghost predicate IsRegistry(t: Tables, fs: string, columns: map<string, string>, out: Filters)
    requires fs in t.filterSets && ValidTables(t)
  {
    forall p ::
      var s := SourceOf(t, fs, columns, p);
      && (p in out <==> s.Some?)
      && (s.Some? ==> out[p] == Filter(s.value, Suffixes(t, s.value), MapName(t, s.value)))
  }

  // ---- End to end ---------------------------------------------------------------------------------

  /** p is declared by the filterset or by any base it reaches, or listed in its own Meta.fields. */
  ghost predicate IsParam(t: Tables, fs: string, p: string)
    requires fs in t.filterSets
  {
    || (exists f :: f in t.filterSets && Reaches(BaseTable(t), fs, f) && p in t.filterSets[f].declared)
    || (t.filterSets[fs].metaFields.Some? && p in t.filterSets[fs].metaFields.value)
  }

  lemma ParamHasSource(t: Tables, fs: string, columns: map<string, string>, p: string)
    requires fs in t.filterSets
    ensures SourceOf(t, fs, columns, p).Some? <==> IsParam(t, fs, p)
  {
    var chain := Chain(BaseTable(t), fs, {});
    forall f ensures f in chain <==> f in t.filterSets && Reaches(BaseTable(t), fs, f) {
      ChainExact(BaseTable(t), fs, f);
    }
    InForceMeans(t, chain, p);
  }

  /** The lookup maps hold clean suffixes only, and no parameter is named by the empty string. */
  ghost predicate CleanTables(t: Tables, fs: string)
    requires fs in t.filterSets
  {
    && !IsParam(t, fs, "")
    && forall m, s | m in t.lookupMaps && s in t.lookupMaps[m] :: CleanSuffix(s)
  }

  /** A query parameter is accepted exactly when it is a parameter of the filterset, or one of them
      with a suffix of the lookup map its filter class reaches. */
  lemma AcceptedIffRegistered(t: Tables, fs: string, columns: map<string, string>, out: Filters, param: string)
    requires fs in t.filterSets && ValidTables(t) && CleanTables(t, fs) && IsRegistry(t, fs, columns, out)
    ensures CleanTable(out)
    ensures Registered(param, out) == Base <==> IsParam(t, fs, param)
    ensures forall orm :: Registered(param, out) == Suffixed(orm) <==>
      !IsParam(t, fs, param)
      && exists head, suffix :: param == head + "__" + suffix && HasSuffix(t, fs, columns, head, suffix, orm)
  {
    RegistryIsClean(t, fs, columns, out);
    ParamHasSource(t, fs, columns, param);
    forall orm
      ensures Registered(param, out) == Suffixed(orm) <==>
        !IsParam(t, fs, param)
        && exists head, suffix :: param == head + "__" + suffix && HasSuffix(t, fs, columns, head, suffix, orm)
    {
      RegisteredIsMaterialised(out, param, Suffixed(orm));
      forall head, suffix | param == head + "__" + suffix
        ensures Composes(out, param, head, suffix) && out[head].lookups.value[suffix] == orm
          <==> HasSuffix(t, fs, columns, head, suffix, orm)
      {
      }
    }
  }

  /** The registered suffix of a parameter: no method, a standard lookup, a known filter class. */
  ghost predicate HasSuffix(t: Tables, fs: string, columns: map<string, string>, p: string, suffix: string, orm: string)
    requires fs in t.filterSets && ValidTables(t)
  {
    var s := SourceOf(t, fs, columns, p);
    s.Some? && Suffixes(t, s.value).Some? && suffix in Suffixes(t, s.value).value
    && Suffixes(t, s.value).value[suffix] == orm
  }

  // ---- What a declaration comes to ------------------------------------------------------------------

  /** The class at position i of the chain is the last one that declares p. */
  ghost predicate LastDeclares(t: Tables, chain: seq<string>, p: string, i: int) {
    && 0 <= i < |chain| && chain[i] in t.filterSets && p in t.filterSets[chain[i]].declared
    && forall j | i < j < |chain| && chain[j] in t.filterSets :: p !in t.filterSets[chain[j]].declared
  }

  /** Arm n is the first of the dispatch table to name a class that cls is or subclasses. */
  ghost predicate IsFirstArm(t: Tables, cls: string, n: int) {
    && 0 <= n < |t.dispatch|
    && (exists c :: c in t.dispatch[n].classes && Reaches(t.filterClassBases, cls, c))
    && forall j, c | 0 <= j < n && c in t.dispatch[j].classes :: !Reaches(t.filterClassBases, cls, c)
  }

  lemma InForceIsLast(t: Tables, chain: seq<string>, p: string, i: int)
    requires LastDeclares(t, chain, p, i) && forall f | f in chain :: f in t.filterSets
    ensures InForce(t, chain, p) == Some(t.filterSets[chain[i]].declared[p])
  {
    LastDeclaringMeans(chain, Declarers(t, p));
    assert chain[i] in Declarers(t, p);
    var w := LastDeclaring(chain, Declarers(t, p)).value;
    var n :| 0 <= n < |chain| && chain[n] == w && chain[n] in Declarers(t, p)
             && forall j | n < j < |chain| :: chain[j] !in Declarers(t, p);
    assert n == i;
  }

  lemma {:induction false} FirstArmIsTheMap(t: Tables, cls: string, n: int)
    requires IsFirstArm(t, cls, n)
    ensures LookupMap(t.filterClassBases, t.dispatch, cls) == Some(t.dispatch[n].lookupMap)
  {
    forall j | 0 <= j < n ensures !Matches(t.filterClassBases, t.dispatch[j], cls) {
    }
    FirstMatch(t.filterClassBases, t.dispatch, cls, n);
  }

  lemma NoArmNoMap(t: Tables, cls: string)
    requires forall n :: !IsFirstArm(t, cls, n)
    ensures LookupMap(t.filterClassBases, t.dispatch, cls) == None
  {
    if exists n :: 0 <= n < |t.dispatch| && Matches(t.filterClassBases, t.dispatch[n], cls) {
      var n := EarliestMatch(t, cls);
    } else {
      NoMatch(t.filterClassBases, t.dispatch, cls);
    }
  }

  lemma EarliestMatch(t: Tables, cls: string) returns (n: nat)
    requires exists n :: 0 <= n < |t.dispatch| && Matches(t.filterClassBases, t.dispatch[n], cls)
    ensures IsFirstArm(t, cls, n)
  {
    n :| n < |t.dispatch| && Matches(t.filterClassBases, t.dispatch[n], cls);
    while exists j :: 0 <= j < n && Matches(t.filterClassBases, t.dispatch[j], cls)
      invariant n < |t.dispatch| && Matches(t.filterClassBases, t.dispatch[n], cls)
      decreases n
    {
      var j :| 0 <= j < n && Matches(t.filterClassBases, t.dispatch[j], cls);
      n := j;
    }
  }

  /** What the registry holds for a parameter of its own with the given class, method and lookup, and
      which of its suffixes the server accepts: none when the filter answers by a method or by a
      lookup outside the standard ones, else exactly those of the first arm its class reaches. */
  ghost predicate AcceptsAsSetUp(t: Tables, out: Filters, p: string, cls: Option<string>, filterMethod: Option<string>,
                                 lookupExpr: string)
  {
    && p in out && out[p].source.filterClass == cls
    && out[p].source.filterMethod == filterMethod && out[p].source.lookupExpr == lookupExpr
    && forall suffix, orm | CleanSuffix(suffix) && p + "__" + suffix !in out ::
         Registered(p + "__" + suffix, out) == Suffixed(orm) <==>
           && filterMethod == None && lookupExpr in t.standardLookups && cls.Some?
           && exists n :: IsFirstArm(t, cls.value, n) && t.dispatch[n].lookupMap in t.lookupMaps
                          && suffix in t.lookupMaps[t.dispatch[n].lookupMap]
                          && t.lookupMaps[t.dispatch[n].lookupMap][suffix] == orm
  }

  lemma SuffixesAreTheArms(t: Tables, s: Source, suffix: string, orm: string)
    requires ValidTables(t)
    ensures (Suffixes(t, s).Some? && suffix in Suffixes(t, s).value && Suffixes(t, s).value[suffix] == orm) <==>
      && s.filterMethod == None && s.lookupExpr in t.standardLookups && s.filterClass.Some?
      && exists n :: IsFirstArm(t, s.filterClass.value, n) && t.dispatch[n].lookupMap in t.lookupMaps
                     && suffix in t.lookupMaps[t.dispatch[n].lookupMap]
                     && t.lookupMaps[t.dispatch[n].lookupMap][suffix] == orm
  {
    if s.filterClass.Some? {
      if n :| IsFirstArm(t, s.filterClass.value, n) {
        FirstArmIsTheMap(t, s.filterClass.value, n);
        assert forall m | IsFirstArm(t, s.filterClass.value, m) :: m == n;
      } else {
        NoArmNoMap(t, s.filterClass.value);
      }
    }
  }

  lemma AcceptsAsItsSource(t: Tables, fs: string, columns: map<string, string>, out: Filters, p: string)
    requires fs in t.filterSets && ValidTables(t) && IsRegistry(t, fs, columns, out)
    requires SourceOf(t, fs, columns, p).Some?
    ensures p in out && out[p].source == SourceOf(t, fs, columns, p).value
    ensures var s := SourceOf(t, fs, columns, p).value;
            AcceptsAsSetUp(t, out, p, s.filterClass, s.filterMethod, s.lookupExpr)
  {
    var s := SourceOf(t, fs, columns, p).value;
    assert out[p] == Filter(s, Suffixes(t, s), MapName(t, s));
    hide SourceOf, Suffixes, IsRegistry, RPartition;
    forall suffix, orm | CleanSuffix(suffix) && p + "__" + suffix !in out
      ensures Registered(p + "__" + suffix, out) == Suffixed(orm) <==>
        && s.filterMethod == None && s.lookupExpr in t.standardLookups && s.filterClass.Some?
        && exists n :: IsFirstArm(t, s.filterClass.value, n) && t.dispatch[n].lookupMap in t.lookupMaps
                       && suffix in t.lookupMaps[t.dispatch[n].lookupMap]
                       && t.lookupMaps[t.dispatch[n].lookupMap][suffix] == orm
    {
      SplitRoundTrip(p, suffix);
      SuffixesAreTheArms(t, s, suffix, orm);
    }
  }

  /** A declared parameter is what the last class of the chain to declare it says: its class, its
      method, its field name or its own name, its lookup or "exact", and the suffixes that follow. */
  lemma DeclaredParamIs(t: Tables, fs: string, columns: map<string, string>, out: Filters, p: string, i: int)
    requires fs in t.filterSets && ValidTables(t) && IsRegistry(t, fs, columns, out)
    requires LastDeclares(t, Chain(BaseTable(t), fs, {}), p, i)
    ensures var d := t.filterSets[Chain(BaseTable(t), fs, {})[i]].declared[p];
            && p in out && out[p].source.column == (if d.fieldName.Some? then d.fieldName.value else p)
            && AcceptsAsSetUp(t, out, p, Some(d.filterClass), d.filterMethod,
                              if d.lookupExpr.Some? then d.lookupExpr.value else "exact")
  {
    ChainInTable(t, fs);
    InForceIsLast(t, Chain(BaseTable(t), fs, {}), p, i);
    hide Chain, InForce, AcceptsAsSetUp, IsRegistry;
    AcceptsAsItsSource(t, fs, columns, out, p);
  }

  /** A parameter that only the own Meta.fields names reads the column of that name, exactly, without a
      method, under the filter class of its column. */
  lemma MetaParamIs(t: Tables, fs: string, columns: map<string, string>, out: Filters, p: string)
    requires fs in t.filterSets && ValidTables(t) && IsRegistry(t, fs, columns, out)
    requires forall i :: !LastDeclares(t, Chain(BaseTable(t), fs, {}), p, i)
    requires t.filterSets[fs].metaFields.Some? && p in t.filterSets[fs].metaFields.value
    ensures p in out && out[p].source.column == p
    ensures AcceptsAsSetUp(t, out, p, MetaFilterClass(t, columns, p), None, "exact")
  {
    ChainInTable(t, fs);
    NobodyDeclares(t, Chain(BaseTable(t), fs, {}), p);
    hide Chain, InForce, AcceptsAsSetUp, IsRegistry, MetaFilterClass;
    AcceptsAsItsSource(t, fs, columns, out, p);
  }

  lemma {:induction false} NobodyDeclares(t: Tables, chain: seq<string>, p: string)
    requires (forall f | f in chain :: f in t.filterSets) && forall i :: !LastDeclares(t, chain, p, i)
    ensures InForce(t, chain, p) == None
  {
    LastDeclaringMeans(chain, Declarers(t, p));
    if LastDeclaring(chain, Declarers(t, p)).Some? {
      var w := LastDeclaring(chain, Declarers(t, p)).value;
      var n :| 0 <= n < |chain| && chain[n] == w && chain[n] in Declarers(t, p)
               && forall j | n < j < |chain| :: chain[j] !in Declarers(t, p);
      assert LastDeclares(t, chain, p, n);
    }
  }

  lemma RegistryIsClean(t: Tables, fs: string, columns: map<string, string>, out: Filters)
    requires fs in t.filterSets && ValidTables(t) && CleanTables(t, fs) && IsRegistry(t, fs, columns, out)
    ensures CleanTable(out)
  {
    ParamHasSource(t, fs, columns, "");
    hide SourceOf;
  }
}
