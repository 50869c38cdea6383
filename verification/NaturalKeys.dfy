/** hack/build-netbox-ir.py:274-393: a uniqueness constraint becomes a query, and a parameter the
    server does not register would be dropped from it in silence. */
module NaturalKeys {
  import opened Options
  import opened ParamSplit
  import opened Conditions
  import RegisteredParams

  // ---- Constraints, as parsed -----------------------------------------------------------------------

  /** A positional expression: a column, Lower or Upper of a column, or anything else. */
  datatype Arg = ColumnArg(column: string) | FoldArg(column: string) | OtherArg

  datatype FieldsArg = NoFields | LiteralFields(columns: seq<string>) | NotLiteral

  datatype Constraint = Constraint(args: seq<Arg>, fields: FieldsArg, condition: Option<Cond>)

  datatype KeyColumn = KeyColumn(column: string, lookup: string)

  // ---- key_columns ------------------------------------------------------------------------------------

  function ArgColumns(args: seq<Arg>): seq<KeyColumn> {
    if args == [] then []
    else
      ArgColumns(args[..|args| - 1])
      + match args[|args| - 1]
        case ColumnArg(c) => [KeyColumn(c, "")]
        case FoldArg(c) => [KeyColumn(c, "ie")]
        case OtherArg => []
  }

  function PlainColumns(columns: seq<string>): seq<KeyColumn> {
    seq(|columns|, i requires 0 <= i < |columns| => KeyColumn(columns[i], ""))
  }

  /** The columns a constraint contributes, and how many of its expressions were only noted. */
  method KeyColumns(c: Constraint) returns (cols: seq<KeyColumn>, dropped: nat)
    ensures cols == ArgColumns(c.args) + if c.fields.LiteralFields? then PlainColumns(c.fields.columns) else []
    ensures dropped == 0 <==> Understood(c)
  {
    cols, dropped := [], 0;
    for i := 0 to |c.args|
      invariant cols == ArgColumns(c.args[..i])
      invariant dropped == 0 <==> OtherArg !in c.args[..i]
    {
      assert c.args[..i + 1][..i] == c.args[..i];
      assert c.args[..i + 1] == c.args[..i] + [c.args[i]];
      match c.args[i]
      case ColumnArg(column) => cols := cols + [KeyColumn(column, "")];
      case FoldArg(column) => cols := cols + [KeyColumn(column, "ie")];
      case OtherArg => dropped := dropped + 1;
    }
    assert c.args[..|c.args|] == c.args;
    match c.fields
    case NoFields =>
    case LiteralFields(columns) => cols := cols + PlainColumns(columns);
    case NotLiteral => dropped := dropped + 1;
  }

  predicate Understood(c: Constraint) {
    OtherArg !in c.args && !c.fields.NotLiteral?
  }

  function ColumnsOf(c: Constraint): seq<KeyColumn> {
    ArgColumns(c.args) + if c.fields.LiteralFields? then PlainColumns(c.fields.columns) else []
  }

  // ---- resolve_param ----------------------------------------------------------------------------------

  predicate SpelledWithId(column: string, fieldTypes: map<string, string>) {
    column in fieldTypes
    && (fieldTypes[column] in RegisteredParams.RELATIONS || fieldTypes[column] == "ManyToManyField")
  }

  function StripUnderscores(s: string): string {
    if s != "" && s[0] == '_' then StripUnderscores(s[1..]) else s
  }

  /** All the underscores in front go, and nothing else. */
  lemma {:induction false} StripUnderscoresMeans(s: string)
    ensures |StripUnderscores(s)| <= |s|
    ensures var n := |s| - |StripUnderscores(s)|; s[n..] == StripUnderscores(s) && forall i | 0 <= i < n :: s[i] == '_'
    ensures StripUnderscores(s) != "" ==> StripUnderscores(s)[0] != '_'
  {
    if s != "" && s[0] == '_' {
      var rest := s[1..];
      StripUnderscoresMeans(rest);
      var n := |rest| - |StripUnderscores(rest)|;
      assert s[n + 1..] == rest[n..];
      assert forall i | 0 < i < n + 1 :: s[i] == rest[i - 1];
    }
  }

  lemma SpelledWithIdMeans(column: string, fieldTypes: map<string, string>)
    ensures SpelledWithId(column, fieldTypes) <==>
      column in fieldTypes
      && fieldTypes[column] in {"ForeignKey", "OneToOneField", "TreeForeignKey", "ManyToManyField"}
  {
  }

  /** The spellings tried for a column, in order: a relation's `_id` first, anything else's last. */
  function Candidates(column: string, fieldTypes: map<string, string>): seq<string> {
    var bare := StripUnderscores(column);
    if SpelledWithId(column, fieldTypes) then [bare + "_id", bare] else [bare, bare + "_id"]
  }

  function WithLookup(param: string, lookup: string): string {
    if lookup != "" then param + "__" + lookup else param
  }

  function FirstRegistered(cands: seq<string>, lookup: string, filters: Filters): Option<string> {
    if cands == [] then None
    else if Registered(WithLookup(cands[0], lookup), filters) != Unregistered then Some(WithLookup(cands[0], lookup))
    else FirstRegistered(cands[1..], lookup, filters)
  }

  function ResolveParam(column: string, lookup: string, filters: Filters, fieldTypes: map<string, string>)
    : Option<string>
  {
    FirstRegistered(Candidates(column, fieldTypes), lookup, filters)
  }

  /** A resolved parameter is registered and spells its column; nothing else is ever returned, and
      when both spellings are registered a relation takes the `_id` one, anything else the bare one. */
  lemma ResolvedParamIsRegistered(column: string, lookup: string, filters: Filters, fieldTypes: map<string, string>)
    ensures var bare := StripUnderscores(column); var p := ResolveParam(column, lookup, filters, fieldTypes);
            Registered(WithLookup(bare, lookup), filters) != Unregistered
            && Registered(WithLookup(bare + "_id", lookup), filters) != Unregistered ==>
              p == Some(WithLookup(if SpelledWithId(column, fieldTypes) then bare + "_id" else bare, lookup))
    ensures var bare := StripUnderscores(column); var p := ResolveParam(column, lookup, filters, fieldTypes);
            && (p.Some? ==> Registered(p.value, filters) != Unregistered
                            && p.value in {WithLookup(bare, lookup), WithLookup(bare + "_id", lookup)})
            && (p.None? <==> Registered(WithLookup(bare, lookup), filters) == Unregistered
                             && Registered(WithLookup(bare + "_id", lookup), filters) == Unregistered)
  {
    var cands := Candidates(column, fieldTypes);
    var rest := cands[1..];
    assert rest == [cands[1]] && rest[1..] == [];
    assert FirstRegistered(rest[1..], lookup, filters) == None;
    assert FirstRegistered(rest, lookup, filters) ==
      if Registered(WithLookup(rest[0], lookup), filters) != Unregistered then Some(WithLookup(rest[0], lookup))
      else None;
    var bare := StripUnderscores(column);
    assert {cands[0], rest[0]} == {bare, bare + "_id"};
  }

  // ---- natural_keys -----------------------------------------------------------------------------------

  datatype KeyField = KeyField(column: string, lookup: string, param: Option<string>)

  datatype NullField = NullField(column: string, param: Option<string>, meansSqlNull: bool)

  datatype Reason =
    | NoParameter(column: string, lookup: string)
    | PinNotExpressible(column: string)
    | NotOnlyPins(keywords: set<string>)

  datatype Key = Key(fields: seq<KeyField>, nullFields: seq<NullField>, reasons: seq<Reason>) {
    predicate Usable() {
      reasons == []
    }
  }

  function FieldFor(c: KeyColumn, filters: Filters, fieldTypes: map<string, string>): KeyField {
    KeyField(c.column, c.lookup, ResolveParam(c.column, c.lookup, filters, fieldTypes))
  }

  function PinFor(column: string, filters: Filters, fieldTypes: map<string, string>): NullField {
    var p := ResolveParam(column, "empty", filters, fieldTypes);
    NullField(column, p, p.Some? && Registered(p.value, filters) == Suffixed("isnull"))
  }

  function FieldsFor(cols: seq<KeyColumn>, filters: Filters, fieldTypes: map<string, string>): seq<KeyField> {
    seq(|cols|, i requires 0 <= i < |cols| => FieldFor(cols[i], filters, fieldTypes))
  }

  function PinsFor(pins: seq<string>, filters: Filters, fieldTypes: map<string, string>): seq<NullField> {
    seq(|pins|, i requires 0 <= i < |pins| => PinFor(Stripped(pins[i]), filters, fieldTypes))
  }

  /** One reason a column without a parameter, in order. */
  function FieldReasons(fields: seq<KeyField>): seq<Reason> {
    if fields == [] then []
    else
      var last := fields[|fields| - 1];
      FieldReasons(fields[..|fields| - 1]) + if last.param.None? then [NoParameter(last.column, last.lookup)] else []
  }

  function PinReasons(nullFields: seq<NullField>): seq<Reason> {
    if nullFields == [] then []
    else
      var last := nullFields[|nullFields| - 1];
      PinReasons(nullFields[..|nullFields| - 1]) + if last.param.None? then [PinNotExpressible(last.column)] else []
  }

  function OtherReasons(other: seq<string>): seq<Reason> {
    if other == [] then [] else [NotOnlyPins(set a | a in other)]
  }

  method FieldsOf(cols: seq<KeyColumn>, filters: Filters, fieldTypes: map<string, string>)
    returns (fields: seq<KeyField>, reasons: seq<Reason>)
    ensures fields == FieldsFor(cols, filters, fieldTypes) && reasons == FieldReasons(fields)
  {
    hide ResolveParam;
    fields, reasons := [], [];
    for i := 0 to |cols|
      invariant fields == FieldsFor(cols, filters, fieldTypes)[..i] && reasons == FieldReasons(fields)
    {
      var p := ResolveParam(cols[i].column, cols[i].lookup, filters, fieldTypes);
      ghost var before := fields;
      fields := fields + [KeyField(cols[i].column, cols[i].lookup, p)];
      assert fields[..|fields| - 1] == before;
      if p.None? {
        reasons := reasons + [NoParameter(cols[i].column, cols[i].lookup)];
      }
    }
  }

  lemma NextPin(pins: seq<string>, i: nat, filters: Filters, fieldTypes: map<string, string>)
    requires i < |pins|
    ensures var done := PinsFor(pins, filters, fieldTypes);
            var f := PinFor(Stripped(pins[i]), filters, fieldTypes);
            && |done| == |pins| && done[..i + 1] == done[..i] + [f]
            && PinReasons(done[..i] + [f])
               == PinReasons(done[..i]) + if f.param.None? then [PinNotExpressible(f.column)] else []
  {
    hide PinFor, Stripped;
    var done, f := PinsFor(pins, filters, fieldTypes), PinFor(Stripped(pins[i]), filters, fieldTypes);
    assert (done[..i] + [f])[..i] == done[..i];
  }

  method PinsOf(pins: seq<string>, filters: Filters, fieldTypes: map<string, string>)
    returns (nullFields: seq<NullField>, reasons: seq<Reason>)
    ensures nullFields == PinsFor(pins, filters, fieldTypes) && reasons == PinReasons(nullFields)
  {
    hide ResolveParam, Registered, Stripped, PinReasons;
    nullFields, reasons := [], [];
    assert PinReasons([]) == [] by {
      NoPinReasons([]);
    }
    for i := 0 to |pins|
      invariant nullFields == PinsFor(pins, filters, fieldTypes)[..i] && reasons == PinReasons(nullFields)
    {
      NextPin(pins, i, filters, fieldTypes);
      var column := Stripped(pins[i]);
      var p := ResolveParam(column, "empty", filters, fieldTypes);
      if p.None? {
        reasons := reasons + [PinNotExpressible(column)];
        nullFields := nullFields + [NullField(column, None, false)];
      } else {
        nullFields := nullFields + [NullField(column, p, Registered(p.value, filters) == Suffixed("isnull"))];
      }
    }
  }

  /** The key a constraint is given: a field a column and a null field a pin, in the order met, with
      every reason against using it. */
  function KeyOf(c: Constraint, filters: Filters, fieldTypes: map<string, string>): Key {
    var fields := FieldsFor(ColumnsOf(c), filters, fieldTypes);
    if c.condition.None? then Key(fields, [], FieldReasons(fields))
    else
      var met := MetIn(c.condition.value);
      var nullFields := PinsFor(Pins(met), filters, fieldTypes);
      Key(fields, nullFields, FieldReasons(fields) + PinReasons(nullFields) + OtherReasons(Others(met)))
  }

  /** Lines 349-392 for one constraint. */
  method NaturalKey(c: Constraint, filters: Filters, fieldTypes: map<string, string>) returns (key: Key)
    ensures key == KeyOf(c, filters, fieldTypes)
  {
    hide FieldsFor, PinsFor, FieldReasons, PinReasons, MetIn, Pins, Others;
    var cols, _ := KeyColumns(c);
    var fields, reasons := FieldsOf(cols, filters, fieldTypes);
    key := Key(fields, [], reasons);
    if c.condition.Some? {
      var pins, other := NullPins(c.condition.value);
      var nullFields, more := PinsOf(pins, filters, fieldTypes);
      reasons := reasons + more;
      if other != [] {
        reasons := reasons + [NotOnlyPins(set a | a in other)];
      }
      key := Key(fields, nullFields, reasons);
    }
  }

  lemma {:induction false} NoFieldReasons(fields: seq<KeyField>)
    ensures FieldReasons(fields) == [] <==> forall f | f in fields :: f.param.Some?
  {
    if fields != [] {
      NoFieldReasons(fields[..|fields| - 1]);
      assert fields == fields[..|fields| - 1] + [fields[|fields| - 1]];
    }
  }

  lemma {:induction false} NoPinReasons(nullFields: seq<NullField>)
    ensures PinReasons(nullFields) == [] <==> forall f | f in nullFields :: f.param.Some?
  {
    if nullFields != [] {
      NoPinReasons(nullFields[..|nullFields| - 1]);
      assert nullFields == nullFields[..|nullFields| - 1] + [nullFields[|nullFields| - 1]];
    }
  }

  /** The null fields of a key are those of the pins its condition writes, wherever it writes them. */
  lemma NullFieldsMean(c: Constraint, filters: Filters, fieldTypes: map<string, string>)
    requires c.condition.Some?
    ensures forall f :: f in KeyOf(c, filters, fieldTypes).nullFields <==>
      exists k :: k in Keywords(c.condition.value) && IsPin(k) && f == PinFor(Stripped(k.arg), filters, fieldTypes)
  {
    hide PinFor, IsPin, Keywords, MetIn, Pins, Stripped, FieldsFor, FieldReasons, PinReasons, Others;
    var met := MetIn(c.condition.value);
    var pins := Pins(met);
    var nullFields := PinsFor(pins, filters, fieldTypes);
    WalkMeetsEveryKeyword(c.condition.value);
    PinsMean(met);
    forall f | f in nullFields
      ensures exists k :: k in met && IsPin(k) && f == PinFor(Stripped(k.arg), filters, fieldTypes)
    {
      var i :| 0 <= i < |nullFields| && nullFields[i] == f;
      assert pins[i] in pins;
    }
    forall k | k in met && IsPin(k) ensures PinFor(Stripped(k.arg), filters, fieldTypes) in nullFields {
      assert k.arg in pins;
      var i :| 0 <= i < |pins| && pins[i] == k.arg;
      assert nullFields[i] in nullFields;
    }
  }

  /** A key is usable exactly when every column and every pin has a parameter and each keyword of the
      condition says that some column is null. What was not understood of the constraint does not
      count against it. */
  lemma UsableIff(c: Constraint, filters: Filters, fieldTypes: map<string, string>)
    ensures var key := KeyOf(c, filters, fieldTypes);
            key.Usable() <==>
              && (forall f | f in key.fields :: f.param.Some?)
              && (forall f | f in key.nullFields :: f.param.Some?)
              && (c.condition.Some? ==> forall k | k in Keywords(c.condition.value) :: SaysSomeNull(k))
    ensures KeyOf(c, filters, fieldTypes).Usable() ==> (c.condition.Some? ==> OnlyPins(c.condition.value))
  {
    if c.condition.Some? {
      OnlyPinsIff(c.condition.value);
    }
    hide SaysSomeNull, MetIn, FieldsFor, PinsFor, Keywords, IsPin, Pins, Others, FieldReasons, PinReasons;
    var key := KeyOf(c, filters, fieldTypes);
    NoFieldReasons(key.fields);
    NoPinReasons(key.nullFields);
    if c.condition.Some? {
      WalkMeetsEveryKeyword(c.condition.value);
      PinsMean(MetIn(c.condition.value));
    }
  }

  /** So `device__isnull=False`, or any other keyword not given True, leaves no usable key. */
  lemma NotTrueStopsTheKey(c: Constraint, filters: Filters, fieldTypes: map<string, string>, k: Keyword)
    requires c.condition.Some? && k in Keywords(c.condition.value) && k.value != IsTrue
    ensures !KeyOf(c, filters, fieldTypes).Usable()
  {
    UsableIff(c, filters, fieldTypes);
    hide KeyOf;
  }

  /** Meta.constraints: absent, not parseable, or the constraints it lists. */
  datatype Constraints = NoConstraints | Unparsed | Parsed(constraints: seq<Constraint>)

  /** Meta.unique_together: absent, not a literal, one group of columns, or several. */
  datatype Together = NoTogether | NotALiteral | OneGroup(group: seq<string>) | Groups(groups: seq<seq<string>>)

  function GroupConstraints(groups: seq<seq<string>>): seq<Constraint> {
    seq(|groups|, i requires 0 <= i < |groups| => Constraint([], LiteralFields(groups[i]), None))
  }

  /** Every constraint a key is derived for: Meta.constraints first, then unique_together. */
  function Calls(cs: Constraints, ts: Together): seq<Constraint> {
    (if cs.Parsed? then cs.constraints else [])
    + match ts
      case NoTogether => []
      case NotALiteral => []
      case OneGroup(g) => GroupConstraints([g])
      case Groups(gs) => GroupConstraints(gs)
  }

  /** A key for each parsed constraint, in order, then one for each group of columns, a plain one each. */
  lemma CallsMean(cs: Constraints, ts: Together)
    ensures var own := if cs.Parsed? then cs.constraints else [];
            var groups := if ts.Groups? then ts.groups else if ts.OneGroup? then [ts.group] else [];
            && |Calls(cs, ts)| == |own| + |groups|
            && (forall i | 0 <= i < |own| :: Calls(cs, ts)[i] == own[i])
            && forall i | 0 <= i < |groups| ::
                 Calls(cs, ts)[|own| + i].args == [] && Calls(cs, ts)[|own| + i].condition == None
                 && Calls(cs, ts)[|own| + i].fields == LiteralFields(groups[i])
  {
  }

  /** `natural_keys`: one entry for each constraint, in order; a source that cannot be read adds a
      note and no entry. */
  method NaturalKeysOf(cs: Constraints, ts: Together, filters: Filters, fieldTypes: map<string, string>)
    returns (keys: seq<Key>, notes: nat)
    ensures |keys| == |Calls(cs, ts)|
    ensures forall i | 0 <= i < |keys| :: keys[i] == KeyOf(Calls(cs, ts)[i], filters, fieldTypes)
    ensures notes == (if cs.Unparsed? then 1 else 0) + if ts.NotALiteral? then 1 else 0
  {
    hide KeyOf;
    keys, notes := [], 0;
    if cs.Unparsed? {
      notes := notes + 1;
    }
    if ts.NotALiteral? {
      notes := notes + 1;
    }
    var calls := Calls(cs, ts);
    for i := 0 to |calls|
      invariant |keys| == i && forall j | 0 <= j < i :: keys[j] == KeyOf(calls[j], filters, fieldTypes)
    {
      var key := NaturalKey(calls[i], filters, fieldTypes);
      keys := keys + [key];
    }
  }

  // ---- The query never widens ---------------------------------------------------------------------------

  /** The parameters a key sends: one a column, one a null pin. */
  function Terms(key: Key): seq<string> {
    FieldTerms(key.fields) + PinTerms(key.nullFields)
  }

  function FieldTerms(fields: seq<KeyField>): seq<string> {
    if fields == [] then []
    else (if fields[0].param.Some? then [fields[0].param.value] else []) + FieldTerms(fields[1..])
  }

  function PinTerms(fields: seq<NullField>): seq<string> {
    if fields == [] then []
    else (if fields[0].param.Some? then [fields[0].param.value] else []) + PinTerms(fields[1..])
  }

  /** What the server returns: it ignores every parameter it does not register. */
  ghost function Answer<R>(rows: set<R>, terms: seq<string>, filters: Filters, matching: map<string, set<R>>): set<R> {
    set r |
      r in rows
      && forall t | t in terms && Registered(t, filters) != Unregistered :: t in matching && r in matching[t]
  }

  ghost function Asked<R>(rows: set<R>, terms: seq<string>, matching: map<string, set<R>>): set<R> {
    set r | r in rows && forall t | t in terms :: t in matching && r in matching[t]
  }

  lemma ResolvedIsRegistered(column: string, lookup: string, filters: Filters, fieldTypes: map<string, string>)
    ensures var p := ResolveParam(column, lookup, filters, fieldTypes);
            p.Some? ==> Registered(p.value, filters) != Unregistered
  {
    ResolvedParamIsRegistered(column, lookup, filters, fieldTypes);
  }

  lemma {:induction false} FieldTermsRegistered(cols: seq<KeyColumn>, filters: Filters, fieldTypes: map<string, string>)
    ensures var fields := FieldsFor(cols, filters, fieldTypes);
            && (forall t | t in FieldTerms(fields) :: Registered(t, filters) != Unregistered)
            && ((forall f | f in fields :: f.param.Some?) ==> |FieldTerms(fields)| == |fields|)
  {
    hide ResolveParam, Registered;
    var fields := FieldsFor(cols, filters, fieldTypes);
    if cols != [] {
      ResolvedIsRegistered(cols[0].column, cols[0].lookup, filters, fieldTypes);
      FieldTermsRegistered(cols[1..], filters, fieldTypes);
      assert fields[1..] == FieldsFor(cols[1..], filters, fieldTypes);
      assert fields[0] in fields;
    }
  }

  lemma {:induction false} PinTermsRegistered(pins: seq<string>, filters: Filters, fieldTypes: map<string, string>)
    ensures var fields := PinsFor(pins, filters, fieldTypes);
            && (forall t | t in PinTerms(fields) :: Registered(t, filters) != Unregistered)
            && ((forall f | f in fields :: f.param.Some?) ==> |PinTerms(fields)| == |fields|)
  {
    hide ResolveParam, Registered, Stripped;
    var fields := PinsFor(pins, filters, fieldTypes);
    if pins != [] {
      ResolvedIsRegistered(Stripped(pins[0]), "empty", filters, fieldTypes);
      PinTermsRegistered(pins[1..], filters, fieldTypes);
      assert fields[1..] == PinsFor(pins[1..], filters, fieldTypes);
      assert fields[0] in fields;
    }
  }

  /** A usable key asks one registered question for each column and each null pin, so a server that
      ignores what it does not register answers all that was sent, whatever the rows are. */
  lemma UsableKeyNeverWidens<R>(c: Constraint, filters: Filters, fieldTypes: map<string, string>,
                                rows: set<R>, matching: map<string, set<R>>)
    requires KeyOf(c, filters, fieldTypes).Usable()
    ensures var key := KeyOf(c, filters, fieldTypes);
            && |Terms(key)| == |ColumnsOf(c)| + |key.nullFields|
            && (forall t | t in Terms(key) :: Registered(t, filters) != Unregistered)
            && Answer(rows, Terms(key), filters, matching) == Asked(rows, Terms(key), matching)
  {
    UsableIff(c, filters, fieldTypes);
    FieldTermsRegistered(ColumnsOf(c), filters, fieldTypes);
    if c.condition.Some? {
      PinTermsRegistered(Pins(MetIn(c.condition.value)), filters, fieldTypes);
    }
  }

  /** Dropping is the only way to widen: the answers agree for every table of rows exactly when
      every parameter sent is registered. */
  lemma WidensIffUnregistered(terms: seq<string>, filters: Filters)
    ensures (forall t | t in terms :: Registered(t, filters) != Unregistered) <==>
      forall rows: set<int>, matching: map<string, set<int>> ::
        Answer(rows, terms, filters, matching) == Asked(rows, terms, matching)
  {
    if t :| t in terms && Registered(t, filters) == Unregistered {
      var matching: map<string, set<int>> := map p | p in terms :: if p == t then {} else {0};
      assert 0 in Answer({0}, terms, filters, matching);
      assert 0 !in Asked({0}, terms, matching);
    }
  }

  // ---- What was left behind -----------------------------------------------------------------------------

  function Parts(c: Constraint): nat {
    |c.args| + match c.fields case NoFields => 0 case LiteralFields(columns) => |columns| case NotLiteral => 1
  }

  lemma {:induction false} ArgsCover(args: seq<Arg>)
    ensures |ArgColumns(args)| <= |args|
    ensures |ArgColumns(args)| == |args| <==> OtherArg !in args
  {
    if args != [] {
      ArgsCover(args[..|args| - 1]);
      assert args == args[..|args| - 1] + [args[|args| - 1]];
    }
  }

  /** The columns of a constraint stand for all its parts exactly when each part was understood. */
  lemma ColumnsCoverIffUnderstood(c: Constraint)
    ensures |ColumnsOf(c)| <= Parts(c)
    ensures |ColumnsOf(c)| == Parts(c) <==> Understood(c)
  {
    ArgsCover(c.args);
  }

  /** A usable key sends a term for every part of its constraint exactly when each part was
      understood; otherwise it sends fewer, and says nothing. */
  lemma UsableKeyCoversIffUnderstood(c: Constraint, filters: Filters, fieldTypes: map<string, string>)
    requires KeyOf(c, filters, fieldTypes).Usable()
    ensures var key := KeyOf(c, filters, fieldTypes);
            && |Terms(key)| <= Parts(c) + |key.nullFields|
            && (|Terms(key)| == Parts(c) + |key.nullFields| <==> Understood(c))
  {
    UsableKeyNeverWidens<int>(c, filters, fieldTypes, {}, map[]);
    ColumnsCoverIffUnderstood(c);
  }

  /** A constraint on one expression that is not understood: its key is usable, sends nothing, and
      every row answers it. */
  lemma LostExpressionMatchesEverything<R>(filters: Filters, fieldTypes: map<string, string>, rows: set<R>,
                                           matching: map<string, set<R>>)
    ensures var key := KeyOf(Constraint([OtherArg], NoFields, None), filters, fieldTypes);
            key.Usable() && Terms(key) == [] && Answer(rows, Terms(key), filters, matching) == rows
  {
    var c := Constraint([OtherArg], NoFields, None);
    assert [OtherArg][..0] == [];
    assert ColumnsOf(c) == [];
    UsableIff(c, filters, fieldTypes);
  }

  /** ~ does not show in a key, and | looks like &. */
  lemma OperatorsDoNotShow(c: Constraint, l: Cond, r: Cond, filters: Filters, fieldTypes: map<string, string>)
    ensures KeyOf(c.(condition := Some(Not(l))), filters, fieldTypes)
            == KeyOf(c.(condition := Some(l)), filters, fieldTypes)
    ensures KeyOf(c.(condition := Some(Or(l, r))), filters, fieldTypes)
            == KeyOf(c.(condition := Some(And(l, r))), filters, fieldTypes)
    ensures !(TakesOnlyAllNull(l) && TakesOnlyAllNull(Not(l)))
  {
    SameChildren(Not(l), l, Or(l, r), And(l, r));
    hide KeyOf, KeywordHolds;
    assert Pinned(Not(l)) == Pinned(l) <= Tested(l) == Tested(Not(l));
    assert Holds(Not(l), Pinned(l), {}) == !Holds(l, Pinned(l), {});
  }
}
