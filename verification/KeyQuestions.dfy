/** hack/build-netbox-ir.py:147-237 and 274-393 together: what a natural key's query asks of a row,
    read off the filters behind its parameters, and when that is what the constraint says. */
module KeyQuestions {
  import opened Options
  import opened ParamSplit
  import opened Conditions
  import opened NaturalKeys

  // ---- What a parameter asks ----------------------------------------------------------------------------

  /** A column under an ORM lookup, or something only the filter's own method knows. */
  datatype Question = Asks(column: string, lookup: string) | AsksOtherwise

  function Plain(s: Source, lookup: string): Question {
    if s.filterMethod.Some? then AsksOtherwise else Asks(s.column, lookup)
  }

  /** The suffixes a key appends. */
  const KEY_SUFFIXES: set<string> := {"ie", "empty"}

  /** The question behind a registered parameter: its filter's own, or the one its suffix puts to the
      column of the filter it is appended to. */
  function QuestionOf(param: string, filters: Filters): Question {
    if param in filters then Plain(filters[param].source, filters[param].source.lookupExpr)
    else
      var (head, suffix) := RPartition(param);
      var v := Registered(param, filters);
      if v.Suffixed? && suffix in KEY_SUFFIXES then Plain(filters[head].source, v.orm) else AsksOtherwise
  }

  /** The name of a model's column, or of the database column behind a relation. */
  predicate Names(name: string, column: string, fieldTypes: map<string, string>) {
    name == column || (SpelledWithId(column, fieldTypes) && name == column + "_id")
  }

  predicate IsAbout(q: Question, column: string, lookup: string, fieldTypes: map<string, string>) {
    q.Asks? && Names(q.column, column, fieldTypes) && q.lookup == lookup
  }

  function LookupFor(keyLookup: string): string {
    if keyLookup == "" then "exact" else "iexact"
  }

  /** The field's parameter asks for its column, folded or not as the constraint has it. */
  predicate FieldFits(f: KeyField, filters: Filters, fieldTypes: map<string, string>) {
    f.param.Some? && IsAbout(QuestionOf(f.param.value, filters), f.column, LookupFor(f.lookup), fieldTypes)
  }

  /** The pin's parameter puts the given question to its column: "isnull" is SQL NULL, "empty" the
      empty string. */
  predicate PinAsks(f: NullField, lookup: string, filters: Filters, fieldTypes: map<string, string>) {
    f.param.Some? && IsAbout(QuestionOf(f.param.value, filters), f.column, lookup, fieldTypes)
  }

  predicate AllFit(key: Key, filters: Filters, fieldTypes: map<string, string>) {
    forall f | f in key.fields :: FieldFits(f, filters, fieldTypes)
  }

  predicate AllAskNull(key: Key, filters: Filters, fieldTypes: map<string, string>) {
    forall f | f in key.nullFields :: PinAsks(f, "isnull", filters, fieldTypes)
  }

  // ---- Rows ---------------------------------------------------------------------------------------------

  /** A part of a constraint that a row can agree with: a column, letter case included or not, or
      whatever was not understood. */
  datatype Part = Exactly(column: string) | Folded(column: string) | PartNotUnderstood

  /** A row as a query sees it: the parts on which it agrees with the values looked for, its null
      columns, its columns that hold the empty string, which is another thing, the parameters it
      answers whose question is none of these, and the keywords of a condition that it meets. */
  datatype Row = Row(
    agrees: set<Part>,
    nulls: set<string>,
    empties: set<string>,
    otherwise: set<string>,
    met: set<Keyword>)
  {
    predicate Valid() {
      nulls !! empties
    }
  }

  /** What a positional expression of a constraint is about: Lower and Upper fold case. */
  predicate ArgHolds(a: Arg, row: Row) {
    match a
    case ColumnArg(column) => Exactly(column) in row.agrees
    case FoldArg(column) => Folded(column) in row.agrees
    case OtherArg => PartNotUnderstood in row.agrees
  }

  predicate FieldsHold(f: FieldsArg, row: Row) {
    match f
    case NoFields => true
    case LiteralFields(columns) => forall column | column in columns :: Exactly(column) in row.agrees
    case NotLiteral => PartNotUnderstood in row.agrees
  }

  /** The rows the constraint is about. */
  ghost predicate ConstraintHolds(c: Constraint, row: Row) {
    && (forall a | a in c.args :: ArgHolds(a, row))
    && FieldsHold(c.fields, row)
    && (c.condition.Some? ==> Holds(c.condition.value, row.nulls, row.met))
  }

  function AskedPart(q: Question, column: string): Part {
    if q.Asks? && q.lookup == "exact" then Exactly(column) else Folded(column)
  }

  /** A filter that fits asks for its column, exactly or folded. */
  predicate FieldHolds(f: KeyField, filters: Filters, fieldTypes: map<string, string>, row: Row) {
    f.param.Some? ==>
      if FieldFits(f, filters, fieldTypes) then
        AskedPart(QuestionOf(f.param.value, filters), f.column) in row.agrees
      else f.param.value in row.otherwise
  }

  predicate PinHolds(f: NullField, filters: Filters, fieldTypes: map<string, string>, row: Row) {
    f.param.Some? ==>
      if PinAsks(f, "isnull", filters, fieldTypes) then f.column in row.nulls
      else if PinAsks(f, "empty", filters, fieldTypes) then f.column in row.empties
      else f.param.value in row.otherwise
  }

  predicate PinsAllHold(key: Key, filters: Filters, fieldTypes: map<string, string>, row: Row) {
    forall f | f in key.nullFields :: PinHolds(f, filters, fieldTypes, row)
  }

  /** The rows the key's query is answered with. */
  predicate KeyHolds(key: Key, filters: Filters, fieldTypes: map<string, string>, row: Row) {
    && (forall f | f in key.fields :: FieldHolds(f, filters, fieldTypes, row))
    && PinsAllHold(key, filters, fieldTypes, row)
  }

  ghost predicate AsksTheConstraint(c: Constraint, filters: Filters, fieldTypes: map<string, string>) {
    forall row: Row | row.Valid() ::
      KeyHolds(KeyOf(c, filters, fieldTypes), filters, fieldTypes, row) <==> ConstraintHolds(c, row)
  }

  // ---- The parts of a constraint, by column ------------------------------------------------------------------

  function PartOf(c: KeyColumn): Part {
    if c.lookup == "" then Exactly(c.column) else Folded(c.column)
  }

  predicate AgreesOn(cols: seq<KeyColumn>, row: Row) {
    forall c | c in cols :: PartOf(c) in row.agrees
  }

  lemma {:induction false} ArgColumnsAgree(args: seq<Arg>, row: Row)
    ensures (forall a | a in args :: ArgHolds(a, row)) <==>
      AgreesOn(ArgColumns(args), row) && (OtherArg in args ==> PartNotUnderstood in row.agrees)
  {
    if args != [] {
      var front, last := args[..|args| - 1], args[|args| - 1];
      assert args == front + [last];
      assert forall a :: a in args <==> a in front || a == last;
      ArgColumnsAgree(front, row);
      var tail := ArgColumns(args)[|ArgColumns(front)|..];
      assert ArgColumns(args) == ArgColumns(front) + tail;
      AgreesOnBoth(ArgColumns(front), tail, row);
      hide AgreesOn;
      OneArgAgrees(last, tail, row);
    }
  }

  lemma OneArgAgrees(a: Arg, cols: seq<KeyColumn>, row: Row)
    requires a.ColumnArg? ==> cols == [KeyColumn(a.column, "")]
    requires a.FoldArg? ==> cols == [KeyColumn(a.column, "ie")]
    requires a.OtherArg? ==> cols == []
    ensures ArgHolds(a, row) <==> AgreesOn(cols, row) && (a == OtherArg ==> PartNotUnderstood in row.agrees)
  {
    assert forall c | c in cols :: c == cols[0];
    assert cols != [] ==> cols[0] in cols;
  }

  lemma PlainColumnsAgree(columns: seq<string>, row: Row)
    ensures (forall column | column in columns :: Exactly(column) in row.agrees) <==>
      AgreesOn(PlainColumns(columns), row)
  {
    var cols := PlainColumns(columns);
    if AgreesOn(cols, row) {
      forall column | column in columns ensures Exactly(column) in row.agrees {
        var i :| 0 <= i < |columns| && columns[i] == column;
        assert cols[i] in cols;
      }
    }
  }

  /** A row is one the constraint is about when it agrees on its columns and on what was not understood. */
  lemma ConstraintHoldsIff(c: Constraint, row: Row)
    ensures ConstraintHolds(c, row) <==>
      && AgreesOn(ColumnsOf(c), row)
      && (!Understood(c) ==> PartNotUnderstood in row.agrees)
      && (c.condition.Some? ==> Holds(c.condition.value, row.nulls, row.met))
  {
    hide Holds;
    ArgColumnsAgree(c.args, row);
    if c.fields.LiteralFields? {
      PlainColumnsAgree(c.fields.columns, row);
    }
    AgreesOnBoth(ArgColumns(c.args), if c.fields.LiteralFields? then PlainColumns(c.fields.columns) else [], row);
  }

  lemma AgreesOnBoth(a: seq<KeyColumn>, b: seq<KeyColumn>, row: Row)
    ensures AgreesOn(a + b, row) <==> AgreesOn(a, row) && AgreesOn(b, row)
  {
  }

  // ---- The fields and pins of a key, by column -------------------------------------------------------------

  lemma FieldsAreColumns(c: Constraint, filters: Filters, fieldTypes: map<string, string>)
    ensures var fields := KeyOf(c, filters, fieldTypes).fields;
            && (forall f | f in fields :: KeyColumn(f.column, f.lookup) in ColumnsOf(c))
            && forall col | col in ColumnsOf(c) :: FieldFor(col, filters, fieldTypes) in fields
  {
    hide ResolveParam, MetIn, Pins, Others, FieldReasons, PinReasons, PinsFor, ColumnsOf;
    var cols, fields := ColumnsOf(c), KeyOf(c, filters, fieldTypes).fields;
    assert fields == FieldsFor(cols, filters, fieldTypes);
    forall col | col in cols ensures FieldFor(col, filters, fieldTypes) in fields {
      var i :| 0 <= i < |cols| && cols[i] == col;
      assert fields[i] in fields;
    }
  }

  lemma ColumnOfPin(column: string, filters: Filters, fieldTypes: map<string, string>)
    ensures PinFor(column, filters, fieldTypes).column == column
  {
  }

  /** A usable key has one null field a pinned column, and it is told by that column. */
  lemma PinsAreColumns(c: Constraint, filters: Filters, fieldTypes: map<string, string>)
    requires KeyOf(c, filters, fieldTypes).Usable() && c.condition.Some?
    ensures var pins := KeyOf(c, filters, fieldTypes).nullFields;
            && (forall f | f in pins ::
                  f.column in Pinned(c.condition.value) && f == PinFor(f.column, filters, fieldTypes))
            && forall p | p in Pinned(c.condition.value) :: PinFor(p, filters, fieldTypes) in pins
  {
    UsableIff(c, filters, fieldTypes);
    NullFieldsMean(c, filters, fieldTypes);
    var pins, cond := KeyOf(c, filters, fieldTypes).nullFields, c.condition.value;
    hide KeyOf, PinFor, IsPin, Stripped, Keywords;
    forall f | f in pins ensures f.column in Pinned(cond) && f == PinFor(f.column, filters, fieldTypes) {
      var k :| k in Keywords(cond) && IsPin(k) && f == PinFor(Stripped(k.arg), filters, fieldTypes);
      ColumnOfPin(Stripped(k.arg), filters, fieldTypes);
    }
    forall p | p in Pinned(cond) ensures PinFor(p, filters, fieldTypes) in pins {
      var k :| k in Keywords(cond) && Stripped(k.arg) == p;
      assert IsPin(k);
    }
  }

  // ---- When every term fits ----------------------------------------------------------------------------------

  lemma FittingFieldsHold(c: Constraint, filters: Filters, fieldTypes: map<string, string>, row: Row)
    requires var key := KeyOf(c, filters, fieldTypes); key.Usable() && AllFit(key, filters, fieldTypes)
    ensures (forall f | f in KeyOf(c, filters, fieldTypes).fields :: FieldHolds(f, filters, fieldTypes, row)) <==>
      AgreesOn(ColumnsOf(c), row)
  {
    UsableIff(c, filters, fieldTypes);
    FieldsAreColumns(c, filters, fieldTypes);
    hide KeyOf, ColumnsOf, ResolveParam, QuestionOf, Names;
    var fields := KeyOf(c, filters, fieldTypes).fields;
    if forall f | f in fields :: FieldHolds(f, filters, fieldTypes, row) {
      forall col | col in ColumnsOf(c) ensures PartOf(col) in row.agrees {
        assert FieldHolds(FieldFor(col, filters, fieldTypes), filters, fieldTypes, row);
      }
    }
  }

  lemma FittingPinsHold(c: Constraint, filters: Filters, fieldTypes: map<string, string>, row: Row)
    requires var key := KeyOf(c, filters, fieldTypes); key.Usable() && AllAskNull(key, filters, fieldTypes)
    requires c.condition.Some?
    ensures PinsAllHold(KeyOf(c, filters, fieldTypes), filters, fieldTypes, row) <==>
      Pinned(c.condition.value) <= row.nulls
  {
    UsableIff(c, filters, fieldTypes);
    PinsAreColumns(c, filters, fieldTypes);
    hide KeyOf, PinFor, Pinned, PinAsks;
    var pins := KeyOf(c, filters, fieldTypes).nullFields;
    if PinsAllHold(KeyOf(c, filters, fieldTypes), filters, fieldTypes, row) {
      forall p | p in Pinned(c.condition.value) ensures p in row.nulls {
        ColumnOfPin(p, filters, fieldTypes);
        assert PinHolds(PinFor(p, filters, fieldTypes), filters, fieldTypes, row);
      }
    }
  }

  lemma FittingKeyAsks(c: Constraint, filters: Filters, fieldTypes: map<string, string>)
    requires KeyOf(c, filters, fieldTypes).Usable()
    requires Understood(c) && AllFit(KeyOf(c, filters, fieldTypes), filters, fieldTypes)
    requires c.condition.Some? ==>
      TakesOnlyAllNull(c.condition.value) && AllAskNull(KeyOf(c, filters, fieldTypes), filters, fieldTypes)
    ensures AsksTheConstraint(c, filters, fieldTypes)
  {
    NoPinsWithoutCondition(c, filters, fieldTypes);
    hide KeyOf, Understood, AgreesOn, ColumnsOf, Holds, AllFit, AllAskNull, Pinned, TakesOnlyAllNull, FieldHolds,
      PinsAllHold, ConstraintHolds;
    forall row: Row | row.Valid()
      ensures KeyHolds(KeyOf(c, filters, fieldTypes), filters, fieldTypes, row) <==> ConstraintHolds(c, row)
    {
      ConstraintHoldsIff(c, row);
      FittingFieldsHold(c, filters, fieldTypes, row);
      if c.condition.Some? {
        FittingPinsHold(c, filters, fieldTypes, row);
        MeansItsPinsIff(c.condition.value);
      }
    }
  }

  lemma NoPinsWithoutCondition(c: Constraint, filters: Filters, fieldTypes: map<string, string>)
    ensures c.condition.None? ==>
      forall row :: PinsAllHold(KeyOf(c, filters, fieldTypes), filters, fieldTypes, row)
  {
  }

  // ---- Rows that tell a key from its constraint -----------------------------------------------------------------

  function Params(key: Key): set<string> {
    (set f | f in key.fields && f.param.Some? :: f.param.value)
    + (set f | f in key.nullFields && f.param.Some? :: f.param.value)
  }

  function ColumnsAsking(key: Key, lookup: string, filters: Filters, fieldTypes: map<string, string>): set<string> {
    set f | f in key.nullFields && PinAsks(f, lookup, filters, fieldTypes) :: f.column
  }

  /** The row that agrees on the columns of the constraint and on nothing else. */
  function RowOf(c: Constraint, nulls: set<string>, empties: set<string>, otherwise: set<string>, met: set<Keyword>)
    : (row: Row)
    ensures AgreesOn(ColumnsOf(c), row) && PartNotUnderstood !in row.agrees
    ensures row.nulls == nulls && row.empties == empties && row.otherwise == otherwise && row.met == met
    ensures forall col | col in ColumnsOf(c) :: PartOf(col) in row.agrees
  {
    Row(set col | col in ColumnsOf(c) :: PartOf(col), nulls, empties, otherwise, met)
  }

  /** The row that answers everything a key sends and agrees on nothing it does not name. */
  function Sent(c: Constraint, filters: Filters, fieldTypes: map<string, string>): Row {
    var key := KeyOf(c, filters, fieldTypes);
    RowOf(c, ColumnsAsking(key, "isnull", filters, fieldTypes), ColumnsAsking(key, "empty", filters, fieldTypes),
          Params(key), {})
  }

  lemma RichRowAnswers(key: Key, filters: Filters, fieldTypes: map<string, string>, row: Row)
    requires forall f | f in key.fields :: PartOf(KeyColumn(f.column, f.lookup)) in row.agrees
    requires ColumnsAsking(key, "isnull", filters, fieldTypes) <= row.nulls
    requires ColumnsAsking(key, "empty", filters, fieldTypes) <= row.empties && Params(key) <= row.otherwise
    ensures KeyHolds(key, filters, fieldTypes, row)
  {
    hide QuestionOf, Names;
    forall f | f in key.fields ensures FieldHolds(f, filters, fieldTypes, row) {
      assert f.param.Some? ==> f.param.value in Params(key);
    }
    forall f | f in key.nullFields ensures PinHolds(f, filters, fieldTypes, row) {
      assert f.param.Some? ==> f.param.value in Params(key);
      forall lookup | PinAsks(f, lookup, filters, fieldTypes)
        ensures f.column in ColumnsAsking(key, lookup, filters, fieldTypes)
      {
      }
    }
  }

  lemma SentIsAnswered(c: Constraint, filters: Filters, fieldTypes: map<string, string>)
    requires KeyOf(c, filters, fieldTypes).Usable()
    ensures KeyHolds(KeyOf(c, filters, fieldTypes), filters, fieldTypes, Sent(c, filters, fieldTypes))
    ensures Sent(c, filters, fieldTypes).Valid()
  {
    FieldsAreColumns(c, filters, fieldTypes);
    OnePinAColumn(c, filters, fieldTypes);
    hide KeyOf, ColumnsOf, ColumnsAsking, Params, RowOf, KeyHolds;
    RichRowAnswers(KeyOf(c, filters, fieldTypes), filters, fieldTypes, Sent(c, filters, fieldTypes));
  }

  lemma OnePinAColumn(c: Constraint, filters: Filters, fieldTypes: map<string, string>)
    requires KeyOf(c, filters, fieldTypes).Usable()
    ensures var key := KeyOf(c, filters, fieldTypes);
            ColumnsAsking(key, "isnull", filters, fieldTypes) !! ColumnsAsking(key, "empty", filters, fieldTypes)
  {
    if c.condition.Some? {
      PinsAreColumns(c, filters, fieldTypes);
    }
    hide KeyOf, QuestionOf, PinFor, Pinned;
    assert c.condition.None? ==> KeyOf(c, filters, fieldTypes).nullFields == [];
  }

  lemma UnsentFits(c: Constraint, filters: Filters, fieldTypes: map<string, string>, nulls: set<string>)
    requires KeyOf(c, filters, fieldTypes).Usable()
    requires KeyHolds(KeyOf(c, filters, fieldTypes), filters, fieldTypes, RowOf(c, nulls, {}, {}, {}))
    ensures AllFit(KeyOf(c, filters, fieldTypes), filters, fieldTypes)
    ensures AllAskNull(KeyOf(c, filters, fieldTypes), filters, fieldTypes)
  {
    UsableIff(c, filters, fieldTypes);
    hide KeyOf, FieldFits, PinAsks, Holds;
    var key, row := KeyOf(c, filters, fieldTypes), RowOf(c, nulls, {}, {}, {});
    forall f | f in key.fields ensures FieldFits(f, filters, fieldTypes) {
      assert FieldHolds(f, filters, fieldTypes, row);
    }
    UnsentPinsFit(key, filters, fieldTypes, row);
  }

  lemma UnsentPinsFit(key: Key, filters: Filters, fieldTypes: map<string, string>, row: Row)
    requires forall f | f in key.nullFields :: f.param.Some?
    requires PinsAllHold(key, filters, fieldTypes, row) && row.empties == {} && row.otherwise == {}
    ensures AllAskNull(key, filters, fieldTypes)
  {
    hide PinAsks;
    forall f | f in key.nullFields ensures PinAsks(f, "isnull", filters, fieldTypes) {
      assert PinHolds(f, filters, fieldTypes, row);
    }
  }

  lemma AskingKeyFits(c: Constraint, filters: Filters, fieldTypes: map<string, string>)
    requires KeyOf(c, filters, fieldTypes).Usable() && AsksTheConstraint(c, filters, fieldTypes)
    ensures Understood(c) && AllFit(KeyOf(c, filters, fieldTypes), filters, fieldTypes)
    ensures c.condition.Some? ==>
      TakesOnlyAllNull(c.condition.value) && AllAskNull(KeyOf(c, filters, fieldTypes), filters, fieldTypes)
  {
    var sent := Sent(c, filters, fieldTypes);
    hide KeyOf, KeyHolds, Understood, AgreesOn, ColumnsOf, Holds, AllFit, AllAskNull, Pinned, RowOf, ColumnsAsking,
      Params, ConstraintHolds, Tested, Free;
    SentIsAnswered(c, filters, fieldTypes);
    ConstraintHoldsIff(c, sent);
    var unsent := RowOf(c, sent.nulls, {}, {}, {});
    ConstraintHoldsIff(c, unsent);
    assert ConstraintHolds(c, unsent);
    UnsentFits(c, filters, fieldTypes, sent.nulls);
    if c.condition.Some? {
      forall s: set<string>, o: set<Keyword> | s <= Tested(c.condition.value) && o <= Free(c.condition.value)
        ensures Holds(c.condition.value, s, o) <==> Pinned(c.condition.value) <= s
      {
        var row := RowOf(c, s, {}, {}, o);
        FittingPinsHold(c, filters, fieldTypes, row);
        FittingFieldsHold(c, filters, fieldTypes, row);
        KeyHoldsIff(KeyOf(c, filters, fieldTypes), filters, fieldTypes, row);
        ConstraintHoldsIff(c, row);
        assert KeyHolds(KeyOf(c, filters, fieldTypes), filters, fieldTypes, row) <==> ConstraintHolds(c, row);
      }
    }
  }

  lemma KeyHoldsIff(key: Key, filters: Filters, fieldTypes: map<string, string>, row: Row)
    ensures KeyHolds(key, filters, fieldTypes, row) <==>
      (forall f | f in key.fields :: FieldHolds(f, filters, fieldTypes, row))
      && PinsAllHold(key, filters, fieldTypes, row)
  {
  }

  /** A usable key asks exactly what its constraint says, of every row, if and only if every part was
      understood, each field's parameter is an exact (or folding) filter on its own column, each null
      field's asks whether its own column is NULL, and the condition takes only the rows where all its
      pinned columns are null. Usability promises none of the four. */
  lemma UsableKeyAsksTheConstraintIff(c: Constraint, filters: Filters, fieldTypes: map<string, string>)
    requires KeyOf(c, filters, fieldTypes).Usable()
    ensures var key := KeyOf(c, filters, fieldTypes);
            AsksTheConstraint(c, filters, fieldTypes) <==>
              && Understood(c)
              && AllFit(key, filters, fieldTypes)
              && (c.condition.Some? ==> TakesOnlyAllNull(c.condition.value) && AllAskNull(key, filters, fieldTypes))
  {
    UsableIff(c, filters, fieldTypes);
    hide *;
    var key := KeyOf(c, filters, fieldTypes);
    if Understood(c) && AllFit(key, filters, fieldTypes)
       && (c.condition.Some? ==> TakesOnlyAllNull(c.condition.value) && AllAskNull(key, filters, fieldTypes))
    {
      FittingKeyAsks(c, filters, fieldTypes);
    }
    if AsksTheConstraint(c, filters, fieldTypes) {
      AskingKeyFits(c, filters, fieldTypes);
    }
  }

  /** The pins sent hold of exactly the rows the condition holds of. */
  ghost predicate PinsAreTheCondition(key: Key, cond: Cond, filters: Filters, fieldTypes: map<string, string>)
  {
    forall row: Row | row.Valid() :: PinsAllHold(key, filters, fieldTypes, row) <==> Holds(cond, row.nulls, row.met)
  }

  lemma NullAskersAreTheCondition(c: Constraint, filters: Filters, fieldTypes: map<string, string>)
    requires KeyOf(c, filters, fieldTypes).Usable() && c.condition.Some?
    requires MeansItsPins(c.condition.value) && AllAskNull(KeyOf(c, filters, fieldTypes), filters, fieldTypes)
    ensures PinsAreTheCondition(KeyOf(c, filters, fieldTypes), c.condition.value, filters, fieldTypes)
  {
    hide KeyOf, Holds, AllAskNull, Pinned, PinsAllHold;
    forall row: Row | row.Valid()
      ensures PinsAllHold(KeyOf(c, filters, fieldTypes), filters, fieldTypes, row) <==>
        Holds(c.condition.value, row.nulls, row.met)
    {
      FittingPinsHold(c, filters, fieldTypes, row);
    }
  }

  lemma TheConditionIsNullAskers(c: Constraint, filters: Filters, fieldTypes: map<string, string>)
    requires KeyOf(c, filters, fieldTypes).Usable() && c.condition.Some?
    requires PinsAreTheCondition(KeyOf(c, filters, fieldTypes), c.condition.value, filters, fieldTypes)
    ensures AllAskNull(KeyOf(c, filters, fieldTypes), filters, fieldTypes)
  {
    UsableIff(c, filters, fieldTypes);
    hide KeyOf, Holds, AllAskNull, Pinned, PinsAllHold, Sent;
    var key, sent := KeyOf(c, filters, fieldTypes), Sent(c, filters, fieldTypes);
    SentIsAnswered(c, filters, fieldTypes);
    KeyHoldsIff(key, filters, fieldTypes, sent);
    var unsent := Row({}, sent.nulls, {}, {}, sent.met);
    assert PinsAllHold(key, filters, fieldTypes, sent) && Holds(c.condition.value, sent.nulls, sent.met);
    assert PinsAllHold(key, filters, fieldTypes, unsent) <==> Holds(c.condition.value, unsent.nulls, unsent.met);
    UnsentPinsFit(key, filters, fieldTypes, unsent);
  }

  /** For Q calls joined by &, the pins sent are the condition, of every row, exactly when each of
      them asks whether its own column is NULL. */
  lemma UsableNullFieldsAreTheCondition(c: Constraint, filters: Filters, fieldTypes: map<string, string>)
    requires KeyOf(c, filters, fieldTypes).Usable() && c.condition.Some? && Conjunctive(c.condition.value)
    ensures var key := KeyOf(c, filters, fieldTypes);
            PinsAreTheCondition(key, c.condition.value, filters, fieldTypes) <==> AllAskNull(key, filters, fieldTypes)
  {
    UsableIff(c, filters, fieldTypes);
    hide *;
    ConjunctionMeansItsPins(c.condition.value);
    if AllAskNull(KeyOf(c, filters, fieldTypes), filters, fieldTypes) {
      NullAskersAreTheCondition(c, filters, fieldTypes);
    }
    if PinsAreTheCondition(KeyOf(c, filters, fieldTypes), c.condition.value, filters, fieldTypes) {
      TheConditionIsNullAskers(c, filters, fieldTypes);
    }
  }

  /** The flag a null field carries looks at the suffix alone: a pin whose filter answers by a method
      or reads another column carries it too, and a hand-declared parameter never does. */
  lemma FlagIsHalfOfIt(column: string, filters: Filters, fieldTypes: map<string, string>)
    requires PinFor(column, filters, fieldTypes).param.Some?
    ensures var f := PinFor(column, filters, fieldTypes); var p := f.param.value;
            && (p in filters ==> !f.meansSqlNull)
            && (p !in filters ==>
                  RPartition(p).0 in filters
                  && (PinAsks(f, "isnull", filters, fieldTypes) <==>
                        f.meansSqlNull && filters[RPartition(p).0].source.filterMethod.None?
                        && Names(filters[RPartition(p).0].source.column, column, fieldTypes)))
  {
    hide StripUnderscores, Names, ResolveParam, RPartition;
    ResolvedParamIsRegistered(column, "empty", filters, fieldTypes);
    var bare := StripUnderscores(column);
    EmptySplitsOff(bare);
    EmptySplitsOff(bare + "_id");
    assert RPartition(PinFor(column, filters, fieldTypes).param.value).1 == "empty";
  }

  lemma EmptySplitsOff(head: string)
    ensures RPartition(WithLookup(head, "empty")) == (head, "empty")
  {
    LastDoubleMeans("empty");
    SplitRoundTrip(head, "empty");
  }

  // ---- Keys that are usable and ask something else ---------------------------------------------------------------

  const A_PIN := Keyword("a__isnull", IsTrue)

  const A_NULL := Q([A_PIN])

  /** A unique column `a`, wherever `condition` holds. */
  function OnA(condition: Cond): Constraint {
    Constraint([], LiteralFields(["a"]), Some(condition))
  }

  /** The one parameter `a`, with a filter s behind it whose `empty` suffix stands for the ORM lookup. */
  function FilterA(s: Source, orm: string): Filters {
    map["a" := Filter(s, Some(map["empty" := orm]), None)]
  }

  /** An exact filter on the column a. */
  const ON_A := Source(Some("MultiValueCharFilter"), "a", None, "exact")

  lemma ANullIsAPin()
    ensures Keywords(A_NULL) == [A_PIN] && IsPin(A_PIN) && Stripped("a__isnull") == "a"
    ensures Pinned(A_NULL) == {"a"} && OnlyPins(A_NULL) && TakesOnlyAllNull(A_NULL)
    ensures forall nulls, met :: Holds(A_NULL, nulls, met) <==> "a" in nulls
  {
    PinIffSaysNull(A_PIN);
    hide KeywordHolds;
    assert Stripped("a__isnull") == "a" && IsPin(A_PIN);
    hide EndsWith, Stripped;
    assert A_PIN in Keywords(A_NULL);
    assert forall nulls, met :: KeywordHolds(A_PIN, nulls, met) <==> "a" in nulls;
    assert forall nulls, met :: Holds(A_NULL, nulls, met) <==> KeywordHolds(A_PIN, nulls, met);
    ConjunctionMeansItsPins(A_NULL);
    MeansItsPinsIff(A_NULL);
  }

  lemma AResolves(s: Source, orm: string)
    ensures ResolveParam("a", "", FilterA(s, orm), map[]) == Some("a")
    ensures ResolveParam("a", "empty", FilterA(s, orm), map[]) == Some("a__empty")
    ensures Registered("a__empty", FilterA(s, orm)) == Suffixed(orm)
    ensures QuestionOf("a", FilterA(s, orm)) == Plain(s, s.lookupExpr)
    ensures QuestionOf("a__empty", FilterA(s, orm)) == Plain(s, orm)
  {
    LastDoubleMeans("empty");
    SplitRoundTrip("a", "empty");
    assert "a" + "__" + "empty" == "a__empty";
  }

  lemma KeyOnA(s: Source, orm: string)
    ensures var key := KeyOf(OnA(A_NULL), FilterA(s, orm), map[]);
            && key.Usable() && key.fields == [KeyField("a", "", Some("a"))]
            && key.nullFields == [NullField("a", Some("a__empty"), orm == "isnull")]
  {
    AResolves(s, orm);
    ANullIsAPin();
    assert ColumnsOf(OnA(A_NULL)) == [KeyColumn("a", "")];
    hide ResolveParam, Registered, IsPin, Stripped, Keywords, StripUnderscores, QuestionOf;
    assert PinFor("a", FilterA(s, orm), map[]) == NullField("a", Some("a__empty"), orm == "isnull");
    OnePin();
    OnlyPinsIff(A_NULL);
    UsableIff(OnA(A_NULL), FilterA(s, orm), map[]);
  }

  lemma OnePin()
    ensures Pins(MetIn(A_NULL)) == ["a__isnull"]
  {
    var k := A_PIN;
    ANullIsAPin();
    hide IsPin;
    assert [Expr(A_NULL)][1..] + Children(Expr(A_NULL)) == [Kw(k)];
    assert [Kw(k)][1..] + Children(Kw(k)) == [];
    assert Met([Kw(k)]) == [k] + Met([]);
    assert [k][1..] == [];
  }

  /** Whatever filter stands behind `a`, its key is usable; it asks for `a`, null rows of it, only when
      that is an exact filter on the column itself, with no method, whose `empty` is SQL NULL. */
  lemma KeyOnAAsksIff(s: Source, orm: string)
    ensures KeyOf(OnA(A_NULL), FilterA(s, orm), map[]).Usable() && OnlyPins(A_NULL)
    ensures AsksTheConstraint(OnA(A_NULL), FilterA(s, orm), map[]) <==>
      s.filterMethod.None? && s.column == "a" && s.lookupExpr == "exact" && orm == "isnull"
  {
    hide *;
    KeyOnA(s, orm);
    ANullIsAPin();
    OnAIsUnderstood();
    TermsOnA(s, orm, KeyOf(OnA(A_NULL), FilterA(s, orm), map[]));
    UsableKeyAsksTheConstraintIff(OnA(A_NULL), FilterA(s, orm), map[]);
  }

  lemma OnAIsUnderstood()
    ensures Understood(OnA(A_NULL)) && OnA(A_NULL).condition == Some(A_NULL)
  {
  }

  lemma TermsOnA(s: Source, orm: string, key: Key)
    requires key.fields == [KeyField("a", "", Some("a"))]
    requires key.nullFields == [NullField("a", Some("a__empty"), orm == "isnull")]
    ensures AllFit(key, FilterA(s, orm), map[]) <==>
      s.filterMethod.None? && s.column == "a" && s.lookupExpr == "exact"
    ensures AllAskNull(key, FilterA(s, orm), map[]) <==> s.filterMethod.None? && s.column == "a" && orm == "isnull"
  {
    hide QuestionOf, FilterA;
    AResolves(s, orm);
    assert key.fields[0] in key.fields && key.nullFields[0] in key.nullFields;
    assert !SpelledWithId("a", map[]);
  }

  lemma NullRowIsOnA(row: Row)
    requires row.agrees == {Exactly("a")} && row.nulls == {"a"}
    ensures ConstraintHolds(OnA(A_NULL), row)
  {
    ANullIsAPin();
    hide Holds;
  }

  lemma NullRowMissesEmptyPin(key: Key, row: Row)
    requires key.nullFields == [NullField("a", Some("a__empty"), false)] && row.empties == {} && row.otherwise == {}
    ensures !KeyHolds(key, FilterA(ON_A, "empty"), map[], row)
  {
    hide QuestionOf, FilterA, FieldHolds;
    AResolves(ON_A, "empty");
    assert key.nullFields[0] in key.nullFields;
  }

  /** The `empty` of a char filter is about the empty string: the key is usable, and misses the rows
      whose column is null. */
  lemma CharPinAsksAnotherQuestion()
    ensures var filters := FilterA(ON_A, "empty"); var key := KeyOf(OnA(A_NULL), filters, map[]);
            var row := Row({Exactly("a")}, {"a"}, {}, {}, {});
            && key.Usable() && OnlyPins(A_NULL) && TakesOnlyAllNull(A_NULL)
            && ConstraintHolds(OnA(A_NULL), row) && !KeyHolds(key, filters, map[], row)
  {
    hide *;
    var row := Row({Exactly("a")}, {"a"}, {}, {}, {});
    KeyOnA(ON_A, "empty");
    ANullIsAPin();
    NullRowIsOnA(row);
    NullRowMissesEmptyPin(KeyOf(OnA(A_NULL), FilterA(ON_A, "empty"), map[]), row);
  }

  lemma NegatedKey()
    ensures KeyOf(OnA(Not(A_NULL)), FilterA(ON_A, "isnull"), map[])
            == KeyOf(OnA(A_NULL), FilterA(ON_A, "isnull"), map[])
    ensures OnlyPins(Not(A_NULL)) && !TakesOnlyAllNull(Not(A_NULL)) && !Holds(Not(A_NULL), {"a"}, {})
  {
    ANullIsAPin();
    OperatorsDoNotShow(OnA(A_NULL), A_NULL, A_NULL, FilterA(ON_A, "isnull"), map[]);
    hide KeyOf, IsPin;
    assert Holds(Not(A_NULL), {"a"}, {}) == !Holds(A_NULL, {"a"}, {});
  }

  /** The key of a negated pin is usable, asks about SQL NULL, and finds the rows the constraint is
      not about. */
  lemma NegatedPinStaysUsable()
    ensures var c, filters := OnA(Not(A_NULL)), FilterA(ON_A, "isnull"); var key := KeyOf(c, filters, map[]);
            var row := Row({Exactly("a")}, {"a"}, {}, {}, {});
            && key.Usable() && AllAskNull(key, filters, map[]) && OnlyPins(Not(A_NULL))
            && !TakesOnlyAllNull(Not(A_NULL)) && !ConstraintHolds(c, row) && KeyHolds(key, filters, map[], row)
  {
    KeyOnA(ON_A, "isnull");
    NegatedKey();
    AResolves(ON_A, "isnull");
    hide KeyOf, QuestionOf, Holds, TakesOnlyAllNull, OnlyPins, Keywords;
  }

  /** `UniqueConstraint(Lower('a'))` over a filter with the `ie` suffix: the key sends `a__ie`, which asks
      for a without regard to case, as the constraint does. */
  lemma FoldedKeyAsks()
    ensures var c := Constraint([FoldArg("a")], NoFields, None);
            var filters: Filters := map["a" := Filter(ON_A, Some(map["ie" := "iexact"]), None)];
            var key := KeyOf(c, filters, map[]);
            && key.Usable() && Terms(key) == ["a__ie"] && AsksTheConstraint(c, filters, map[])
  {
    var c := Constraint([FoldArg("a")], NoFields, None);
    var filters: Filters := map["a" := Filter(ON_A, Some(map["ie" := "iexact"]), None)];
    FoldedResolves(filters);
    assert [FoldArg("a")][..0] == [];
    assert ColumnsOf(c) == [KeyColumn("a", "ie")];
    UsableIff(c, filters, map[]);
    UsableKeyAsksTheConstraintIff(c, filters, map[]);
    hide ResolveParam, QuestionOf, AsksTheConstraint;
    var key := KeyOf(c, filters, map[]);
    assert key.fields == [KeyField("a", "ie", Some("a__ie"))] && key.nullFields == [];
    assert key.fields[1..] == [];
    assert FieldTerms(key.fields) == ["a__ie"] && PinTerms(key.nullFields) == [];
    assert FieldFits(key.fields[0], filters, map[]);
    assert Understood(c);
  }

  lemma FoldedResolves(filters: Filters)
    requires filters == map["a" := Filter(ON_A, Some(map["ie" := "iexact"]), None)]
    ensures ResolveParam("a", "ie", filters, map[]) == Some("a__ie")
    ensures QuestionOf("a__ie", filters) == Asks("a", "iexact")
  {
    LastDoubleMeans("ie");
    SplitRoundTrip("a", "ie");
    assert "a" + "__" + "ie" == "a__ie";
  }

  /** `?location_id=` as racks have it: it answers for a location and everything below it. */
  const IN_LOCATION := Source(Some("TreeNodeMultipleChoiceFilter"), "location", None, "in")

  const ON_NAME := Source(Some("MultiValueCharFilter"), "name", None, "exact")

  const RACK_UNIQUE := Constraint([], LiteralFields(["location", "name"]), None)

  function RackFilters(): Filters {
    map["location_id" := Filter(IN_LOCATION, Some(map["n" := "in"]), None),
        "name" := Filter(ON_NAME, Some(map[]), None)]
  }

  function RackTypes(): map<string, string> {
    map["location" := "ForeignKey", "name" := "CharField"]
  }

  lemma RackKey()
    ensures var key := KeyOf(RACK_UNIQUE, RackFilters(), RackTypes());
            && key.Usable() && Understood(RACK_UNIQUE) && key.nullFields == []
            && key.fields == [KeyField("location", "", Some("location_id")), KeyField("name", "", Some("name"))]
    ensures ColumnsOf(RACK_UNIQUE) == [KeyColumn("location", ""), KeyColumn("name", "")]
  {
    assert ColumnsOf(RACK_UNIQUE) == [KeyColumn("location", ""), KeyColumn("name", "")];
    RackResolves(RackFilters(), RackTypes());
    hide ResolveParam;
    var key := KeyOf(RACK_UNIQUE, RackFilters(), RackTypes());
    assert key.fields == [KeyField("location", "", Some("location_id")), KeyField("name", "", Some("name"))];
    UsableIff(RACK_UNIQUE, RackFilters(), RackTypes());
  }

  /** The unique (location, name) of a rack gives a usable key without any pin. It does not ask the
      constraint: a rack of that name elsewhere, which the tree filter matches, answers it. */
  lemma TreeFilterKeyWidens()
    ensures var key := KeyOf(RACK_UNIQUE, RackFilters(), RackTypes());
            var row := Row({Exactly("name")}, {}, {}, {"location_id"}, {});
            && key.Usable() && Understood(RACK_UNIQUE)
            && KeyHolds(key, RackFilters(), RackTypes(), row) && !ConstraintHolds(RACK_UNIQUE, row)
            && !AsksTheConstraint(RACK_UNIQUE, RackFilters(), RackTypes())
  {
    RackKey();
    hide KeyOf, ColumnsOf, StripUnderscores, RPartition, Registered;
    var key := KeyOf(RACK_UNIQUE, RackFilters(), RackTypes());
    var row := Row({Exactly("name")}, {}, {}, {"location_id"}, {});
    assert QuestionOf("location_id", RackFilters()) == Asks("location", "in");
    assert QuestionOf("name", RackFilters()) == Asks("name", "exact");
    hide QuestionOf, RackFilters;
    assert "location" in RACK_UNIQUE.fields.columns;
    assert KeyHolds(key, RackFilters(), RackTypes(), row) && !ConstraintHolds(RACK_UNIQUE, row) && row.Valid();
  }

  lemma RackResolves(filters: Filters, types: map<string, string>)
    requires "location_id" in filters && "name" in filters && "location" in types && "name" in types
    requires types["location"] == "ForeignKey" && types["name"] == "CharField"
    ensures ResolveParam("location", "", filters, types) == Some("location_id")
    ensures ResolveParam("name", "", filters, types) == Some("name")
  {
    assert "location" + "_id" == "location_id";
  }
}
