/** hack/build-netbox-ir.py:258-272: the condition of a uniqueness constraint, the null pins read out
    of it, and when those pins are what the condition means. */
module Conditions {

  /** What a keyword is given: True, False, or anything else, literal or not. */
  datatype Value = IsTrue | IsFalse | Else(text: string)

  datatype Keyword = Keyword(arg: string, value: Value)

  /** A constraint's condition: calls of Q joined by &, | and ~. */
  datatype Cond =
    | Q(keywords: seq<Keyword>)
    | And(left: Cond, right: Cond)
    | Or(left: Cond, right: Cond)
    | Not(inner: Cond)

  const ISNULL := "__isnull"

  /** Every keyword of the condition, left to right. */
  function Keywords(c: Cond): seq<Keyword> {
    match c
    case Q(keywords) => keywords
    case And(l, r) => Keywords(l) + Keywords(r)
    case Or(l, r) => Keywords(l) + Keywords(r)
    case Not(x) => Keywords(x)
  }

  predicate EndsWith(s: string, end: string) {
    |s| >= |end| && s[|s| - |end|..] == end
  }

  predicate IsPin(k: Keyword) {
    EndsWith(k.arg, ISNULL) && k.value.IsTrue?
  }

  function Stripped(arg: string): string {
    if EndsWith(arg, ISNULL) then arg[..|arg| - |ISNULL|] else arg
  }

  // ---- ast.walk -----------------------------------------------------------------------------------

  datatype Node = Expr(c: Cond) | Kw(k: Keyword)

  function Children(n: Node): seq<Node> {
    match n
    case Kw(_) => []
    case Expr(Q(ks)) => seq(|ks|, i requires 0 <= i < |ks| => Kw(ks[i]))
    case Expr(And(l, r)) => [Expr(l), Expr(r)]
    case Expr(Or(l, r)) => [Expr(l), Expr(r)]
    case Expr(Not(x)) => [Expr(x)]
  }

  function Size(c: Cond): nat {
    match c
    case Q(ks) => 1 + |ks|
    case And(l, r) => 1 + Size(l) + Size(r)
    case Or(l, r) => 1 + Size(l) + Size(r)
    case Not(x) => 1 + Size(x)
  }

  function SizeOf(q: seq<Node>): nat {
    if q == [] then 0 else SizeOf(q[1..]) + match q[0] case Kw(_) => 1 case Expr(c) => Size(c)
  }

  lemma {:induction false} SizeOfAppend(a: seq<Node>, b: seq<Node>)
    ensures SizeOf(a + b) == SizeOf(a) + SizeOf(b)
  {
    if a == [] {
      assert a + b == b;
    } else {
      assert (a + b)[1..] == a[1..] + b;
      SizeOfAppend(a[1..], b);
    }
  }

  lemma {:induction false} SizeOfKeywords(q: seq<Node>)
    requires forall n | n in q :: n.Kw?
    ensures SizeOf(q) == |q|
  {
    if q != [] {
      assert q[0] in q;
      SizeOfKeywords(q[1..]);
    }
  }

  lemma ChildrenAreSmaller(n: Node)
    ensures SizeOf(Children(n)) < SizeOf([n])
  {
    assert [n][1..] == [];
    match n
    case Kw(_) =>
    case Expr(Q(_)) => SizeOfKeywords(Children(n));
    case Expr(And(l, r)) => assert [Expr(l), Expr(r)][1..] == [Expr(r)] && [Expr(r)][1..] == [];
    case Expr(Or(l, r)) => assert [Expr(l), Expr(r)][1..] == [Expr(r)] && [Expr(r)][1..] == [];
    case Expr(Not(x)) => assert [Expr(x)][1..] == [];
  }

  /** Taking a node off the queue and putting its children on makes the queue smaller. */
  lemma QueueShrinks(q: seq<Node>)
    requires q != []
    ensures SizeOf(q[1..] + Children(q[0])) < SizeOf(q)
  {
    hide Children, SizeOf;
    ChildrenAreSmaller(q[0]);
    SizeOfAppend(q[1..], Children(q[0]));
    SizeOfAppend([q[0]], q[1..]);
    assert [q[0]] + q[1..] == q;
  }

  function KeywordOf(n: Node): seq<Keyword> {
    if n.Kw? then [n.k] else []
  }

  /** The keywords in the order the queue meets them. */
  function Met(q: seq<Node>): seq<Keyword>
    decreases SizeOf(q)
  {
    if q == [] then []
    else
      QueueShrinks(q);
      KeywordOf(q[0]) + Met(q[1..] + Children(q[0]))
  }

  function MetIn(c: Cond): seq<Keyword> {
    Met([Expr(c)])
  }

  function Pins(ks: seq<Keyword>): seq<string> {
    if ks == [] then [] else (if IsPin(ks[0]) then [ks[0].arg] else []) + Pins(ks[1..])
  }

  function Others(ks: seq<Keyword>): seq<string> {
    if ks == [] then [] else (if IsPin(ks[0]) then [] else [ks[0].arg]) + Others(ks[1..])
  }

  lemma MetUnfolds(q: seq<Node>)
    ensures q == [] ==> Met(q) == []
    ensures q != [] ==> Met(q) == KeywordOf(q[0]) + Met(q[1..] + Children(q[0]))
  {
    hide Children, SizeOf;
  }

  lemma OneNode(n: Node, rest: seq<Keyword>)
    ensures Pins(KeywordOf(n) + rest) == (if n.Kw? && IsPin(n.k) then [n.k.arg] else []) + Pins(rest)
    ensures Others(KeywordOf(n) + rest) == (if n.Kw? && !IsPin(n.k) then [n.k.arg] else []) + Others(rest)
  {
    hide IsPin;
    if n.Kw? {
      assert (KeywordOf(n) + rest)[1..] == rest;
    } else {
      assert KeywordOf(n) + rest == rest;
    }
  }

  /** The walk of `null_pins`, over the queue that ast.walk keeps. */
  method NullPins(c: Cond) returns (pins: seq<string>, other: seq<string>)
    ensures pins == Pins(MetIn(c)) && other == Others(MetIn(c))
  {
    hide *;
    pins, other := [], [];
    var q := [Expr(c)];
    MetInIsMet(c);
    while q != []
      invariant pins + Pins(Met(q)) == Pins(MetIn(c)) && other + Others(Met(q)) == Others(MetIn(c))
      decreases SizeOf(q)
    {
      var n := q[0];
      QueueShrinks(q);
      MetUnfolds(q);
      OneNode(n, Met(q[1..] + Children(n)));
      q := q[1..] + Children(n);
      if n.Kw? {
        if IsPin(n.k) {
          pins := pins + [n.k.arg];
        } else {
          other := other + [n.k.arg];
        }
      }
    }
    MetUnfolds(q);
    NothingMet();
  }

  lemma MetInIsMet(c: Cond)
    ensures MetIn(c) == Met([Expr(c)])
  {
  }

  lemma NothingMet()
    ensures Pins([]) == [] && Others([]) == []
  {
  }

  function ChildrenOf(q: seq<Node>): seq<Node> {
    if q == [] then [] else Children(q[0]) + ChildrenOf(q[1..])
  }

  function KeywordsAmong(q: seq<Node>): seq<Keyword> {
    if q == [] then [] else KeywordOf(q[0]) + KeywordsAmong(q[1..])
  }

  /** Breadth first: the front of the queue is met before any child of it. */
  lemma {:induction false} LevelByLevel(a: seq<Node>, b: seq<Node>)
    ensures Met(a + b) == KeywordsAmong(a) + Met(b + ChildrenOf(a))
    decreases |a|
  {
    hide Children, SizeOf, Met;
    if a == [] {
      assert a + b == b && b + [] == b;
    } else {
      MetUnfolds(a + b);
      var rest := b + Children(a[0]);
      assert (a + b)[1..] + Children(a[0]) == a[1..] + rest;
      LevelByLevel(a[1..], rest);
      assert rest + ChildrenOf(a[1..]) == b + ChildrenOf(a);
    }
  }

  lemma {:induction false} KeywordNodesAmong(ks: seq<Keyword>, q: seq<Node>)
    requires |q| == |ks| && forall i | 0 <= i < |q| :: q[i] == Kw(ks[i])
    ensures KeywordsAmong(q) == ks && ChildrenOf(q) == []
  {
    if ks != [] {
      KeywordNodesAmong(ks[1..], q[1..]);
    }
  }

  lemma CallKeywords(a: seq<Keyword>)
    ensures KeywordsAmong(Children(Expr(Q(a)))) == a && ChildrenOf(Children(Expr(Q(a)))) == []
    ensures KeywordsAmong([Expr(Q(a))]) == [] && ChildrenOf([Expr(Q(a))]) == Children(Expr(Q(a)))
  {
    KeywordNodesAmong(a, Children(Expr(Q(a))));
    assert [Expr(Q(a))][1..] == [];
  }

  /** The keywords of one level of calls, in order, and nothing more. */
  lemma TwoCallsInOrder(a: seq<Keyword>, b: seq<Keyword>)
    ensures Met([Expr(Q(a)), Expr(Q(b))]) == a + b
  {
    var first, second := Expr(Q(a)), Expr(Q(b));
    CallKeywords(a);
    CallKeywords(b);
    assert [first, second][1..] == [second] && [second][1..] == [];
    assert KeywordsAmong([first, second]) == [] && ChildrenOf([first, second]) == Children(first) + Children(second);
    KeywordNodesAmong(a + b, Children(first) + Children(second));
    NothingFollows([first, second], Children(first) + Children(second));
  }

  lemma NothingFollows(q: seq<Node>, next: seq<Node>)
    requires KeywordsAmong(q) == [] && ChildrenOf(q) == next && ChildrenOf(next) == []
    ensures Met(q) == KeywordsAmong(next)
  {
    hide Met, Children, KeywordsAmong, ChildrenOf;
    LevelByLevel(q, []);
    LevelByLevel(next, []);
    MetUnfolds([]);
    assert q + [] == q && [] + next == next && next + [] == next;
    assert KeywordsAmong(next) + [] == KeywordsAmong(next);
  }

  /** The walk takes the calls of an & or | left to right, and a nested call after its shallower
      neighbour. */
  lemma WalkOrder(a: seq<Keyword>, b: seq<Keyword>)
    ensures MetIn(And(Q(a), Q(b))) == a + b && MetIn(Or(Q(a), Q(b))) == a + b
    ensures MetIn(And(Not(Q(a)), Q(b))) == b + a
  {
    TwoCallsInOrder(a, b);
    OneLevelDown(And(Q(a), Q(b)));
    OneLevelDown(Or(Q(a), Q(b)));
    OneLevelDown(And(Not(Q(a)), Q(b)));
    var rest := [Expr(Not(Q(a))), Expr(Q(b))];
    CallKeywords(a);
    CallKeywords(b);
    assert rest[1..] == [Expr(Q(b))] && [Expr(Q(b))][1..] == [];
    assert KeywordsAmong(rest) == [] && ChildrenOf(rest) == [Expr(Q(a))] + Children(Expr(Q(b)));
    LevelByLevel(rest, []);
    NestedAfter(a, b);
  }

  lemma OneLevelDown(c: Cond)
    requires !c.Q?
    ensures MetIn(c) == Met(Children(Expr(c)))
  {
    MetUnfolds([Expr(c)]);
    assert [Expr(c)][1..] + Children(Expr(c)) == Children(Expr(c));
  }

  lemma NestedAfter(a: seq<Keyword>, b: seq<Keyword>)
    ensures Met([] + ([Expr(Q(a))] + Children(Expr(Q(b))))) == b + a
  {
    var q := [Expr(Q(a))] + Children(Expr(Q(b)));
    CallKeywords(a);
    CallKeywords(b);
    hide Met, Children, KeywordsAmong, ChildrenOf;
    assert [] + q == q;
    LevelByLevel([Expr(Q(a))], Children(Expr(Q(b))));
    LevelByLevel(Children(Expr(Q(b))), Children(Expr(Q(a))));
    var kws, none: seq<Node> := Children(Expr(Q(a))), [];
    LevelByLevel(kws, none);
    MetUnfolds(none);
    assert none + ChildrenOf(kws) == none && kws + none == kws;
    assert Met(kws) == a + [] == a;
  }

  function AllKeywords(q: seq<Node>): seq<Keyword> {
    if q == [] then []
    else (match q[0] case Kw(k) => [k] case Expr(c) => Keywords(c)) + AllKeywords(q[1..])
  }

  lemma {:induction false} AllKeywordsAppend(a: seq<Node>, b: seq<Node>)
    ensures AllKeywords(a + b) == AllKeywords(a) + AllKeywords(b)
  {
    if a == [] {
      assert a + b == b;
    } else {
      assert (a + b)[1..] == a[1..] + b;
      AllKeywordsAppend(a[1..], b);
    }
  }

  lemma {:induction false} KeywordNodes(ks: seq<Keyword>, q: seq<Node>)
    requires |q| == |ks| && forall i | 0 <= i < |q| :: q[i] == Kw(ks[i])
    ensures AllKeywords(q) == ks
  {
    if ks != [] {
      KeywordNodes(ks[1..], q[1..]);
    }
  }

  lemma ChildrenHoldTheKeywords(n: Node)
    ensures KeywordOf(n) + AllKeywords(Children(n)) == AllKeywords([n])
  {
    assert [n][1..] == [];
    match n
    case Kw(_) =>
    case Expr(Q(ks)) => KeywordNodes(ks, Children(n));
    case Expr(And(l, r)) => assert [Expr(l), Expr(r)][1..] == [Expr(r)] && [Expr(r)][1..] == [];
    case Expr(Or(l, r)) => assert [Expr(l), Expr(r)][1..] == [Expr(r)] && [Expr(r)][1..] == [];
    case Expr(Not(x)) => assert [Expr(x)][1..] == [];
  }

  lemma {:induction false} QueueMeetsAll(q: seq<Node>)
    ensures multiset(Met(q)) == multiset(AllKeywords(q))
    decreases SizeOf(q)
  {
    if q != [] {
      var next := q[1..] + Children(q[0]);
      QueueShrinks(q);
      QueueMeetsAll(next);
      AllKeywordsAppend(q[1..], Children(q[0]));
      ChildrenHoldTheKeywords(q[0]);
      AllKeywordsAppend([q[0]], q[1..]);
      assert [q[0]] + q[1..] == q;
    }
  }

  /** The walk meets every keyword of the condition as often as it is written. */
  lemma WalkMeetsEveryKeyword(c: Cond)
    ensures multiset(MetIn(c)) == multiset(Keywords(c))
    ensures forall k :: k in MetIn(c) <==> k in Keywords(c)
  {
    QueueMeetsAll([Expr(c)]);
    assert [Expr(c)][1..] == [];
    assert AllKeywords([Expr(c)]) == Keywords(c);
    forall k ensures k in MetIn(c) <==> k in Keywords(c) {
      assert k in MetIn(c) <==> k in multiset(MetIn(c));
    }
  }

  lemma {:induction false} PinsMean(ks: seq<Keyword>)
    ensures forall a :: a in Pins(ks) <==> exists k :: k in ks && IsPin(k) && k.arg == a
    ensures forall a :: a in Others(ks) <==> exists k :: k in ks && !IsPin(k) && k.arg == a
    ensures Others(ks) == [] <==> forall k | k in ks :: IsPin(k)
  {
    if ks != [] {
      PinsMean(ks[1..]);
      assert ks == [ks[0]] + ks[1..];
      assert ks[0] in ks;
    }
  }

  // ---- What a condition means ---------------------------------------------------------------------

  /** Whether a keyword holds of a row, given its null columns and the other keywords it meets:
      `col__isnull` is about SQL NULL one way or the other, anything else only the database knows. */
  ghost predicate KeywordHolds(k: Keyword, nulls: set<string>, met: set<Keyword>) {
    && (forall col | k.arg == col + "__isnull" && k.value == IsTrue :: col in nulls)
    && (forall col | k.arg == col + "__isnull" && k.value == IsFalse :: col !in nulls)
    && (k.value.Else? || (forall col :: k.arg != col + "__isnull") ==> k in met)
  }

  ghost predicate Holds(c: Cond, nulls: set<string>, met: set<Keyword>) {
    match c
    case Q(ks) => forall k | k in ks :: KeywordHolds(k, nulls, met)
    case And(l, r) => Holds(l, nulls, met) && Holds(r, nulls, met)
    case Or(l, r) => Holds(l, nulls, met) || Holds(r, nulls, met)
    case Not(x) => !Holds(x, nulls, met)
  }

  /** A keyword `col__isnull` given True or False. */
  predicate IsNullTest(k: Keyword) {
    EndsWith(k.arg, ISNULL) && !k.value.Else?
  }

  lemma NullSuffix(arg: string)
    ensures EndsWith(arg, ISNULL) ==> arg == Stripped(arg) + "__isnull"
    ensures forall col | arg == col + "__isnull" :: EndsWith(arg, ISNULL) && col == Stripped(arg)
  {
    forall col | arg == col + "__isnull" ensures EndsWith(arg, ISNULL) && col == Stripped(arg) {
      assert arg[|arg| - |ISNULL|..] == ISNULL && arg[..|arg| - |ISNULL|] == col;
    }
  }

  lemma KeywordHoldsIff(k: Keyword, nulls: set<string>, met: set<Keyword>)
    ensures KeywordHolds(k, nulls, met) <==>
      if IsNullTest(k) then (Stripped(k.arg) in nulls) == k.value.IsTrue? else k in met
  {
    NullSuffix(k.arg);
    hide EndsWith, Stripped;
    if EndsWith(k.arg, ISNULL) {
      assert k.arg == Stripped(k.arg) + "__isnull";
    }
  }

  /** The keyword says that some column is null, and nothing else. */
  ghost predicate SaysNull(k: Keyword, col: string) {
    forall nulls, met :: KeywordHolds(k, nulls, met) <==> col in nulls
  }

  /** A pin is a keyword that says its column is null, and every keyword that says so is one. */
  lemma PinIffSaysNull(k: Keyword)
    ensures IsPin(k) <==> exists col :: SaysNull(k, col)
    ensures IsPin(k) ==> SaysNull(k, Stripped(k.arg)) && k.arg == Stripped(k.arg) + "__isnull"
  {
    NullSuffix(k.arg);
    forall nulls, met
      ensures KeywordHolds(k, nulls, met) <==>
        if IsNullTest(k) then (Stripped(k.arg) in nulls) == k.value.IsTrue? else k in met
    {
      KeywordHoldsIff(k, nulls, met);
    }
    hide KeywordHolds, EndsWith, Stripped;
    assert IsPin(k) ==> SaysNull(k, Stripped(k.arg));
    if col :| SaysNull(k, col) {
      assert !KeywordHolds(k, {}, {k});
      assert KeywordHolds(k, {col}, {});
    }
  }

  /** The script takes the whole condition for null pins: nothing else is mentioned. */
  predicate OnlyPins(c: Cond) {
    forall k | k in Keywords(c) :: IsPin(k)
  }

  ghost predicate SaysSomeNull(k: Keyword) {
    exists col :: SaysNull(k, col)
  }

  lemma OnlyPinsIff(c: Cond)
    ensures OnlyPins(c) <==> forall k | k in Keywords(c) :: SaysSomeNull(k)
  {
    hide IsPin, SaysNull;
    forall k | k in Keywords(c) ensures IsPin(k) <==> SaysSomeNull(k) {
      PinIffSaysNull(k);
    }
  }

  /** The columns tested for NULL, those a pin names, and the keywords that test nothing of the kind. */
  function Tested(c: Cond): set<string> {
    set k | k in Keywords(c) && IsNullTest(k) :: Stripped(k.arg)
  }

  function Pinned(c: Cond): set<string> {
    set k | k in Keywords(c) && IsPin(k) :: Stripped(k.arg)
  }

  function Free(c: Cond): set<Keyword> {
    set k | k in Keywords(c) && !IsNullTest(k)
  }

  /** The condition is what its pins say: all the columns they name are null. */
  ghost predicate MeansItsPins(c: Cond) {
    forall nulls: set<string>, met: set<Keyword> :: Holds(c, nulls, met) <==> Pinned(c) <= nulls
  }

  lemma {:induction false} CaresOnlyForItsOwn(c: Cond, a: set<string>, b: set<string>, m: set<Keyword>, n: set<Keyword>)
    requires forall p | p in Tested(c) :: p in a <==> p in b
    requires forall k | k in Free(c) :: k in m <==> k in n
    ensures Holds(c, a, m) <==> Holds(c, b, n)
  {
    hide IsNullTest, Stripped, KeywordHolds;
    match c
    case Q(ks) =>
      forall k | k in ks ensures KeywordHolds(k, a, m) <==> KeywordHolds(k, b, n) {
        KeywordHoldsIff(k, a, m);
        KeywordHoldsIff(k, b, n);
        assert k in Keywords(c);
      }
    case And(l, r) =>
      assert Tested(c) == Tested(l) + Tested(r) && Free(c) == Free(l) + Free(r);
      CaresOnlyForItsOwn(l, a, b, m, n);
      CaresOnlyForItsOwn(r, a, b, m, n);
    case Or(l, r) =>
      assert Tested(c) == Tested(l) + Tested(r) && Free(c) == Free(l) + Free(r);
      CaresOnlyForItsOwn(l, a, b, m, n);
      CaresOnlyForItsOwn(r, a, b, m, n);
    case Not(x) =>
      assert Tested(c) == Tested(x) && Free(c) == Free(x);
      CaresOnlyForItsOwn(x, a, b, m, n);
  }

  /** What the condition mentions decides: of the rows that differ in that alone, it must take those
      where all pinned columns are null and no other. */
  ghost predicate TakesOnlyAllNull(c: Cond) {
    forall s: set<string>, o: set<Keyword> | s <= Tested(c) && o <= Free(c) :: Holds(c, s, o) <==> Pinned(c) <= s
  }

  lemma MeansItsPinsIff(c: Cond)
    ensures MeansItsPins(c) <==> TakesOnlyAllNull(c)
  {
    if TakesOnlyAllNull(c) {
      assert Pinned(c) <= Tested(c);
      forall nulls: set<string>, met: set<Keyword> ensures Holds(c, nulls, met) <==> Pinned(c) <= nulls {
        CaresOnlyForItsOwn(c, nulls, nulls * Tested(c), met, met * Free(c));
        assert nulls * Tested(c) <= Tested(c) && met * Free(c) <= Free(c);
      }
    }
  }

  lemma OnlyPinsTestsItsPins(c: Cond)
    requires OnlyPins(c)
    ensures Tested(c) == Pinned(c) && Free(c) == {}
  {
    hide Stripped, EndsWith;
  }

  predicate NegationFree(c: Cond) {
    match c
    case Q(ks) => true
    case And(l, r) => NegationFree(l) && NegationFree(r)
    case Or(l, r) => NegationFree(l) && NegationFree(r)
    case Not(x) => false
  }

  lemma {:induction false} NegationFreeIsMonotone(c: Cond, small: set<string>, big: set<string>, met: set<Keyword>)
    requires OnlyPins(c) && NegationFree(c) && small <= big && Holds(c, small, met)
    ensures Holds(c, big, met)
  {
    hide KeywordHolds, Stripped, IsPin;
    match c
    case Q(ks) =>
      forall k | k in ks ensures KeywordHolds(k, big, met) {
        assert k in Keywords(c) && KeywordHolds(k, small, met);
        PinIffSaysNull(k);
      }
    case And(l, r) =>
      NegationFreeIsMonotone(l, small, big, met);
      NegationFreeIsMonotone(r, small, big, met);
    case Or(l, r) =>
      if Holds(l, small, met) {
        NegationFreeIsMonotone(l, small, big, met);
      } else {
        NegationFreeIsMonotone(r, small, big, met);
      }
  }

  lemma {:induction false} AllPinnedSuffices(c: Cond, met: set<Keyword>)
    requires OnlyPins(c) && NegationFree(c)
    ensures Holds(c, Pinned(c), met)
  {
    hide KeywordHolds, Stripped, IsPin;
    match c
    case Q(ks) =>
      forall k | k in ks ensures KeywordHolds(k, Pinned(c), met) {
        assert k in Keywords(c);
        PinIffSaysNull(k);
      }
    case And(l, r) =>
      assert Pinned(c) == Pinned(l) + Pinned(r);
      AllPinnedSuffices(l, met);
      AllPinnedSuffices(r, met);
      NegationFreeIsMonotone(l, Pinned(l), Pinned(c), met);
      NegationFreeIsMonotone(r, Pinned(r), Pinned(c), met);
    case Or(l, r) =>
      assert Pinned(c) == Pinned(l) + Pinned(r);
      AllPinnedSuffices(l, met);
      NegationFreeIsMonotone(l, Pinned(l), Pinned(c), met);
  }

  lemma SmallerIsNoBetter(c: Cond, s: set<string>, p: string)
    requires OnlyPins(c) && NegationFree(c) && s <= Pinned(c) && p !in s
    ensures Holds(c, s, {}) ==> Holds(c, Pinned(c) - {p}, {})
  {
    if Holds(c, s, {}) {
      NegationFreeIsMonotone(c, s, Pinned(c) - {p}, {});
    }
  }

  lemma EachPinDecides(c: Cond, s: set<string>, o: set<Keyword>)
    requires OnlyPins(c) && NegationFree(c) && s <= Tested(c) && o <= Free(c)
    requires forall p | p in Pinned(c) :: !Holds(c, Pinned(c) - {p}, {})
    ensures Holds(c, s, o) <==> Pinned(c) <= s
  {
    OnlyPinsTestsItsPins(c);
    hide Holds, Pinned, OnlyPins, NegationFree, Tested, Free;
    assert o == {};
    if p :| p in Pinned(c) && p !in s {
      SmallerIsNoBetter(c, s, p);
    } else {
      assert s == Pinned(c);
      AllPinnedSuffices(c, {});
    }
  }

  /** Without ~, one test a pinned column decides: the condition must fail on the row where that
      column alone is set. */
  lemma NegationFreeMeansItsPinsIff(c: Cond)
    requires OnlyPins(c) && NegationFree(c)
    ensures MeansItsPins(c) <==> forall p | p in Pinned(c) :: !Holds(c, Pinned(c) - {p}, {})
  {
    MeansItsPinsIff(c);
    OnlyPinsTestsItsPins(c);
    hide Holds, Pinned, OnlyPins, NegationFree, Tested, Free;
    if forall p | p in Pinned(c) :: !Holds(c, Pinned(c) - {p}, {}) {
      forall s: set<string>, o: set<Keyword> | s <= Tested(c) && o <= Free(c)
        ensures Holds(c, s, o) <==> Pinned(c) <= s
      {
        EachPinDecides(c, s, o);
      }
    }
  }

  predicate Conjunctive(c: Cond) {
    match c
    case Q(ks) => true
    case And(l, r) => Conjunctive(l) && Conjunctive(r)
    case Or(l, r) => false
    case Not(x) => false
  }

  /** Q calls joined by & alone always mean their pins. */
  lemma {:induction false} ConjunctionMeansItsPins(c: Cond)
    requires OnlyPins(c) && Conjunctive(c)
    ensures MeansItsPins(c)
  {
    hide KeywordHolds, Stripped, IsPin;
    match c
    case Q(ks) =>
      forall k | k in ks ensures SaysNull(k, Stripped(k.arg)) && Stripped(k.arg) in Pinned(c) {
        assert k in Keywords(c);
        PinIffSaysNull(k);
      }
    case And(l, r) =>
      ConjunctionMeansItsPins(l);
      ConjunctionMeansItsPins(r);
      assert Pinned(c) == Pinned(l) + Pinned(r);
      forall nulls: set<string>, met: set<Keyword> ensures Holds(c, nulls, met) <==> Pinned(c) <= nulls {
        assert Holds(l, nulls, met) <==> Pinned(l) <= nulls;
        assert Holds(r, nulls, met) <==> Pinned(r) <= nulls;
      }
  }

  const TENANT := Keyword("tenant__isnull", IsTrue)
  const SITE := Keyword("site__isnull", IsTrue)
  const TENANT_NULL := Q([TENANT])
  const SITE_NULL := Q([SITE])

  /** `~Q(tenant__isnull=True)` and `Q(..) | Q(..)` have the pins of the plain forms, which are not
      what they mean. */
  lemma NegationAndAlternativesAreMisread()
    ensures Pins(MetIn(Not(TENANT_NULL))) == Pins(MetIn(TENANT_NULL))
    ensures OnlyPins(Not(TENANT_NULL)) && !MeansItsPins(Not(TENANT_NULL))
    ensures Pins(MetIn(Or(TENANT_NULL, SITE_NULL))) == Pins(MetIn(And(TENANT_NULL, SITE_NULL)))
    ensures OnlyPins(Or(TENANT_NULL, SITE_NULL)) && !MeansItsPins(Or(TENANT_NULL, SITE_NULL))
    ensures OnlyPins(And(TENANT_NULL, SITE_NULL)) && MeansItsPins(And(TENANT_NULL, SITE_NULL))
  {
    var either, both := Or(TENANT_NULL, SITE_NULL), And(TENANT_NULL, SITE_NULL);
    SameChildren(Not(TENANT_NULL), TENANT_NULL, either, both);
    hide Met, Pins, KeywordHolds, IsPin, Stripped, MeansItsPins;
    NegatedPin();
    EitherPin();
    ConjunctionMeansItsPins(both);
  }

  lemma NegatedPin()
    ensures OnlyPins(Not(TENANT_NULL)) && !MeansItsPins(Not(TENANT_NULL))
  {
    TwoPins();
    hide KeywordHolds, IsPin, Stripped;
    assert Keywords(Not(TENANT_NULL)) == [TENANT];
    assert TENANT in Keywords(Not(TENANT_NULL));
    assert !KeywordHolds(TENANT, {}, {});
    assert Holds(Not(TENANT_NULL), {}, {}) && "tenant" in Pinned(Not(TENANT_NULL));
  }

  lemma EitherPin()
    ensures OnlyPins(Or(TENANT_NULL, SITE_NULL)) && !MeansItsPins(Or(TENANT_NULL, SITE_NULL))
    ensures OnlyPins(And(TENANT_NULL, SITE_NULL))
  {
    TwoPins();
    hide KeywordHolds, IsPin, Stripped;
    var either := Or(TENANT_NULL, SITE_NULL);
    PinsOfTwo(either);
    PinsOfTwo(And(TENANT_NULL, SITE_NULL));
    assert KeywordHolds(TENANT, {"tenant"}, {});
    assert Holds(either, {"tenant"}, {}) && "site" !in {"tenant"};
  }

  lemma PinsOfTwo(c: Cond)
    requires Keywords(c) == [TENANT, SITE] && IsPin(TENANT) && IsPin(SITE)
    ensures OnlyPins(c) && Stripped(SITE.arg) in Pinned(c)
  {
    assert SITE in Keywords(c);
  }

  lemma TwoPins()
    ensures IsPin(TENANT) && Stripped(TENANT.arg) == "tenant" && SaysNull(TENANT, "tenant")
    ensures IsPin(SITE) && Stripped(SITE.arg) == "site" && SaysNull(SITE, "site")
  {
    PinIffSaysNull(TENANT);
    PinIffSaysNull(SITE);
  }

  lemma SameChildren(negated: Cond, plain: Cond, either: Cond, both: Cond)
    requires negated == Not(plain)
    requires either.Or? && both.And? && either.left == both.left && either.right == both.right
    ensures MetIn(negated) == MetIn(plain) && MetIn(either) == MetIn(both)
  {
    assert [Expr(negated)][1..] + Children(Expr(negated)) == [Expr(plain)];
    assert [Expr(either)][1..] + Children(Expr(either)) == [Expr(both)][1..] + Children(Expr(both));
  }
}
