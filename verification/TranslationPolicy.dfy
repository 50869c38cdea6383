/** api/v1alpha1/ipam_vlantranslationpolicy_inline.go: the rules of a VLAN translation policy, keyed
    by their local VID in base 10, and why their derived names never collide. */
module TranslationPolicy {
  import opened Options
  import opened Slugs
  import opened ChildNames
  import opened InlineTree
  import Utf8

  const RULES: Text := [114, 117, 108, 101, 115]

  lemma FieldToken()
    ensures Utf8.Spells(RULES, "rules")
  {
  }

  datatype Rule = Rule(localVID: int, remoteVID: int, description: Text)

  // ---- Base 10 --------------------------------------------------------------------------------------

  function Decimal(n: nat): (ds: Text)
    ensures ds != [] && forall d | d in ds :: 48 <= d <= 57
  {
    if n < 10 then [48 + n] else Decimal(n / 10) + [48 + n % 10]
  }

  /** strconv.FormatInt(n, 10). */
  function FormatInt(n: int): Text {
    if n < 0 then [DASH] + Decimal(-n) else Decimal(n)
  }

  function ReadDecimal(ds: Text): int {
    if ds == [] then 0 else 10 * ReadDecimal(ds[..|ds| - 1]) + (ds[|ds| - 1] - 48)
  }

  lemma {:induction false} DecimalReadsBack(n: nat)
    ensures ReadDecimal(Decimal(n)) == n
  {
    var ds := Decimal(n);
    if n < 10 {
      assert ds[..0] == [];
    } else {
      DecimalReadsBack(n / 10);
      assert ds[..|ds| - 1] == Decimal(n / 10);
    }
  }

  lemma {:induction false} DecimalLength(n: nat, k: nat, bound: nat)
    requires 1 <= k && n < bound && bound == Pow10(k)
    ensures |Decimal(n)| <= k
    decreases k
  {
    assert Pow10(1) == 10 * Pow10(0);
    if n >= 10 {
      DecimalLength(n / 10, k - 1, Pow10(k - 1));
    }
  }

  function Pow10(k: nat): nat {
    if k == 0 then 1 else 10 * Pow10(k - 1)
  }

  // ---- The inline child set ---------------------------------------------------------------------------

  function RuleEntry(policy: Text, r: Rule): InlineChildEntry {
    InlineChildEntry(FormatInt(r.localVID), Some(RuleChild(policy, r.localVID, r.remoteVID, r.description)), [])
  }

  /** `InlineChildren`: one set, even when it is empty, with one entry a rule in the order listed. */
  method InlineChildren(policy: Text, rules: seq<Rule>) returns (sets: seq<InlineChildSet>)
    ensures sets == RuleSets(policy, rules)
  {
    var entries: seq<InlineChildEntry> := [];
    for i := 0 to |rules|
      invariant |entries| == i && forall j | 0 <= j < i :: entries[j] == RuleEntry(policy, rules[j])
    {
      var r := rules[i];
      var child := RuleChild(policy, r.localVID, r.remoteVID, r.description);
      entries := entries + [InlineChildEntry(FormatInt(r.localVID), Some(child), [])];
    }
    sets := [InlineChildSet(RULES, [], entries)];
    assert entries == RuleSets(policy, rules)[0].entries;
  }

  function RuleSets(policy: Text, rules: seq<Rule>): seq<InlineChildSet> {
    [InlineChildSet(RULES, [], seq(|rules|, i requires 0 <= i < |rules| => RuleEntry(policy, rules[i])))]
  }

  function RulePath(r: Rule): seq<ChildSegment> {
    [ChildSegment(RULES, [], FormatInt(r.localVID))]
  }

  function RuleDeclared(policy: Text, r: Rule): Declared {
    Declared(RulePath(r), RuleChild(policy, r.localVID, r.remoteVID, r.description))
  }

  lemma {:induction false} FlatRules(s: InlineChildSet, es: seq<InlineChildEntry>, policy: Text, rules: seq<Rule>)
    requires s.field == RULES && s.discriminator == []
    requires |es| == |rules| && forall i | 0 <= i < |rules| :: es[i] == RuleEntry(policy, rules[i])
    ensures |FlatEntries(s, es, [])| == |rules|
    ensures forall i | 0 <= i < |rules| :: FlatEntries(s, es, [])[i] == RuleDeclared(policy, rules[i])
    decreases |es|
  {
    if es != [] {
      FlatRules(s, es[1..], policy, rules[1..]);
      assert es[0] == RuleEntry(policy, rules[0]);
      var at := [] + [Segment(s, es[0])];
      assert at == RulePath(rules[0]);
      assert FlatSets(es[0].children, at) == [];
      assert FlatEntries(s, es, []) == [RuleDeclared(policy, rules[0])] + FlatEntries(s, es[1..], []);
    }
  }

  // ---- Names ------------------------------------------------------------------------------------------

  function RuleName(h: Digest, policy: Text, r: Rule): Text {
    ChildNameOf(h, policy, RulePath(r))
  }

  lemma DigitsAreWellFormed(ds: Text)
    requires ds != [] && forall d | d in ds :: 48 <= d <= 57
    ensures WellFormed(ds) && forall i | 0 <= i < |ds| :: IsWordChar(ds[i]) && ds[i] != DASH
  {
    assert forall i | 0 <= i < |ds| :: ds[i] in ds;
  }

  function Closed(s: Text): Text {
    if s == [] then [] else s + [DASH]
  }

  /** The full slug of a rule: the policy's own slug, a dash, and the VID without its sign. */
  lemma RuleSlug(policy: Text, r: Rule)
    ensures var n: nat := if r.localVID < 0 then -r.localVID else r.localVID;
            FullSlug(policy, RulePath(r)) == Closed(Slug(policy)) + Decimal(n)
  {
    hide Slug, Decimal, WellFormed;
    var n: nat := if r.localVID < 0 then -r.localVID else r.localVID;
    var ds := Decimal(n);
    var key := FormatInt(r.localVID);
    RuleParts(policy, key);
    DigitsAreWellFormed(ds);
    FixedPointIffWellFormed(ds);
    if r.localVID < 0 {
      SlugOfJoined([], ds);
      EmptySlugIff([]);
      assert [] + [DASH] + ds == key;
    }
    SlugOfJoined(policy, key);
    assert [] + ds == ds;
  }

  lemma RuleParts(policy: Text, key: Text)
    ensures Join(Parts(policy, [ChildSegment(RULES, [], key)])) == policy + [DASH] + key
  {
    var path := [ChildSegment(RULES, [], key)];
    assert path[..0] == [];
    assert Parts(policy, path) == [policy] + [key];
    assert ([policy] + [key])[..1] == [policy];
  }

  ghost predicate ValidVID(n: int) {
    1 <= n <= 4094
  }

  lemma ShortDecimal(n: nat)
    requires n < 10000
    ensures |Decimal(n)| <= 4
  {
    assert Pow10(4) == 10 * Pow10(3) && Pow10(3) == 10 * Pow10(2);
    assert Pow10(2) == 10 * Pow10(1) && Pow10(1) == 10 * Pow10(0);
    DecimalLength(n, 4, 10000);
  }

  /** Neither slug was cut: the last dash of each sits before its digits, or there is none. */
  lemma PlainNamesDiffer(p: Text, m: nat, n: nat)
    requires m != n
    ensures Closed(p) + Decimal(m) != Closed(p) + Decimal(n)
  {
    var a, b := Closed(p) + Decimal(m), Closed(p) + Decimal(n);
    if a == b {
      assert a[|Closed(p)|..] == Decimal(m) && b[|Closed(p)|..] == Decimal(n);
      DecimalReadsBack(m);
      DecimalReadsBack(n);
    }
  }

  /** A cut name ends in its six digest characters, none of them a dash. */
  lemma CutNameEnd(h: Digest, slug: Text)
    requires |slug| > MAX_CHILD_NAME
    ensures |Fit(h, slug)| > 6 && Fit(h, slug)[|Fit(h, slug)| - 6..] == Hex(h, slug)
    ensures forall i | |Fit(h, slug)| - 6 <= i < |Fit(h, slug)| :: Fit(h, slug)[i] != DASH
  {
    hide TrimRight;
    var cut, digest := Fit(h, slug), Hex(h, slug);
    assert IsHex(digest);
    assert cut[|cut| - 6..] == digest && forall i | 0 <= i < 6 :: digest[i] in digest;
    assert forall i | |cut| - 6 <= i < |cut| :: cut[i] == digest[i - (|cut| - 6)];
  }

  /** One slug was cut and one was not: the uncut one has a dash among its last six characters. */
  lemma MixedNamesDiffer(h: Digest, p: Text, m: nat, n: nat)
    requires m < 10000 && n < 10000
    requires |Closed(p) + Decimal(m)| <= MAX_CHILD_NAME < |Closed(p) + Decimal(n)|
    ensures Fit(h, Closed(p) + Decimal(m)) != Fit(h, Closed(p) + Decimal(n))
  {
    hide Decimal;
    ShortDecimal(m);
    ShortDecimal(n);
    var plain := Closed(p) + Decimal(m);
    CutNameEnd(h, Closed(p) + Decimal(n));
    hide Fit;
    assert Fit(h, plain) == plain by { FitPlain(h, plain); }
    assert plain[|p|] == DASH && |plain| - 6 <= |p| < |plain|;
  }

  lemma FitPlain(h: Digest, slug: Text)
    requires |slug| <= MAX_CHILD_NAME
    ensures Fit(h, slug) == slug
  {
  }

  /** Both slugs were cut: the names end in different digests. */
  lemma CutNamesDiffer(h: Digest, a: Text, b: Text)
    requires |a| > MAX_CHILD_NAME && |b| > MAX_CHILD_NAME && Hex(h, a) != Hex(h, b)
    ensures Fit(h, a) != Fit(h, b)
  {
    CutNameEnd(h, a);
    CutNameEnd(h, b);
  }

  /** Rules with different local VIDs get different names, whichever of the two forms each takes. */
  lemma RuleNamesDiffer(h: Digest, policy: Text, r: Rule, s: Rule)
    requires ValidVID(r.localVID) && ValidVID(s.localVID) && r.localVID != s.localVID
    requires DigestsDiffer(h, FullSlug(policy, RulePath(r)), FullSlug(policy, RulePath(s)))
    ensures RuleName(h, policy, r) != RuleName(h, policy, s)
  {
    RuleSlug(policy, r);
    RuleSlug(policy, s);
    var p := Slug(policy);
    var a, b := Closed(p) + Decimal(r.localVID), Closed(p) + Decimal(s.localVID);
    PlainNamesDiffer(p, r.localVID, s.localVID);
    if |a| <= MAX_CHILD_NAME < |b| {
      MixedNamesDiffer(h, p, r.localVID, s.localVID);
    } else if |b| <= MAX_CHILD_NAME < |a| {
      MixedNamesDiffer(h, p, s.localVID, r.localVID);
    } else if |a| > MAX_CHILD_NAME {
      SameHexIff(h, a, b);
      CutNamesDiffer(h, a, b);
    }
  }

  /** Without the bounds the sign is the only thing lost: names that fit agree exactly when the
      VIDs agree in magnitude. */
  lemma PlainNamesAgreeIffSameMagnitude(h: Digest, policy: Text, r: Rule, s: Rule)
    requires |FullSlug(policy, RulePath(r))| <= MAX_CHILD_NAME && |FullSlug(policy, RulePath(s))| <= MAX_CHILD_NAME
    ensures RuleName(h, policy, r) == RuleName(h, policy, s) <==> r.localVID == s.localVID || r.localVID == -s.localVID
  {
    RuleSlug(policy, r);
    RuleSlug(policy, s);
    var m: nat := if r.localVID < 0 then -r.localVID else r.localVID;
    var n: nat := if s.localVID < 0 then -s.localVID else s.localVID;
    if m != n {
      PlainNamesDiffer(Slug(policy), m, n);
    }
  }

  // ---- End to end -------------------------------------------------------------------------------------

  ghost predicate ValidRules(rules: seq<Rule>) {
    && (forall i | 0 <= i < |rules| :: ValidVID(rules[i].localVID))
    && forall i, j | 0 <= i < j < |rules| :: rules[i].localVID != rules[j].localVID
  }

  ghost predicate DigestsSeparate(h: Digest, policy: Text, rules: seq<Rule>) {
    forall i, j | 0 <= i < j < |rules| ::
      DigestsDiffer(h, FullSlug(policy, RulePath(rules[i])), FullSlug(policy, RulePath(rules[j])))
  }

  lemma RulesDoNotCollide(h: Digest, policy: Text, rules: seq<Rule>, want: seq<DesiredChild>)
    requires ValidRules(rules) && DigestsSeparate(h, policy, rules)
    requires want == DeriveAll(h, policy, FlatSets(RuleSets(policy, rules), []))
    ensures |want| == |rules|
    ensures forall i | 0 <= i < |rules| :: IsWanted(h, policy, rules[i], want[i])
    ensures forall i, j | 0 <= i < j < |want| :: !SameName(want[i], want[j])
  {
    hide RuleName, FullSlug, FlatEntries, FlatSets, DigestsDiffer;
    WantedRules(h, policy, rules, want);
    forall i, j | 0 <= i < j < |want| ensures !SameName(want[i], want[j]) {
      WantedIsNamed(h, policy, rules[i], want[i]);
      WantedIsNamed(h, policy, rules[j], want[j]);
      RuleNamesDiffer(h, policy, rules[i], rules[j]);
    }
  }

  lemma WantedRules(h: Digest, policy: Text, rules: seq<Rule>, want: seq<DesiredChild>)
    requires want == DeriveAll(h, policy, FlatSets(RuleSets(policy, rules), []))
    ensures |want| == |rules| && forall i | 0 <= i < |rules| :: IsWanted(h, policy, rules[i], want[i])
  {
    hide RuleName, FullSlug, FlatEntries, FlatSets;
    var s := RuleSets(policy, rules)[0];
    FlatRules(s, s.entries, policy, rules);
    FlatOneSet(s);
    hide IsWanted;
    forall i | 0 <= i < |rules| ensures IsWanted(h, policy, rules[i], want[i]) {
      DerivedIsWanted(h, policy, rules[i]);
    }
  }

  /** The child a rule comes to: its own three fields, this policy, and the name its VID derives. */
  predicate IsWanted(h: Digest, policy: Text, r: Rule, w: DesiredChild) {
    && w.name == ChildNameOf(h, policy, [ChildSegment(RULES, [], FormatInt(r.localVID))])
    && w.path == PathText([ChildSegment(RULES, [], FormatInt(r.localVID))])
    && w.child.RuleChild? && w.child.policyRef == policy && w.child.localVID == r.localVID
    && w.child.remoteVID == r.remoteVID && w.child.description == r.description
  }

  lemma WantedIsNamed(h: Digest, policy: Text, r: Rule, w: DesiredChild)
    requires IsWanted(h, policy, r, w)
    ensures w.name == RuleName(h, policy, r)
  {
  }

  lemma DerivedIsWanted(h: Digest, policy: Text, r: Rule)
    ensures IsWanted(h, policy, r, Derive(h, policy, RuleDeclared(policy, r)))
  {
  }

  lemma FlatOneSet(s: InlineChildSet)
    ensures FlatSets([s], []) == FlatEntries(s, s.entries, [])
  {
    assert [s][1..] == [];
    assert FlatSets([s][1..], []) == [];
  }

  /** A valid policy materialises one child a rule and never reports a collision. */
  method Materialise(h: Digest, policy: Text, rules: seq<Rule>) returns (m: Materialisation, clash: Option<(nat, nat)>)
    requires ValidRules(rules) && DigestsSeparate(h, policy, rules)
    ensures clash == None && |m.want| == |rules|
    ensures forall i | 0 <= i < |rules| :: IsWanted(h, policy, rules[i], m.want[i])
  {
    hide IsWanted, RuleName, DeriveAll, FlatSets, RuleSets, DigestsSeparate, ValidRules;
    var sets := InlineChildren(policy, rules);
    m := new Materialisation(h, policy);
    m.Desire(sets, []);
    assert m.want == DeriveAll(h, policy, FlatSets(sets, []));
    RulesDoNotCollide(h, policy, rules, m.want);
    clash := m.Collision();
  }
}
