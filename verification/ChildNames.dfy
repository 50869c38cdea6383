/** `ChildName` and `ChildPath` of api/v1alpha1/inline_children.go: what an inline child is called
    and where in its parent's spec it came from. Texts are their bytes. */
module ChildNames {
  import opened Options
  import opened Utf8
  import opened Slugs

  type Text = seq<int>

  datatype ChildSegment = ChildSegment(field: Text, discriminator: Text, key: Text)

  const MAX_CHILD_NAME := 253
  const CHILD_NAME_PREFIX := 246
  const CHILD_NAME_DIGEST := 6

  ghost predicate IsHex(s: Text) {
    |s| == CHILD_NAME_DIGEST && forall c | c in s :: 48 <= c <= 57 || 97 <= c <= 102
  }

  /** The first three bytes of a SHA-256 sum. */
  datatype Sum = Sum(b0: Byte, b1: Byte, b2: Byte)

  /** SHA-256 itself, about which nothing is known. */
  type Digest = Text -> Sum

  function HexDigit(n: int): int {
    if n < 10 then 48 + n else 87 + n
  }

  /** hex.EncodeToString(sum)[:6] */
  function Hex(h: Digest, t: Text): (d: Text)
    ensures IsHex(d)
  {
    var s := h(t);
    [HexDigit(s.b0 / 16), HexDigit(s.b0 % 16), HexDigit(s.b1 / 16), HexDigit(s.b1 % 16),
     HexDigit(s.b2 / 16), HexDigit(s.b2 % 16)]
  }

  function DigitValue(c: int): int {
    if c < 97 then c - 48 else c - 87
  }

  lemma DigitReadsBack(n: int)
    requires 0 <= n < 16
    ensures DigitValue(HexDigit(n)) == n
  {
  }

  /** The three bytes that six hexadecimal characters stand for. */
  function SumOf(d: Text): (int, int, int)
    requires |d| == CHILD_NAME_DIGEST
  {
    (16 * DigitValue(d[0]) + DigitValue(d[1]), 16 * DigitValue(d[2]) + DigitValue(d[3]),
     16 * DigitValue(d[4]) + DigitValue(d[5]))
  }

  /** The characters read back to the first three bytes of the sum of the whole text. */
  lemma HexReadsBack(h: Digest, t: Text)
    ensures SumOf(Hex(h, t)) == (h(t).b0, h(t).b1, h(t).b2)
  {
    var s := h(t);
    DigitReadsBack(s.b0 / 16);
    DigitReadsBack(s.b0 % 16);
    DigitReadsBack(s.b1 / 16);
    DigitReadsBack(s.b1 % 16);
    DigitReadsBack(s.b2 / 16);
    DigitReadsBack(s.b2 % 16);
    hide HexDigit, DigitValue;
  }

  /** So two texts have one digest exactly when their sums begin alike. */
  lemma SameHexIff(h: Digest, a: Text, b: Text)
    ensures Hex(h, a) == Hex(h, b) <==> h(a) == h(b)
  {
    HexReadsBack(h, a);
    HexReadsBack(h, b);
    hide SumOf, IsHex;
    if h(a) == h(b) {
      SumDecidesHex(h, a, b);
    }
  }

  lemma SumDecidesHex(h: Digest, a: Text, b: Text)
    requires h(a) == h(b)
    ensures Hex(h, a) == Hex(h, b)
  {
  }

  // ---- ChildName ------------------------------------------------------------------------------------

  function SegmentParts(s: ChildSegment): seq<Text> {
    (if s.discriminator != [] then [s.discriminator] else []) + [s.key]
  }

  function Parts(parent: Text, path: seq<ChildSegment>): seq<Text> {
    if path == [] then [parent] else Parts(parent, path[..|path| - 1]) + SegmentParts(path[|path| - 1])
  }

  function FullSlug(parent: Text, path: seq<ChildSegment>): Text {
    Slug(Join(Parts(parent, path)))
  }

  /** The name a slug becomes: itself when it fits, else its readable front and a digest of all of it. */
  function Fit(h: Digest, slug: Text): Text {
    if |slug| <= MAX_CHILD_NAME then slug
    else TrimRight(slug[..CHILD_NAME_PREFIX]) + [DASH] + Hex(h, slug)
  }

  function ChildNameOf(h: Digest, parent: Text, path: seq<ChildSegment>): Text {
    Fit(h, FullSlug(parent, path))
  }

  method CollectParts(parent: Text, path: seq<ChildSegment>) returns (parts: seq<Text>)
    ensures parts == Parts(parent, path)
  {
    parts := [parent];
    for i := 0 to |path|
      invariant parts == Parts(parent, path[..i])
    {
      assert path[..i + 1][..i] == path[..i];
      if path[i].discriminator != [] {
        parts := parts + [path[i].discriminator];
      }
      parts := parts + [path[i].key];
    }
    assert path[..|path|] == path;
  }

  method ChildName(h: Digest, parent: Text, path: seq<ChildSegment>) returns (name: Text)
    ensures name == ChildNameOf(h, parent, path)
  {
    hide Slug, Join, Parts, TrimRight;
    var parts := CollectParts(parent, path);
    var slug := Slugify(Join(parts));
    if |slug| <= MAX_CHILD_NAME {
      return slug;
    }
    name := TrimRight(slug[..CHILD_NAME_PREFIX]) + [DASH] + Hex(h, slug);
  }

  // ---- Legal names ----------------------------------------------------------------------------------

  /** A lowercase label in the sense of section 2.1 of RFC 1123, within the length of a subdomain,
      that no further slugging changes. */
  ghost predicate LegalName(n: Text) {
    && 0 < |n| <= 253
    && (forall c | c in n :: 97 <= c <= 122 || 48 <= c <= 57 || c == 45)
    && n[0] != 45 && n[|n| - 1] != 45
    && (forall i | 0 < i < |n| :: n[i - 1] != 45 || n[i] != 45)
    && Slug(n) == n
  }

  ghost predicate HasWordChar(t: Text) {
    exists c :: c in t && (97 <= c <= 122 || 65 <= c <= 90 || 48 <= c <= 57)
  }

  /** Trimming a prefix of a well-formed text takes off one dash at most. */
  lemma TrimmedPrefix(s: Text, n: nat)
    requires WellFormed(s) && 0 < n <= |s|
    ensures var t := TrimRight(s[..n]);
            WellFormed(t) && t != [] && t == (if s[n - 1] == DASH then s[..n - 1] else s[..n])
  {
    var p := s[..n];
    if s[n - 1] == DASH {
      assert n > 1;
      assert p[..n - 1] == s[..n - 1] && s[n - 2] != DASH;
      assert TrimRight(p) == TrimRight(s[..n - 1]);
    }
  }

  lemma HexIsWordChars(s: Text)
    requires IsHex(s)
    ensures WellFormed(s) && forall i | 0 <= i < |s| :: s[i] != DASH
  {
    assert forall i | 0 <= i < |s| :: s[i] in s;
  }

  /** Whatever the slug, the name fits, is well formed, and is empty only when the slug is. */
  lemma FitIsLegal(h: Digest, slug: Text)
    requires WellFormed(slug)
    ensures WellFormed(Fit(h, slug)) && |Fit(h, slug)| <= MAX_CHILD_NAME
    ensures Fit(h, slug) == [] <==> slug == []
  {
    if |slug| > MAX_CHILD_NAME {
      TrimmedPrefix(slug, CHILD_NAME_PREFIX);
      var digest := Hex(h, slug);
      HexIsWordChars(digest);
      WellFormedDashed(TrimRight(slug[..CHILD_NAME_PREFIX]), digest);
    }
  }

  /** A slug that does not fit keeps its first 246 characters, less a dash they end in, and is told
      apart by the digest of the whole. */
  lemma CutNameShape(h: Digest, slug: Text)
    requires WellFormed(slug) && |slug| > MAX_CHILD_NAME
    ensures var n := if slug[CHILD_NAME_PREFIX - 1] == DASH then CHILD_NAME_PREFIX - 1 else CHILD_NAME_PREFIX;
            && Fit(h, slug) == slug[..n] + [DASH] + Hex(h, slug) && |Fit(h, slug)| == n + 1 + CHILD_NAME_DIGEST
            && SumOf(Fit(h, slug)[n + 1..]) == (h(slug).b0, h(slug).b1, h(slug).b2)
  {
    TrimmedPrefix(slug, CHILD_NAME_PREFIX);
    HexReadsBack(h, slug);
    var n := if slug[CHILD_NAME_PREFIX - 1] == DASH then CHILD_NAME_PREFIX - 1 else CHILD_NAME_PREFIX;
    assert Fit(h, slug)[n + 1..] == Hex(h, slug);
  }

  /** Two different slugs that both had to be cut have sums that begin differently. */
  ghost predicate DigestsDiffer(h: Digest, a: Text, b: Text) {
    a != b && |a| > MAX_CHILD_NAME && |b| > MAX_CHILD_NAME ==> h(a) != h(b)
  }

  /** A slug that fits is, to the letter, the cut name of one that does not. */
  predicate PassesForCut(h: Digest, plain: Text, long: Text) {
    |plain| <= MAX_CHILD_NAME < |long| && plain == Fit(h, long)
  }

  /** Two slugs that were cut to one front and got one digest. */
  predicate CutAlike(h: Digest, s: Text, t: Text) {
    && |s| > MAX_CHILD_NAME && |t| > MAX_CHILD_NAME && s != t
    && TrimRight(s[..CHILD_NAME_PREFIX]) == TrimRight(t[..CHILD_NAME_PREFIX]) && h(s) == h(t)
  }

  /** Every way two slugs come to one name, whatever the digest does. */
  lemma NamesAgreeIff(h: Digest, s: Text, t: Text)
    ensures Fit(h, s) == Fit(h, t) <==>
      s == t || PassesForCut(h, s, t) || PassesForCut(h, t, s) || CutAlike(h, s, t)
  {
    SameHexIff(h, s, t);
    hide TrimRight, Hex;
    if |s| > MAX_CHILD_NAME && |t| > MAX_CHILD_NAME && Fit(h, s) == Fit(h, t) {
      var a, b := TrimRight(s[..CHILD_NAME_PREFIX]), TrimRight(t[..CHILD_NAME_PREFIX]);
      var name := a + [DASH] + Hex(h, s);
      assert name == b + [DASH] + Hex(h, t);
      assert name[|name| - 6..] == Hex(h, s) && name[|name| - 6..] == Hex(h, t);
      assert name[..|name| - 7] == a && name[..|name| - 7] == b;
    }
  }

  lemma WellFormedDashed(a: Text, b: Text)
    requires WellFormed(a) && WellFormed(b) && a != [] && b != []
    ensures WellFormed(a + [DASH] + b)
  {
  }

  lemma {:induction false} JoinHasWordCharIff(ps: seq<Text>)
    ensures HasWordChar(Join(ps)) <==> exists p :: p in ps && HasWordChar(p)
  {
    if |ps| == 1 {
      assert ps[0] in ps;
    } else if |ps| > 1 {
      var front, last := ps[..|ps| - 1], ps[|ps| - 1];
      JoinHasWordCharIff(front);
      assert ps == front + [last];
      assert HasWordChar(Join(ps)) <==> HasWordChar(Join(front)) || HasWordChar(last) by {
        assert forall c :: c in Join(ps) <==> c in Join(front) || c == DASH || c in last;
        assert !IsWordChar(Lower(DASH));
      }
    }
  }

  /** The derived name is legal exactly when the parent or some segment has a letter or digit to
      contribute; otherwise it is empty. The truncated form is no exception. */
  lemma ChildNameLegalIff(h: Digest, parent: Text, path: seq<ChildSegment>)
    ensures var name := ChildNameOf(h, parent, path); var parts := Parts(parent, path);
            && (LegalName(name) <==> exists p :: p in parts && HasWordChar(p))
            && (!LegalName(name) ==> name == [])
  {
    var name, parts := ChildNameOf(h, parent, path), Parts(parent, path);
    var text := Join(parts);
    FixedPointIffWellFormed(text);
    FitIsLegal(h, Slug(text));
    FixedPointIffWellFormed(name);
    EmptySlugIff(text);
    JoinHasWordCharIff(parts);
    if name != [] {
      assert name[0] in name && name[|name| - 1] in name;
    }
  }

  // ---- A name that fits is its slugged parts --------------------------------------------------------

  function SlugsOf(ps: seq<Text>): seq<Text> {
    seq(|ps|, i requires 0 <= i < |ps| => Slug(ps[i]))
  }

  lemma {:induction false} SlugOfJoin(ps: seq<Text>)
    ensures Slug(Join(ps)) == Join(NonEmpty(SlugsOf(ps)))
    decreases |ps|
  {
    if ps == [] {
      EmptySlugIff([]);
    } else {
      var front, last := ps[..|ps| - 1], ps[|ps| - 1];
      assert SlugsOf(ps) == SlugsOf(front) + [Slug(last)];
      NonEmptyAppend(SlugsOf(front), [Slug(last)]);
      assert NonEmpty([Slug(last)]) == (if Slug(last) == [] then [] else [Slug(last)]) + NonEmpty([Slug(last)][1..]);
      if |ps| == 1 {
        assert SlugsOf(front) == [];
      } else {
        SlugOfJoin(front);
        SlugOfJoined(Join(front), last);
        JoinEmptyIff(SlugsOf(front));
        var kept := NonEmpty(SlugsOf(front));
        assert kept + [] == kept;
        if kept != [] && Slug(last) != [] {
          JoinAppend(kept, [Slug(last)]);
        }
      }
    }
  }

  lemma JoinEmptyIff(ps: seq<Text>)
    ensures Join(NonEmpty(ps)) == [] <==> NonEmpty(ps) == []
  {
    NonEmptyMeans(ps);
    var ws := NonEmpty(ps);
    if ws != [] {
      assert ws[|ws| - 1] in ws;
    }
  }

  /** A child name that fits is the dash-join of its parts' own slugs, empty ones left out. */
  lemma PlainChildNameIsSluggedParts(h: Digest, parent: Text, path: seq<ChildSegment>)
    requires |FullSlug(parent, path)| <= MAX_CHILD_NAME
    ensures ChildNameOf(h, parent, path) == Join(NonEmpty(SlugsOf(Parts(parent, path))))
  {
    SlugOfJoin(Parts(parent, path));
  }

  // ---- ChildPath ------------------------------------------------------------------------------------

  const SPEC: Text := [115, 112, 101, 99]
  const DOT := 46
  const OPEN := 91
  const CLOSE := 93

  function PathText(path: seq<ChildSegment>): Text {
    if path == [] then SPEC
    else
      var s := path[|path| - 1];
      PathText(path[..|path| - 1]) + ([DOT] + s.field + [OPEN] + s.key + [CLOSE])
  }

  method ChildPath(path: seq<ChildSegment>) returns (b: Text)
    ensures b == PathText(path)
  {
    b := SPEC;
    for i := 0 to |path|
      invariant b == PathText(path[..i])
    {
      assert path[..i + 1][..i] == path[..i];
      b := b + ([DOT] + path[i].field + [OPEN] + path[i].key + [CLOSE]);
    }
    assert path[..|path|] == path;
  }

  /** The two sides of the first c in s. */
  function Cut(s: Text, c: int): (r: Option<(Text, Text)>)
    ensures r.Some? ==> s == r.value.0 + [c] + r.value.1
  {
    if s == [] then None
    else if s[0] == c then
      assert s == [] + [c] + s[1..];
      Some(([], s[1..]))
    else
      var rest := Cut(s[1..], c);
      if rest.None? then None
      else
        assert s == [s[0]] + s[1..];
        Some(([s[0]] + rest.value.0, rest.value.1))
  }

  lemma {:induction false} CutAtFirst(a: Text, c: int, b: Text)
    requires c !in a
    ensures Cut(a + [c] + b, c) == Some((a, b))
  {
    var s := a + [c] + b;
    if a == [] {
      assert s[1..] == b;
    } else {
      assert a[0] in a && s[0] == a[0] && s[1..] == a[1..] + [c] + b;
      CutAtFirst(a[1..], c, b);
      assert a == [a[0]] + a[1..];
    }
  }

  /** Reading the segments of a path back: dot, field, key in brackets. */
  function ReadSegments(s: Text): Option<seq<(Text, Text)>>
    decreases |s|
  {
    if s == [] then Some([])
    else if s[0] != DOT then None
    else
      var f := Cut(s[1..], OPEN);
      if f.None? then None
      else
        var k := Cut(f.value.1, CLOSE);
        if k.None? then None
        else
          var rest := ReadSegments(k.value.1);
          if rest.None? then None else Some([(f.value.0, k.value.0)] + rest.value)
  }

  function ReadPath(s: Text): Option<seq<(Text, Text)>> {
    if |s| >= |SPEC| && s[..|SPEC|] == SPEC then ReadSegments(s[|SPEC|..]) else None
  }

  function Pairs(path: seq<ChildSegment>): seq<(Text, Text)> {
    seq(|path|, i requires 0 <= i < |path| => (path[i].field, path[i].key))
  }

  ghost predicate Readable(path: seq<ChildSegment>) {
    forall s | s in path :: OPEN !in s.field && CLOSE !in s.key
  }

  function SegmentsText(path: seq<ChildSegment>): Text {
    if path == [] then []
    else [DOT] + path[0].field + [OPEN] + path[0].key + [CLOSE] + SegmentsText(path[1..])
  }

  lemma PathTextSnoc(path: seq<ChildSegment>)
    requires path != []
    ensures var s := path[|path| - 1];
            PathText(path) == PathText(path[..|path| - 1]) + ([DOT] + s.field + [OPEN] + s.key + [CLOSE])
  {
  }

  lemma {:induction false} PathTextFromFront(path: seq<ChildSegment>)
    ensures PathText(path) == SPEC + SegmentsText(path)
    decreases |path|
  {
    hide PathText, SegmentsText;
    if path == [] {
      NoSegments();
    } else {
      var front, s := path[..|path| - 1], path[|path| - 1];
      var last := [DOT] + s.field + [OPEN] + s.key + [CLOSE];
      PathTextSnoc(path);
      PathTextFromFront(front);
      SegmentsTextSnoc(front, s);
      assert path == front + [s];
      assert SPEC + SegmentsText(front) + last == SPEC + (SegmentsText(front) + last);
    }
  }

  lemma NoSegments()
    ensures PathText([]) == SPEC && SegmentsText([]) == []
  {
  }

  lemma {:induction false} SegmentsTextSnoc(path: seq<ChildSegment>, s: ChildSegment)
    ensures SegmentsText(path + [s]) == SegmentsText(path) + ([DOT] + s.field + [OPEN] + s.key + [CLOSE])
  {
    if path == [] {
      assert (path + [s])[1..] == [];
    } else {
      assert (path + [s])[1..] == path[1..] + [s];
      SegmentsTextSnoc(path[1..], s);
    }
  }

  lemma ReadSegmentsUnfolds(text: Text, field: Text, afterField: Text, key: Text, rest: Text)
    requires text != [] && text[0] == DOT && Cut(text[1..], OPEN) == Some((field, afterField))
    requires Cut(afterField, CLOSE) == Some((key, rest)) && ReadSegments(rest).Some?
    ensures ReadSegments(text) == Some([(field, key)] + ReadSegments(rest).value)
  {
    hide Cut;
  }

  /** One segment's text, and what follows it, reads back. */
  lemma ReadOneBack(field: Text, key: Text, rest: Text)
    requires OPEN !in field && CLOSE !in key && ReadSegments(rest).Some?
    ensures ReadSegments([DOT] + field + [OPEN] + key + [CLOSE] + rest)
            == Some([(field, key)] + ReadSegments(rest).value)
  {
    hide Cut, ReadSegments;
    var text := [DOT] + field + [OPEN] + key + [CLOSE] + rest;
    var afterField := key + [CLOSE] + rest;
    assert text[1..] == field + [OPEN] + afterField;
    CutAtFirst(field, OPEN, afterField);
    CutAtFirst(key, CLOSE, rest);
    ReadSegmentsUnfolds(text, field, afterField, key, rest);
  }

  lemma {:induction false} ReadSegmentsBack(path: seq<ChildSegment>)
    requires Readable(path)
    ensures ReadSegments(SegmentsText(path)) == Some(Pairs(path))
  {
    if path != [] {
      var s, rest := path[0], path[1..];
      assert s in path && forall r | r in rest :: r in path;
      ReadSegmentsBack(rest);
      ReadOneBack(s.field, s.key, SegmentsText(rest));
      hide ReadSegments;
      assert Pairs(path) == [(s.field, s.key)] + Pairs(rest);
    }
  }

  /** A path reads back to its (field, key) list when no field holds "[" and no key "]". */
  lemma ChildPathReadsBack(path: seq<ChildSegment>)
    requires Readable(path)
    ensures ReadPath(PathText(path)) == Some(Pairs(path))
  {
    PathTextFromFront(path);
    ReadSegmentsBack(path);
    assert PathText(path)[|SPEC|..] == SegmentsText(path);
  }
}
