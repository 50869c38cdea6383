/** api/v1alpha1/dcim_device_inline.go:85-306: what the API server admits as a device's interfaces and
    addresses, and which admitted devices report that two of their children derive one name. */
module DeviceNames {
  import opened Options
  import opened Slugs
  import opened ChildNames
  import opened InlineTree
  import opened DeviceChildren

  // ---- Admission ------------------------------------------------------------------------------------

  const SLASH := 47
  const COLON := 58

  predicate IsDigit(c: int) {
    48 <= c <= 57
  }

  /** [0-9A-Fa-f.:] */
  predicate IsAddressChar(c: int) {
    IsDigit(c) || 65 <= c <= 70 || 97 <= c <= 102 || c == DOT || c == COLON
  }

  /** A decimal from 0 to 128 without leading zeros. */
  predicate IsMask(m: Text) {
    || (|m| == 1 && IsDigit(m[0]))
    || (|m| == 2 && 49 <= m[0] <= 57 && IsDigit(m[1]))
    || (|m| == 3 && m[0] == 49 && 48 <= m[1] <= 49 && IsDigit(m[2]))
    || (|m| == 3 && m[0] == 49 && m[1] == 50 && 48 <= m[2] <= 56)
  }

  predicate SplitsAt(a: Text, k: nat) {
    0 < k < |a| && a[k] == SLASH && (forall c | c in a[..k] :: IsAddressChar(c)) && IsMask(a[k + 1..])
  }

  predicate AddressAdmitted(a: Text) {
    4 <= |a| <= 43 && exists k: nat :: k < |a| && SplitsAt(a, k)
  }

  /** How many code points a UTF-8 text holds: its bytes that are not of the form 10xxxxxx. */
  function CodePoints(t: Text): nat {
    if t == [] then 0 else (if t[0] / 0x40 == 2 then 0 else 1) + CodePoints(t[1..])
  }

  predicate NameAdmitted(n: Text) {
    1 <= CodePoints(n) <= 64
  }

  /** The limits, patterns and list keys of the CRD, as far as names and addresses go. */
  ghost predicate Admitted(ifs: seq<InlineInterface>) {
    && |ifs| <= 128
    && (forall i, j | 0 <= i < j < |ifs| :: ifs[i].name != ifs[j].name)
    && forall i | i in ifs ::
         NameAdmitted(i.name) && |i.addresses| <= 16 && NoDuplicates(i.addresses)
         && forall a | a in i.addresses :: AddressAdmitted(a)
  }

  lemma AddressChars(a: Text)
    requires AddressAdmitted(a)
    ensures forall c | c in a :: IsAddressChar(c) || c == SLASH
  {
    var k: nat :| k < |a| && SplitsAt(a, k);
    forall c | c in a ensures IsAddressChar(c) || c == SLASH {
      var n :| 0 <= n < |a| && a[n] == c;
      if n < k {
        assert a[..k][n] == c;
      } else if n > k {
        assert a[k + 1..][n - k - 1] == c;
      }
    }
  }

  lemma AdmittedIsValid(ifs: seq<InlineInterface>)
    requires Admitted(ifs)
    ensures ValidInterfaces(ifs)
  {
    forall i, a | i in ifs && a in i.addresses ensures OPEN !in a && CLOSE !in a {
      AddressChars(a);
    }
  }

  lemma {:induction false} CodePointsAppend(a: Text, b: Text)
    ensures CodePoints(a + b) == CodePoints(a) + CodePoints(b)
  {
    if a == [] {
      assert a + b == b;
    } else {
      assert (a + b)[1..] == a[1..] + b;
      CodePointsAppend(a[1..], b);
    }
  }

  lemma {:induction false} AsciiCodePoints(t: Text)
    requires forall c | c in t :: c < 0x80
    ensures CodePoints(t) == |t|
  {
    if t != [] {
      assert t[0] in t && forall c | c in t[1..] :: c in t;
      AsciiCodePoints(t[1..]);
    }
  }

  /** An interface with one address, and a second one named after that address's path: the API server
      admits the pair, whose paths coincide, exactly when the name leaves room within 64 characters. */
  lemma ForgedDeviceAdmittedIff(eth0: Text, address: Text)
    requires NameAdmitted(eth0) && AddressAdmitted(address)
    ensures var ifs := [InlineInterface(eth0, [], [], [], [address]),
                        InlineInterface(AddressKey(eth0, address), [], [], [], [])];
            Forged(ifs) && (Admitted(ifs) <==> CodePoints(eth0) + |address| <= 52)
  {
    var key := AddressKey(eth0, address);
    var first, second := InlineInterface(eth0, [], [], [], [address]), InlineInterface(key, [], [], [], []);
    KeyCodePoints(eth0, address);
    AddressChars(address);
    hide CodePoints, AddressAdmitted, AddressKey;
    assert first in [first, second] && second in [first, second] && address in first.addresses;
    TwoAdmitted(first, second, address);
  }

  lemma KeyCodePoints(eth0: Text, address: Text)
    requires AddressAdmitted(address)
    ensures CodePoints(AddressKey(eth0, address)) == CodePoints(eth0) + 12 + |address|
    ensures AddressKey(eth0, address) != eth0
  {
    AddressChars(address);
    AsciiCodePoints(BETWEEN);
    AsciiCodePoints(address);
    CodePointsAppend(eth0 + BETWEEN, address);
    CodePointsAppend(eth0, BETWEEN);
    assert |AddressKey(eth0, address)| > |eth0|;
  }

  lemma TwoAdmitted(first: InlineInterface, second: InlineInterface, address: Text)
    requires first.name != second.name && first.addresses == [address] && second.addresses == []
    requires NameAdmitted(first.name) && AddressAdmitted(address)
    ensures Admitted([first, second]) <==> NameAdmitted(second.name)
  {
    hide NameAdmitted, AddressAdmitted;
    var ifs := [first, second];
    assert second in ifs && forall i | i in ifs :: i == first || i == second;
  }

  // ---- The slug a name is made of ---------------------------------------------------------------------

  lemma InterfaceWords(device: Text, name: Text)
    ensures FullSlug(device, InterfacePath(name)) == Join(Words(device) + Words(name))
  {
    InterfaceJoin(device, name);
    WordsAtSeparator(device, DASH, name);
  }

  lemma AddressWords(device: Text, name: Text, address: Text)
    ensures FullSlug(device, AddressPath(name, address)) == Join(Words(device) + Words(name) + [IP] + Words(address))
  {
    var path := AddressPath(name, address);
    assert path[..1] == InterfacePath(name) && InterfacePath(name)[..0] == [];
    var ps := [device, name, IP, address];
    assert Parts(device, InterfacePath(name)) == [device] + [name];
    assert Parts(device, path) == [device] + [name] + ([IP] + [address]) == ps;
    assert ps[..3] == [device, name, IP] && ps[..3][..2] == [device, name] && [device, name][..1] == [device];
    assert Join([device, name]) == device + [DASH] + name;
    assert Join([device, name, IP]) == device + [DASH] + name + [DASH] + IP;
    assert Join(ps) == device + [DASH] + name + [DASH] + IP + [DASH] + address;
    WordsAtSeparator(device, DASH, name);
    WordsAtSeparator(device + [DASH] + name, DASH, IP);
    WordsAtSeparator(device + [DASH] + name + [DASH] + IP, DASH, address);
    GoodWordIsOnePiece(IP);
    assert Words(IP) == [IP];
  }

  /** Words joined by dashes read back, so equal slugs mean equal words. */
  lemma JoinIsInjective(a: seq<Text>, b: seq<Text>)
    requires GoodWords(a) && GoodWords(b) && Join(a) == Join(b)
    ensures a == b
  {
    WordsOfJoin(a);
    WordsOfJoin(b);
  }

  lemma SameSlugSameWords(s: Text, t: Text)
    ensures Slug(s) == Slug(t) <==> Words(s) == Words(t)
  {
    WordsAreGood(s);
    WordsAreGood(t);
    if Slug(s) == Slug(t) {
      JoinIsInjective(Words(s), Words(t));
    }
  }

  /** The slugs of two interface children agree exactly when their keys have one slug: case and
      punctuation are lost, nothing else is. */
  lemma InterfaceSlugsAgreeIff(device: Text, k1: Text, k2: Text)
    ensures FullSlug(device, InterfacePath(k1)) == FullSlug(device, InterfacePath(k2)) <==> Slug(k1) == Slug(k2)
  {
    InterfaceWords(device, k1);
    InterfaceWords(device, k2);
    SameSlugSameWords(k1, k2);
    hide Slug, Words, FullSlug;
    WordsAreGood(device);
    WordsAreGood(k1);
    WordsAreGood(k2);
    if FullSlug(device, InterfacePath(k1)) == FullSlug(device, InterfacePath(k2)) {
      JoinIsInjective(Words(device) + Words(k1), Words(device) + Words(k2));
      assert Words(k1) == (Words(device) + Words(k1))[|Words(device)|..];
      assert Words(k2) == (Words(device) + Words(k2))[|Words(device)|..];
    }
  }

  /** Two interface children come to one name exactly when their keys have one slug, or the name of
      one is the cut name of the other, or both are cut to one front and one digest. */
  lemma InterfaceNamesCollideIff(h: Digest, device: Text, k1: Text, k2: Text)
    ensures var s1, s2 := FullSlug(device, InterfacePath(k1)), FullSlug(device, InterfacePath(k2));
            InterfaceChildName(h, device, k1) == InterfaceChildName(h, device, k2) <==>
              Slug(k1) == Slug(k2) || PassesForCut(h, s1, s2) || PassesForCut(h, s2, s1) || CutAlike(h, s1, s2)
  {
    InterfaceSlugsAgreeIff(device, k1, k2);
    NamesAgreeIff(h, FullSlug(device, InterfacePath(k1)), FullSlug(device, InterfacePath(k2)));
  }

  /** Two lists split at the last x agree only if their halves do. */
  lemma SplitAtLast<T>(a1: seq<T>, b1: seq<T>, a2: seq<T>, b2: seq<T>, x: T)
    requires a1 + [x] + b1 == a2 + [x] + b2 && x !in b1 && x !in b2
    ensures a1 == a2 && b1 == b2
  {
    var s := a1 + [x] + b1;
    assert s[|a1|] == x && s[|a2|] == x;
    assert forall i | |a1| < i < |s| :: s[i] == b1[i - |a1| - 1];
    assert forall i | |a2| < i < |s| :: s[i] == b2[i - |a2| - 1];
    assert s[..|a1|] == a1 && s[..|a2|] == a2 && s[|a1| + 1..] == b1 && s[|a2| + 1..] == b2;
  }

  lemma {:induction false} PiecesAreBounded(s: Text, n: int)
    requires forall c | c in s :: Lower(c) <= n
    ensures forall p, c | p in Pieces(s) && c in p :: c <= n
  {
    if s != [] {
      assert s[0] in s && forall c | c in s[1..] :: c in s;
      PiecesAreBounded(s[1..], n);
      var rest := Pieces(s[1..]);
      assert rest == [rest[0]] + rest[1..];
    }
  }

  /** No part of an address reads as the token put before it. */
  lemma AddressHasNoToken(a: Text)
    requires AddressAdmitted(a)
    ensures IP !in Words(a)
  {
    AddressChars(a);
    PiecesAreBounded(a, 102);
    NonEmptyMeans(Pieces(a));
    assert IP[0] in IP;
  }

  lemma AddressWordsAreGood(device: Text, n: Text, a: Text)
    ensures GoodWords(Words(device) + Words(n) + [IP] + Words(a))
  {
    hide Words;
    WordsAreGood(device);
    WordsAreGood(n);
    WordsAreGood(a);
  }

  lemma AddressSlugReadsBack(device: Text, n1: Text, a1: Text, n2: Text, a2: Text)
    requires AddressAdmitted(a1) && AddressAdmitted(a2)
    requires FullSlug(device, AddressPath(n1, a1)) == FullSlug(device, AddressPath(n2, a2))
    ensures Words(n1) == Words(n2) && Words(a1) == Words(a2)
  {
    hide *;
    AddressWords(device, n1, a1);
    AddressWords(device, n2, a2);
    AddressHasNoToken(a1);
    AddressHasNoToken(a2);
    AddressWordsAreGood(device, n1, a1);
    AddressWordsAreGood(device, n2, a2);
    var d1, d2 := Words(device) + Words(n1), Words(device) + Words(n2);
    JoinIsInjective(d1 + [IP] + Words(a1), d2 + [IP] + Words(a2));
    SplitAtLast(d1, Words(a1), d2, Words(a2), IP);
    assert Words(n1) == d1[|Words(device)|..] && Words(n2) == d2[|Words(device)|..];
  }

  /** The slug of an address child tells its interface's slug and its address's slug. */
  lemma AddressSlugsAgreeIff(device: Text, n1: Text, a1: Text, n2: Text, a2: Text)
    requires AddressAdmitted(a1) && AddressAdmitted(a2)
    ensures FullSlug(device, AddressPath(n1, a1)) == FullSlug(device, AddressPath(n2, a2)) <==>
      Slug(n1) == Slug(n2) && Slug(a1) == Slug(a2)
  {
    hide *;
    AddressWords(device, n1, a1);
    AddressWords(device, n2, a2);
    SameSlugSameWords(n1, n2);
    SameSlugSameWords(a1, a2);
    if FullSlug(device, AddressPath(n1, a1)) == FullSlug(device, AddressPath(n2, a2)) {
      AddressSlugReadsBack(device, n1, a1, n2, a2);
    }
  }

  // ---- When a device reports a clash ------------------------------------------------------------------

  predicate Declares(ifs: seq<InlineInterface>, id: Id) {
    match id
    case InterfaceId(name) => exists i :: i in ifs && i.name == name
    case AddressId(name, address) => exists i :: i in ifs && i.name == name && address in i.addresses
  }

  lemma {:induction false} IdsMean(ifs: seq<InlineInterface>, id: Id)
    ensures id in Ids(ifs) <==> Declares(ifs, id)
  {
    if ifs != [] {
      var first, rest := ifs[0], ifs[1..];
      IdsMean(rest, id);
      assert first in ifs && forall i :: i in ifs <==> i == first || i in rest;
      GroupIdsMean(first, id);
      assert Ids(ifs) == GroupIds(first) + Ids(rest);
    }
  }

  lemma GroupIdsMean(i: InlineInterface, id: Id)
    ensures id in GroupIds(i) <==> id.name == i.name && (id.AddressId? ==> id.address in i.addresses)
  {
    if id.AddressId? && id.name == i.name && id.address in i.addresses {
      var n :| 0 <= n < |i.addresses| && i.addresses[n] == id.address;
      assert GroupIds(i)[n + 1] == id;
    }
  }

  lemma {:induction false} IdsAreDistinct(ifs: seq<InlineInterface>)
    requires ValidInterfaces(ifs)
    ensures NoDuplicates(Ids(ifs))
  {
    if ifs != [] {
      var first, rest := ifs[0], ifs[1..];
      assert first in ifs && forall i | i in rest :: i in ifs;
      IdsAreDistinct(rest);
      forall id | id in GroupIds(first) ensures id !in Ids(rest) {
        GroupIdsMean(first, id);
        IdsMean(rest, id);
        assert forall n | 0 <= n < |rest| :: rest[n] == ifs[n + 1] && rest[n].name != first.name;
      }
      NoDuplicatesConcat(GroupIds(first), Ids(rest));
    }
  }

  /** Two children of one kind and one name. */
  predicate SameObject(h: Digest, device: Text, x: Id, y: Id) {
    IdKind(x) == IdKind(y) && ChildNameOf(h, device, IdPath(x)) == ChildNameOf(h, device, IdPath(y))
  }

  /** Two interfaces slug alike, or two addresses of one interface do. */
  ghost predicate SlugsClash(ifs: seq<InlineInterface>) {
    || (exists i, j :: i in ifs && j in ifs && i.name != j.name && Slug(i.name) == Slug(j.name))
    || (exists i, a, b :: i in ifs && a in i.addresses && b in i.addresses && a != b && Slug(a) == Slug(b))
  }

  function SlugOf(device: Text, id: Id): Text {
    FullSlug(device, IdPath(id))
  }

  /** One child is named, in full, what another of its kind is cut to. */
  ghost predicate PlainMeetsCut(h: Digest, device: Text, ifs: seq<InlineInterface>) {
    exists x, y :: x in Ids(ifs) && y in Ids(ifs) && IdKind(x) == IdKind(y)
                   && PassesForCut(h, SlugOf(device, x), SlugOf(device, y))
  }

  /** Two children of a kind are cut to one front and got one digest. */
  ghost predicate CutsMeet(h: Digest, device: Text, ifs: seq<InlineInterface>) {
    exists x, y :: x in Ids(ifs) && y in Ids(ifs) && IdKind(x) == IdKind(y)
                   && CutAlike(h, SlugOf(device, x), SlugOf(device, y))
  }

  ghost predicate AllFit(device: Text, ifs: seq<InlineInterface>) {
    forall id | id in Ids(ifs) :: |SlugOf(device, id)| <= MAX_CHILD_NAME
  }

  ghost predicate Clash(h: Digest, device: Text, ifs: seq<InlineInterface>) {
    exists x, y :: x in Ids(ifs) && y in Ids(ifs) && x != y && SameObject(h, device, x, y)
  }

  /** Alike slugs clash, however long the names are. */
  lemma SlugsClashMeansClash(h: Digest, device: Text, ifs: seq<InlineInterface>)
    requires Admitted(ifs) && SlugsClash(ifs)
    ensures Clash(h, device, ifs)
  {
    hide Slug, AddressAdmitted, NameAdmitted, FullSlug;
    if i, j :| i in ifs && j in ifs && i.name != j.name && Slug(i.name) == Slug(j.name) {
      var x, y := InterfaceId(i.name), InterfaceId(j.name);
      IdsMean(ifs, x);
      IdsMean(ifs, y);
      InterfaceSlugsAgreeIff(device, i.name, j.name);
      assert SameObject(h, device, x, y);
    } else {
      var i, a, b :| i in ifs && a in i.addresses && b in i.addresses && a != b && Slug(a) == Slug(b);
      var x, y := AddressId(i.name, a), AddressId(i.name, b);
      IdsMean(ifs, x);
      IdsMean(ifs, y);
      AddressSlugsAgreeIff(device, i.name, a, i.name, b);
      assert SameObject(h, device, x, y);
    }
  }

  /** Two children of one kind and one slug. */
  lemma SameSlugMeansSlugsClash(device: Text, ifs: seq<InlineInterface>, x: Id, y: Id)
    requires Admitted(ifs) && x in Ids(ifs) && y in Ids(ifs) && x != y && IdKind(x) == IdKind(y)
    requires SlugOf(device, x) == SlugOf(device, y)
    ensures SlugsClash(ifs)
  {
    hide Slug, AddressAdmitted, NameAdmitted, FullSlug, Ids;
    IdsMean(ifs, x);
    IdsMean(ifs, y);
    var i :| i in ifs && i.name == x.name && (x.AddressId? ==> x.address in i.addresses);
    var j :| j in ifs && j.name == y.name && (y.AddressId? ==> y.address in j.addresses);
    if x.InterfaceId? {
      InterfaceSlugsAgreeIff(device, x.name, y.name);
    } else {
      AddressSlugsAgreeIff(device, x.name, x.address, y.name, y.address);
      assert i.name == j.name ==> i == j;
    }
  }

  /** Exactly when two children of an admitted device come to one name: alike slugs, or one of the two
      ways the cut form leaves open. */
  lemma ClashIff(h: Digest, device: Text, ifs: seq<InlineInterface>)
    requires Admitted(ifs)
    ensures Clash(h, device, ifs) <==>
      SlugsClash(ifs) || PlainMeetsCut(h, device, ifs) || CutsMeet(h, device, ifs)
  {
    hide Admitted, SlugsClash, FullSlug, Ids, Fit, IdPath, IdKind;
    if x, y :| x in Ids(ifs) && y in Ids(ifs) && x != y && SameObject(h, device, x, y) {
      NamesAgreeIff(h, SlugOf(device, x), SlugOf(device, y));
      if SlugOf(device, x) == SlugOf(device, y) {
        SameSlugMeansSlugsClash(device, ifs, x, y);
      }
    }
    if SlugsClash(ifs) {
      SlugsClashMeansClash(h, device, ifs);
    }
    if x, y :| x in Ids(ifs) && y in Ids(ifs) && IdKind(x) == IdKind(y)
               && (PassesForCut(h, SlugOf(device, x), SlugOf(device, y))
                   || CutAlike(h, SlugOf(device, x), SlugOf(device, y)))
    {
      NamesAgreeIff(h, SlugOf(device, x), SlugOf(device, y));
      assert SameObject(h, device, x, y);
    }
  }

  /** Names that all fit clash for no other reason than alike slugs; so do names whose different cut
      slugs have different digests, unless one is named what another is cut to. */
  lemma FittingNamesClashIff(h: Digest, device: Text, ifs: seq<InlineInterface>)
    requires Admitted(ifs)
    ensures AllFit(device, ifs) ==> (Clash(h, device, ifs) <==> SlugsClash(ifs))
    ensures (forall x, y | x in Ids(ifs) && y in Ids(ifs) :: DigestsDiffer(h, SlugOf(device, x), SlugOf(device, y))) ==>
      (Clash(h, device, ifs) <==> SlugsClash(ifs) || PlainMeetsCut(h, device, ifs))
  {
    ClashIff(h, device, ifs);
    hide Clash, SlugsClash, Admitted, Ids, SlugOf, Fit;
  }

  lemma PairsAre(h: Digest, device: Text, ds: seq<Declared>, ids: seq<Id>, m: nat, n: nat)
    requires DeclaredAs(ds, ids) && m < |ds| && n < |ds|
    ensures var want := DeriveAll(h, device, ds);
            SameName(want[m], want[n]) <==> SameObject(h, device, ids[m], ids[n])
  {
    hide ChildNameOf, IdPath, IdKind, PathText;
  }

  /** The earlier and the later of two clashing children, as the pass meets them. */
  lemma ClashAsPositions(h: Digest, device: Text, ifs: seq<InlineInterface>, ds: seq<Declared>)
    requires DeclaredAs(ds, Ids(ifs)) && NoDuplicates(Ids(ifs))
    ensures var want := DeriveAll(h, device, ds);
            && |want| == |Ids(ifs)|
            && (Clash(h, device, ifs) <==> !NoClash(want))
  {
    hide Ids, SameName, ChildNameOf, IdPath, IdKind, Derive;
    var want, ids := DeriveAll(h, device, ds), Ids(ifs);
    if m, n :| 0 <= m < n < |want| && SameName(want[m], want[n]) {
      PairsAre(h, device, ds, ids, m, n);
      assert ids[m] in ids && ids[n] in ids && ids[m] != ids[n];
    }
    if Clash(h, device, ifs) {
      var x, y :| x in ids && y in ids && x != y && SameObject(h, device, x, y);
      var m :| 0 <= m < |ids| && ids[m] == x;
      var n :| 0 <= n < |ids| && ids[n] == y;
      PairsAre(h, device, ds, ids, m, n);
      PairsAre(h, device, ds, ids, n, m);
      assert if m < n then SameName(want[m], want[n]) else SameName(want[n], want[m]);
    }
  }

  /** What a report of a clash, or of none, says about the slugs. */
  lemma ReportMeans(h: Digest, device: Text, ifs: seq<InlineInterface>, want: seq<DesiredChild>, none: bool)
    requires Admitted(ifs) && want == DeriveAll(h, device, FlatSets(DeviceSets(h, device, ifs), []))
    requires none <==> NoClash(want)
    ensures |want| == |Ids(ifs)|
    ensures !none <==> SlugsClash(ifs) || PlainMeetsCut(h, device, ifs) || CutsMeet(h, device, ifs)
  {
    hide *;
    AdmittedIsValid(ifs);
    FlatDeviceIds(h, device, ifs);
    IdsAreDistinct(ifs);
    ClashAsPositions(h, device, ifs, FlatSets(DeviceSets(h, device, ifs), []));
    ClashIff(h, device, ifs);
  }

  // ---- What the children refer to ---------------------------------------------------------------------

  lemma {:induction false} OriginsMean(ifs: seq<InlineInterface>, o: Origin)
    ensures o in Origins(ifs) <==> o.i in ifs && (o.OfAddress? ==> o.address in o.i.addresses)
  {
    if ifs != [] {
      var first, rest := ifs[0], ifs[1..];
      OriginsMean(rest, o);
      assert forall i :: i in ifs <==> i == first || i in rest;
      if o.OfAddress? && o.i == first && o.address in first.addresses {
        var n :| 0 <= n < |first.addresses| && first.addresses[n] == o.address;
        assert GroupOrigins(first)[n + 1] == o;
      }
      assert OfInterface(first) == GroupOrigins(first)[0];
    }
  }

  /** An address comes after the interface it is nested under. */
  lemma {:induction false} InterfaceComesFirst(ifs: seq<InlineInterface>, p: nat) returns (q: nat)
    requires p < |Origins(ifs)| && Origins(ifs)[p].OfAddress?
    ensures q < p && Origins(ifs)[q] == OfInterface(Origins(ifs)[p].i)
  {
    var group := GroupOrigins(ifs[0]);
    if p < |group| {
      q := 0;
    } else {
      q := InterfaceComesFirst(ifs[1..], p - |group|);
      q := q + |group|;
    }
  }

  /** No reference for an empty key; else the name of the wanted interface child of that key, where
      there is one. */
  ghost predicate NamesSibling(want: seq<DesiredChild>, os: seq<Origin>, key: Text, ref: Option<Text>)
    requires |want| == |os|
  {
    && (ref.None? <==> key == [])
    && (key != [] ==>
          forall q | 0 <= q < |want| && os[q].OfInterface? && os[q].i.name == key :: ref == Some(want[q].name))
  }

  /** An interface child is its entry's, on this device, each of its references under its own key; an
      address child is its entry's and refers to the wanted child of the interface it is nested under. */
  ghost predicate RefersRight(device: Text, want: seq<DesiredChild>, os: seq<Origin>, p: int)
    requires |want| == |os| && 0 <= p < |want|
  {
    var c, i := want[p].child, os[p].i;
    match os[p]
    case OfInterface(_) =>
      && c.InterfaceChild? && c.deviceRef == device && c.name == i.name
      && NamesSibling(want, os, i.lag, c.lagRef)
      && NamesSibling(want, os, i.parent, c.parentRef)
      && NamesSibling(want, os, i.bridge, c.bridgeRef)
    case OfAddress(_, address) =>
      && c.AddressChild? && c.address == address
      && exists q :: 0 <= q < p && os[q] == OfInterface(i) && c.interfaceRef == want[q].name
  }

  ghost predicate AllReferRight(device: Text, want: seq<DesiredChild>, os: seq<Origin>) {
    |want| == |os| && forall p | 0 <= p < |want| :: RefersRight(device, want, os, p)
  }

  lemma InterfaceNameAt(h: Digest, device: Text, ds: seq<Declared>, os: seq<Origin>, q: nat)
    requires DeclaredBy(h, device, ds, os) && q < |ds| && os[q].OfInterface?
    ensures DeriveAll(h, device, ds)[q].name == ChildNameOf(h, device, [ChildSegment(INTERFACES, [], os[q].i.name)])
  {
  }

  lemma SiblingIsNamed(h: Digest, device: Text, ds: seq<Declared>, os: seq<Origin>, key: Text, ref: Option<Text>)
    requires DeclaredBy(h, device, ds, os) && RefersTo(h, device, key, ref)
    ensures |DeriveAll(h, device, ds)| == |os| && NamesSibling(DeriveAll(h, device, ds), os, key, ref)
  {
    hide ChildNameOf, IsChildOf, PathText, DeclaredBy;
    var want := DeriveAll(h, device, ds);
    SameLength(h, device, ds, os);
    forall q | 0 <= q < |want| && os[q].OfInterface? && os[q].i.name == key && key != []
      ensures ref == Some(want[q].name)
    {
      InterfaceNameAt(h, device, ds, os, q);
    }
  }

  lemma SameLength(h: Digest, device: Text, ds: seq<Declared>, os: seq<Origin>)
    requires DeclaredBy(h, device, ds, os)
    ensures |DeriveAll(h, device, ds)| == |ds| == |os|
    ensures forall p | 0 <= p < |ds| :: DeriveAll(h, device, ds)[p].child == ds[p].child
    ensures forall p | 0 <= p < |ds| :: IsChildOf(h, device, os[p], ds[p].child)
  {
  }

  lemma ReferencesAreRight(h: Digest, device: Text, ifs: seq<InlineInterface>)
    ensures AllReferRight(device, DeriveAll(h, device, FlatSets(DeviceSets(h, device, ifs), [])), Origins(ifs))
  {
    var ds, os := FlatSets(DeviceSets(h, device, ifs), []), Origins(ifs);
    FlatDevice(h, device, ifs);
    SameLength(h, device, ds, os);
    hide FlatSets, DeviceSets, Origins, DeriveAll, DeclaredBy, NamesSibling, RefersTo, ChildNameOf;
    var want := DeriveAll(h, device, ds);
    forall p | 0 <= p < |want| ensures RefersRight(device, want, os, p) {
      var c, i := want[p].child, os[p].i;
      assert IsChildOf(h, device, os[p], c);
      if os[p].OfInterface? {
        SiblingIsNamed(h, device, ds, os, i.lag, c.lagRef);
        SiblingIsNamed(h, device, ds, os, i.parent, c.parentRef);
        SiblingIsNamed(h, device, ds, os, i.bridge, c.bridgeRef);
      } else {
        var q := InterfaceComesFirst(ifs, p);
        InterfaceNameAt(h, device, ds, os, q);
      }
    }
  }

  /** The device's whole pass: its tree flattened, and the clash that stops it from being written. */
  method Materialise(h: Digest, device: Text, ifs: seq<InlineInterface>)
    returns (m: Materialisation, clash: Option<(nat, nat)>)
    requires Admitted(ifs)
    ensures |m.want| == |Ids(ifs)|
    ensures AllReferRight(device, m.want, Origins(ifs))
    ensures NoDuplicates(PathsOf(m.want)) <==> !Forged(ifs)
    ensures clash.Some? <==> SlugsClash(ifs) || PlainMeetsCut(h, device, ifs) || CutsMeet(h, device, ifs)
    ensures clash.Some? ==> EarliestClash(m.want, clash.value.0, clash.value.1)
  {
    hide *;
    AdmittedIsValid(ifs);
    var sets := InlineChildren(h, device, ifs);
    m := new Materialisation(h, device);
    m.Desire(sets, []);
    assert m.want == DeriveAll(h, device, FlatSets(sets, []));
    ReferencesAreRight(h, device, ifs);
    PathsDistinctIffNotForged(h, device, ifs);
    clash := m.Collision();
    ReportMeans(h, device, ifs, m.want, clash.None?);
  }

  lemma NoWords()
    ensures Words([]) == []
  {
  }

  /** Where the colons stand is lost. */
  lemma ColonsSlugAlike(p: Text, q: Text, r: Text, mask: Text)
    ensures Slug(p + [COLON] + q + [COLON] + [] + [COLON] + r + [SLASH] + mask)
         == Slug(p + [COLON] + q + [COLON] + r + [COLON] + [] + [COLON] + [] + [SLASH] + mask)
  {
    hide Words;
    NoWords();
    var pq := p + [COLON] + q;
    WordsAtSeparator(p, COLON, q);
    WordsAtSeparator(pq, COLON, []);
    WordsAtSeparator(pq + [COLON] + [], COLON, r);
    WordsAtSeparator(pq + [COLON] + [] + [COLON] + r, SLASH, mask);
    WordsAtSeparator(pq, COLON, r);
    WordsAtSeparator(pq + [COLON] + r, COLON, []);
    WordsAtSeparator(pq + [COLON] + r + [COLON] + [], COLON, []);
    WordsAtSeparator(pq + [COLON] + r + [COLON] + [] + [COLON] + [], SLASH, mask);
    var words := Words(p) + Words(q) + Words(r) + Words(mask);
    assert Words(pq + [COLON] + [] + [COLON] + r + [SLASH] + mask) == words;
    assert Words(pq + [COLON] + r + [COLON] + [] + [COLON] + [] + [SLASH] + mask) == words;
  }

  const T2001: Text := [50, 48, 48, 49]
  const TDB8: Text := [100, 98, 56]
  const T1: Text := [49]
  const T64: Text := [54, 52]

  /** `2001:db8::1/64` and `2001:db8:1::/64`, both admitted on one interface, clash on any device. */
  lemma TwoAddressesClash(h: Digest, device: Text)
    ensures var a := T2001 + [COLON] + TDB8 + [COLON] + [] + [COLON] + T1 + [SLASH] + T64;
            var b := T2001 + [COLON] + TDB8 + [COLON] + T1 + [COLON] + [] + [COLON] + [] + [SLASH] + T64;
            var ifs := [InlineInterface(T1, [], [], [], [a, b])];
            Admitted(ifs) && SlugsClash(ifs) && Clash(h, device, ifs)
  {
    hide Slug, Clash;
    var a := T2001 + [COLON] + TDB8 + [COLON] + [] + [COLON] + T1 + [SLASH] + T64;
    var b := T2001 + [COLON] + TDB8 + [COLON] + T1 + [COLON] + [] + [COLON] + [] + [SLASH] + T64;
    var i := InlineInterface(T1, [], [], [], [a, b]);
    ColonsSlugAlike(T2001, TDB8, T1, T64);
    assert a[9] != b[9];
    assert SplitsAt(a, 11) && SplitsAt(b, 12);
    AsciiCodePoints(T1);
    assert a in i.addresses && b in i.addresses && i in [i];
    SlugsClashMeansClash(h, device, [i]);
  }

  function Repeat(n: nat, c: int): (t: Text)
    ensures |t| == n && forall i | 0 <= i < n :: t[i] == c
  {
    if n == 0 then [] else Repeat(n - 1, c) + [c]
  }

  function A190(): (t: Text)
    ensures |t| == 190 && forall i | 0 <= i < 190 :: t[i] == 97
  {
    Repeat(190, 97)
  }

  function B55(): (t: Text)
    ensures |t| == 55 && forall i | 0 <= i < 55 :: t[i] == 98
  {
    Repeat(55, 98)
  }

  function B64(): (t: Text)
    ensures |t| == 64 && forall i | 0 <= i < 64 :: t[i] == 98
  {
    Repeat(64, 98)
  }

  /** On a device of 190 a's: what the interface of 64 b's is cut to. */
  function CutOfB64(h: Digest): Text {
    [DASH] + Hex(h, A190() + [DASH] + B64())
  }

  /** The digest does not keep long siblings apart from short ones: whatever it is, an interface of 55
      b's and the digest of its sibling, both admitted, is named what that sibling is cut to. */
  lemma PlainNameMeetsCutName(h: Digest)
    ensures var ifs := [InlineInterface(B64(), [], [], [], []), InlineInterface(B55() + CutOfB64(h), [], [], [], [])];
            && Admitted(ifs) && !SlugsClash(ifs) && !CutsMeet(h, A190(), ifs)
            && PlainMeetsCut(h, A190(), ifs) && Clash(h, A190(), ifs)
  {
    hide *;
    var key := B55() + CutOfB64(h);
    var ifs := [InlineInterface(B64(), [], [], [], []), InlineInterface(key, [], [], [], [])];
    TwoSlugs(h);
    TwoInterfaces(B64(), key);
    CutMeetsPlain(h, key, ifs);
    ClashIff(h, A190(), ifs);
  }

  lemma TwoInterfaces(n1: Text, n2: Text)
    requires NameAdmitted(n1) && NameAdmitted(n2) && n1 != n2 && Slug(n1) != Slug(n2)
    ensures var ifs := [InlineInterface(n1, [], [], [], []), InlineInterface(n2, [], [], [], [])];
            Admitted(ifs) && !SlugsClash(ifs) && Ids(ifs) == [InterfaceId(n1), InterfaceId(n2)]
  {
    hide Slug, NameAdmitted;
    var first, second := InlineInterface(n1, [], [], [], []), InlineInterface(n2, [], [], [], []);
    assert forall i | i in [first, second] :: i == first || i == second;
    assert GroupIds(first) == [InterfaceId(n1)] && GroupIds(second) == [InterfaceId(n2)];
    assert [first, second][1..] == [second] && [second][1..] == [];
    assert Ids([second]) == GroupIds(second) + [];
  }

  lemma CutMeetsPlain(h: Digest, key: Text, ifs: seq<InlineInterface>)
    requires Ids(ifs) == [InterfaceId(B64()), InterfaceId(key)]
    requires |SlugOf(A190(), InterfaceId(B64()))| > MAX_CHILD_NAME
    requires |SlugOf(A190(), InterfaceId(key))| <= MAX_CHILD_NAME
    requires SlugOf(A190(), InterfaceId(key)) == Fit(h, SlugOf(A190(), InterfaceId(B64())))
    ensures PlainMeetsCut(h, A190(), ifs) && !CutsMeet(h, A190(), ifs)
  {
    hide SlugOf, Fit, A190, B64;
    var x, y := InterfaceId(B64()), InterfaceId(key);
    assert x in Ids(ifs) && y in Ids(ifs);
    assert PassesForCut(h, SlugOf(A190(), y), SlugOf(A190(), x));
  }

  lemma TwoKeys(h: Digest)
    ensures var key := B55() + CutOfB64(h);
            && WellFormed(key) && |key| == 62 && NameAdmitted(B64()) && NameAdmitted(key)
            && Slug(B64()) == B64() && Slug(key) == key
  {
    hide Repeat, A190, B55, B64, Slug, Hex, CodePoints;
    var hex := Hex(h, A190() + [DASH] + B64());
    HexIsWordChars(hex);
    var key := B55() + [DASH] + hex;
    assert key == B55() + CutOfB64(h);
    assert forall c | c in hex :: c < 0x80;
    AsciiCodePoints(B64());
    AsciiCodePoints(key);
    WellFormedDashed(B55(), hex);
    FixedPointIffWellFormed(B64());
    FixedPointIffWellFormed(key);
  }

  lemma TwoNames(h: Digest)
    ensures var key, long := B55() + CutOfB64(h), A190() + [DASH] + B64();
            && Slug(long) == long && |long| == 255
            && Slug(A190() + [DASH] + key) == A190() + [DASH] + key == Fit(h, long) && |Fit(h, long)| == 253
  {
    hide Repeat, A190, B55, B64, Slug, Hex;
    TwoKeys(h);
    var key, long := B55() + CutOfB64(h), A190() + [DASH] + B64();
    WellFormedDashed(A190(), B64());
    WellFormedDashed(A190(), key);
    FixedPointIffWellFormed(long);
    FixedPointIffWellFormed(A190() + [DASH] + key);
    var front := long[..CHILD_NAME_PREFIX];
    assert front == A190() + [DASH] + B55();
    assert TrimRight(front) == front;
    assert A190() + [DASH] + key == front + [DASH] + Hex(h, long);
  }

  /** The keys and the slugs of the two, spelled out. */
  lemma TwoSlugs(h: Digest)
    ensures var key, long := B55() + CutOfB64(h), A190() + [DASH] + B64();
            && NameAdmitted(B64()) && NameAdmitted(key) && B64() != key && Slug(B64()) != Slug(key)
            && SlugOf(A190(), InterfaceId(B64())) == long && |long| > MAX_CHILD_NAME
            && SlugOf(A190(), InterfaceId(key)) == Fit(h, long) && |Fit(h, long)| <= MAX_CHILD_NAME
  {
    hide Repeat, A190, B55, B64, Slug, Hex, NameAdmitted, CutOfB64, Fit, InterfacePath, FullSlug;
    TwoKeys(h);
    TwoNames(h);
    InterfaceJoin(A190(), B64());
    InterfaceJoin(A190(), B55() + CutOfB64(h));
  }

  lemma InterfaceJoin(device: Text, name: Text)
    ensures FullSlug(device, InterfacePath(name)) == Slug(device + [DASH] + name)
  {
    assert InterfacePath(name)[..0] == [];
    assert Parts(device, InterfacePath(name)) == [device] + [name];
    assert ([device] + [name])[..1] == [device];
    assert Join([device] + [name]) == device + [DASH] + name;
  }
}
