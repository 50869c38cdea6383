/** api/v1alpha1/dcim_device_inline.go:304-426: a device's inline interfaces and the addresses nested
    under them, and when two of their owned-by paths or two of their names coincide. */
module DeviceChildren {
  import opened Options
  import opened ChildNames
  import opened InlineTree
  import Utf8

  const INTERFACES: Text := [105, 110, 116, 101, 114, 102, 97, 99, 101, 115]
  const ADDRESSES: Text := [97, 100, 100, 114, 101, 115, 115, 101, 115]
  const IP: Text := [105, 112]

  lemma FieldTokens()
    ensures Utf8.Spells(INTERFACES, "interfaces") && Utf8.Spells(ADDRESSES, "addresses") && Utf8.Spells(IP, "ip")
    ensures Utf8.Spells(SPEC, "spec")
  {
  }

  /** `lag`, `parent` and `bridge` are sibling keys, empty when the entry names none. */
  datatype InlineInterface = InlineInterface(name: Text, lag: Text, parent: Text, bridge: Text, addresses: seq<Text>)

  // ---- The tree ---------------------------------------------------------------------------------------

  function InterfacePath(key: Text): seq<ChildSegment> {
    [ChildSegment(INTERFACES, [], key)]
  }

  function AddressPath(key: Text, address: Text): seq<ChildSegment> {
    [ChildSegment(INTERFACES, [], key), ChildSegment(ADDRESSES, IP, address)]
  }

  function InterfaceChildName(h: Digest, device: Text, key: Text): Text {
    ChildNameOf(h, device, InterfacePath(key))
  }

  function SiblingRef(h: Digest, device: Text, key: Text): Option<Text> {
    if key == [] then None else Some(InterfaceChildName(h, device, key))
  }

  function InterfaceOf(h: Digest, device: Text, i: InlineInterface): Child {
    InterfaceChild(device, i.name, SiblingRef(h, device, i.lag), SiblingRef(h, device, i.parent),
                   SiblingRef(h, device, i.bridge))
  }

  function AddressEntry(h: Digest, device: Text, i: InlineInterface, address: Text): InlineChildEntry {
    InlineChildEntry(address, Some(AddressChild(address, InterfaceChildName(h, device, i.name))), [])
  }

  function AddressEntries(h: Digest, device: Text, i: InlineInterface): seq<InlineChildEntry> {
    seq(|i.addresses|, n requires 0 <= n < |i.addresses| => AddressEntry(h, device, i, i.addresses[n]))
  }

  function AddressSets(h: Digest, device: Text, i: InlineInterface): seq<InlineChildSet> {
    if i.addresses == [] then [] else [InlineChildSet(ADDRESSES, IP, AddressEntries(h, device, i))]
  }

  function InterfaceEntry(h: Digest, device: Text, i: InlineInterface): InlineChildEntry {
    InlineChildEntry(i.name, Some(InterfaceOf(h, device, i)), AddressSets(h, device, i))
  }

  function DeviceSets(h: Digest, device: Text, ifs: seq<InlineInterface>): seq<InlineChildSet> {
    [InlineChildSet(INTERFACES, [], seq(|ifs|, n requires 0 <= n < |ifs| => InterfaceEntry(h, device, ifs[n])))]
  }

  /** `addresses`: no set at all for an interface with none. */
  method Addresses(h: Digest, device: Text, i: InlineInterface) returns (sets: seq<InlineChildSet>)
    ensures sets == AddressSets(h, device, i)
  {
    if i.addresses == [] {
      return [];
    }
    ghost var all := AddressEntries(h, device, i);
    hide AddressEntry;
    var entries: seq<InlineChildEntry> := [];
    for n := 0 to |i.addresses|
      invariant entries == all[..n]
    {
      assert all[..n + 1] == all[..n] + [all[n]];
      entries := entries + [AddressEntry(h, device, i, i.addresses[n])];
    }
    assert all[..|all|] == all;
    return [InlineChildSet(ADDRESSES, IP, entries)];
  }

  method InlineChildren(h: Digest, device: Text, ifs: seq<InlineInterface>) returns (sets: seq<InlineChildSet>)
    ensures sets == DeviceSets(h, device, ifs)
  {
    hide InterfaceOf, AddressSets;
    ghost var all := DeviceSets(h, device, ifs)[0].entries;
    var entries: seq<InlineChildEntry> := [];
    for n := 0 to |ifs|
      invariant entries == all[..n]
    {
      assert all[..n + 1] == all[..n] + [all[n]];
      var nested := Addresses(h, device, ifs[n]);
      entries := entries + [InlineChildEntry(ifs[n].name, Some(InterfaceOf(h, device, ifs[n])), nested)];
    }
    assert all[..|all|] == all;
    sets := [InlineChildSet(INTERFACES, [], entries)];
  }

  // ---- Paths as extended keys ---------------------------------------------------------------------------

  /** "].addresses[": what an address path puts between its interface's key and its own. */
  const BETWEEN: Text := [CLOSE, DOT] + ADDRESSES + [OPEN]

  const BEFORE: Text := SPEC + [DOT] + INTERFACES + [OPEN]

  function AddressKey(name: Text, address: Text): Text {
    name + BETWEEN + address
  }

  lemma PathTexts(key: Text, address: Text)
    ensures PathText(InterfacePath(key)) == BEFORE + key + [CLOSE]
    ensures PathText(AddressPath(key, address)) == BEFORE + AddressKey(key, address) + [CLOSE]
  {
    assert InterfacePath(key)[..0] == [];
    assert PathText(InterfacePath(key)) == SPEC + ([DOT] + INTERFACES + [OPEN] + key + [CLOSE]);
    assert AddressPath(key, address)[..1] == InterfacePath(key);
  }

  /** Two keys that hold no "[" after the joint agree only where both halves do. */
  lemma AddressKeysAgree(n1: Text, a1: Text, n2: Text, a2: Text)
    requires OPEN !in a1 && OPEN !in a2 && AddressKey(n1, a1) == AddressKey(n2, a2)
    ensures n1 == n2 && a1 == a2
  {
    var s1, s2 := n1 + BETWEEN, n2 + BETWEEN;
    var k := AddressKey(n1, a1);
    assert k[|s1| - 1] == OPEN && k[|s2| - 1] == OPEN;
    assert forall i | |s1| <= i < |k| :: k[i] == a1[i - |s1|] && k[i] != OPEN;
    assert forall i | |s2| <= i < |k| :: k[i] == a2[i - |s2|] && k[i] != OPEN;
    assert k[..|n1|] == n1 && k[..|n2|] == n2 && k[|s1|..] == a1 && k[|s2|..] == a2;
  }

  /** The key of every declared child, in the order the tree is flattened. */
  function Group(i: InlineInterface): seq<Text> {
    [i.name] + AddressKeys(i.name, i.addresses)
  }

  function AddressKeys(name: Text, addresses: seq<Text>): seq<Text> {
    seq(|addresses|, n requires 0 <= n < |addresses| => AddressKey(name, addresses[n]))
  }

  function Keys(ifs: seq<InlineInterface>): seq<Text> {
    if ifs == [] then [] else Group(ifs[0]) + Keys(ifs[1..])
  }

  ghost predicate NoDuplicates<T>(s: seq<T>) {
    forall i, j | 0 <= i < j < |s| :: s[i] != s[j]
  }

  /** What the API server admits: list keys distinct, no bracket in an address. */
  ghost predicate ValidInterfaces(ifs: seq<InlineInterface>) {
    && (forall i, j | 0 <= i < j < |ifs| :: ifs[i].name != ifs[j].name)
    && forall i | i in ifs :: NoDuplicates(i.addresses) && forall a | a in i.addresses :: OPEN !in a && CLOSE !in a
  }

  /** An interface named like another one's address path. */
  ghost predicate Forged(ifs: seq<InlineInterface>) {
    exists i, j, a :: i in ifs && j in ifs && a in j.addresses && i.name == AddressKey(j.name, a)
  }

  lemma {:induction false} KeysMeans(ifs: seq<InlineInterface>, k: Text)
    ensures k in Keys(ifs) <==> exists i :: i in ifs && k in Group(i)
  {
    if ifs != [] {
      KeysMeans(ifs[1..], k);
      assert ifs[0] in ifs && forall i :: i in ifs <==> i == ifs[0] || i in ifs[1..];
    }
  }

  lemma GroupMeans(i: InlineInterface, k: Text)
    ensures k in Group(i) <==> k == i.name || exists a :: a in i.addresses && k == AddressKey(i.name, a)
  {
    if exists a :: a in i.addresses && k == AddressKey(i.name, a) {
      var a :| a in i.addresses && k == AddressKey(i.name, a);
      var n :| 0 <= n < |i.addresses| && i.addresses[n] == a;
      assert Group(i)[n + 1] == k;
    }
  }

  lemma GroupIsDistinct(i: InlineInterface)
    requires NoDuplicates(i.addresses) && forall a | a in i.addresses :: OPEN !in a
    ensures NoDuplicates(Group(i))
  {
    var g := Group(i);
    forall m, n | 0 <= m < n < |g| ensures g[m] != g[n] {
      if m == 0 {
        assert |g[n]| > |g[m]|;
      } else if g[m] == g[n] {
        AddressKeysAgree(i.name, i.addresses[m - 1], i.name, i.addresses[n - 1]);
      }
    }
  }

  /** Two interfaces share a key only if one is named like an address of the other. */
  lemma SharedKeyIsForged(ifs: seq<InlineInterface>, i: InlineInterface, j: InlineInterface, k: Text)
    requires i in ifs && j in ifs && i.name != j.name && k in Group(i) && k in Group(j)
    requires forall o, a | o in ifs && a in o.addresses :: OPEN !in a
    ensures Forged(ifs)
  {
    GroupMeans(i, k);
    GroupMeans(j, k);
    if k != i.name && k != j.name {
      var a :| a in i.addresses && k == AddressKey(i.name, a);
      var b :| b in j.addresses && k == AddressKey(j.name, b);
      AddressKeysAgree(i.name, a, j.name, b);
    }
  }

  lemma {:induction false} KeysDistinctUnlessForged(all: seq<InlineInterface>, ifs: seq<InlineInterface>)
    requires ValidInterfaces(ifs) && !Forged(all) && forall i | i in ifs :: i in all
    requires forall o, a | o in all && a in o.addresses :: OPEN !in a
    ensures NoDuplicates(Keys(ifs))
    decreases |ifs|
  {
    if ifs != [] {
      var first, rest := ifs[0], ifs[1..];
      assert first in ifs && forall i | i in rest :: i in ifs;
      KeysDistinctUnlessForged(all, rest);
      GroupIsDistinct(first);
      forall k | k in Group(first) ensures k !in Keys(rest) {
        KeysMeans(rest, k);
        if k in Keys(rest) {
          var j :| j in rest && k in Group(j);
          var n :| 0 <= n < |rest| && rest[n] == j;
          assert ifs[n + 1] == j && ifs[0].name != ifs[n + 1].name;
          SharedKeyIsForged(all, first, j, k);
        }
      }
      NoDuplicatesConcat(Group(first), Keys(rest));
    }
  }

  lemma NoDuplicatesConcat<T>(a: seq<T>, b: seq<T>)
    requires NoDuplicates(a) && NoDuplicates(b) && forall x | x in a :: x !in b
    ensures NoDuplicates(a + b)
  {
    forall i, j | 0 <= i < j < |a + b| ensures (a + b)[i] != (a + b)[j] {
      if i < |a| <= j {
        assert a[i] in a && b[j - |a|] in b;
      }
    }
  }

  lemma {:induction false} ForgedKeysRepeat(ifs: seq<InlineInterface>, i: InlineInterface, j: InlineInterface, a: Text)
    requires i in ifs && j in ifs && a in j.addresses && i.name == AddressKey(j.name, a)
    ensures !NoDuplicates(Keys(ifs))
    decreases |ifs|
  {
    hide Group, AddressKey;
    var first, rest := ifs[0], ifs[1..];
    assert ifs == [first] + rest;
    assert i != j by { LongerKey(j.name, a); }
    GroupMeans(i, i.name);
    GroupMeans(j, i.name);
    KeysMeans(rest, i.name);
    if i in rest && j in rest {
      ForgedKeysRepeat(rest, i, j, a);
    }
    RepeatInConcat(Group(first), Keys(rest), i.name);
  }

  lemma LongerKey(name: Text, address: Text)
    ensures AddressKey(name, address) != name
  {
    assert |AddressKey(name, address)| > |name|;
  }

  lemma RepeatInConcat<T>(a: seq<T>, b: seq<T>, x: T)
    ensures !NoDuplicates(b) ==> !NoDuplicates(a + b)
    ensures x in a && x in b ==> !NoDuplicates(a + b)
  {
    var all := a + b;
    if !NoDuplicates(b) {
      var m, n :| 0 <= m < n < |b| && b[m] == b[n];
      assert all[m + |a|] == all[n + |a|];
    }
    if x in a && x in b {
      var m :| 0 <= m < |a| && a[m] == x;
      var n :| 0 <= n < |b| && b[n] == x;
      assert all[m] == all[n + |a|];
    }
  }

  // ---- The flattened tree -------------------------------------------------------------------------------

  /** A declared child by what names it: an interface's name, or that and an address under it. */
  datatype Id = InterfaceId(name: Text) | AddressId(name: Text, address: Text)

  function IdPath(id: Id): seq<ChildSegment> {
    match id
    case InterfaceId(name) => InterfacePath(name)
    case AddressId(name, address) => AddressPath(name, address)
  }

  function IdKind(id: Id): Kind {
    if id.InterfaceId? then InterfaceKind else AddressKind
  }

  function AddressIds(name: Text, addresses: seq<Text>): seq<Id> {
    seq(|addresses|, n requires 0 <= n < |addresses| => AddressId(name, addresses[n]))
  }

  function GroupIds(i: InlineInterface): seq<Id> {
    [InterfaceId(i.name)] + AddressIds(i.name, i.addresses)
  }

  function Ids(ifs: seq<InlineInterface>): seq<Id> {
    if ifs == [] then [] else GroupIds(ifs[0]) + Ids(ifs[1..])
  }

  /** The entry a child is declared by: an interface, or one of its addresses. */
  datatype Origin = OfInterface(i: InlineInterface) | OfAddress(i: InlineInterface, address: Text)

  function IdOf(o: Origin): Id {
    match o
    case OfInterface(i) => InterfaceId(i.name)
    case OfAddress(i, address) => AddressId(i.name, address)
  }

  function AddressOrigins(i: InlineInterface, addresses: seq<Text>): seq<Origin> {
    seq(|addresses|, n requires 0 <= n < |addresses| => OfAddress(i, addresses[n]))
  }

  function GroupOrigins(i: InlineInterface): seq<Origin> {
    [OfInterface(i)] + AddressOrigins(i, i.addresses)
  }

  function Origins(ifs: seq<InlineInterface>): seq<Origin> {
    if ifs == [] then [] else GroupOrigins(ifs[0]) + Origins(ifs[1..])
  }

  lemma {:induction false} OriginsTellIds(ifs: seq<InlineInterface>)
    ensures |Origins(ifs)| == |Ids(ifs)| && forall p | 0 <= p < |Ids(ifs)| :: IdOf(Origins(ifs)[p]) == Ids(ifs)[p]
  {
    if ifs != [] {
      OriginsTellIds(ifs[1..]);
    }
  }

  /** An empty key refers to nothing, any other to the interface child of that key. */
  predicate RefersTo(h: Digest, device: Text, key: Text, ref: Option<Text>) {
    if key == [] then ref == None else ref == Some(ChildNameOf(h, device, [ChildSegment(INTERFACES, [], key)]))
  }

  /** The child that the materialiser is to apply for an entry. */
  predicate IsChildOf(h: Digest, device: Text, o: Origin, c: Child) {
    match o
    case OfInterface(i) =>
      && c.InterfaceChild? && c.deviceRef == device && c.name == i.name
      && RefersTo(h, device, i.lag, c.lagRef) && RefersTo(h, device, i.parent, c.parentRef)
      && RefersTo(h, device, i.bridge, c.bridgeRef)
    case OfAddress(i, address) =>
      && c.AddressChild? && c.address == address
      && c.interfaceRef == ChildNameOf(h, device, [ChildSegment(INTERFACES, [], i.name)])
  }

  /** The declared children ds are those of the entries os, in that order. */
  ghost predicate DeclaredBy(h: Digest, device: Text, ds: seq<Declared>, os: seq<Origin>) {
    |ds| == |os| && forall p | 0 <= p < |ds| ::
      ds[p].path == IdPath(IdOf(os[p])) && IsChildOf(h, device, os[p], ds[p].child)
  }

  lemma DeclaredByConcat(h: Digest, device: Text, d1: seq<Declared>, os1: seq<Origin>,
                         d2: seq<Declared>, os2: seq<Origin>)
    requires DeclaredBy(h, device, d1, os1) && DeclaredBy(h, device, d2, os2)
    ensures DeclaredBy(h, device, d1 + d2, os1 + os2)
  {
    hide IsChildOf, IdPath, IdOf;
  }

  lemma AddressIsChildOf(h: Digest, device: Text, i: InlineInterface, address: Text)
    ensures AddressEntry(h, device, i, address).desired.Some? && AddressEntry(h, device, i, address).key == address
    ensures AddressEntry(h, device, i, address).children == []
    ensures IsChildOf(h, device, OfAddress(i, address), AddressEntry(h, device, i, address).desired.value)
  {
  }

  lemma InterfaceIsChildOf(h: Digest, device: Text, i: InlineInterface)
    ensures IsChildOf(h, device, OfInterface(i), InterfaceOf(h, device, i))
  {
  }

  lemma {:induction false} FlatAddresses(h: Digest, device: Text, s: InlineChildSet, es: seq<InlineChildEntry>,
                                         i: InlineInterface, addresses: seq<Text>)
    requires s.field == ADDRESSES && s.discriminator == IP && |es| == |addresses|
    requires forall n | 0 <= n < |es| :: es[n] == AddressEntry(h, device, i, addresses[n])
    ensures DeclaredBy(h, device, FlatEntries(s, es, InterfacePath(i.name)), AddressOrigins(i, addresses))
    decreases |es|
  {
    hide IsChildOf, AddressEntry;
    if es != [] {
      FlatAddresses(h, device, s, es[1..], i, addresses[1..]);
      AddressIsChildOf(h, device, i, addresses[0]);
      var at := InterfacePath(i.name) + [Segment(s, es[0])];
      assert at == AddressPath(i.name, addresses[0]);
      assert FlatSets(es[0].children, at) == [];
      var own := [Declared(at, es[0].desired.value)];
      var rest := AddressOrigins(i, addresses[1..]);
      var first := OfAddress(i, addresses[0]);
      assert AddressOrigins(i, addresses) == [first] + rest;
      assert DeclaredBy(h, device, own, [first]);
      DeclaredByConcat(h, device, own, [first], FlatEntries(s, es[1..], InterfacePath(i.name)), rest);
      assert FlatEntries(s, es, InterfacePath(i.name)) == own + FlatEntries(s, es[1..], InterfacePath(i.name));
    }
  }

  lemma FlatNested(h: Digest, device: Text, i: InlineInterface)
    ensures DeclaredBy(h, device, FlatSets(AddressSets(h, device, i), InterfacePath(i.name)),
                       AddressOrigins(i, i.addresses))
  {
    hide IsChildOf, AddressEntry;
    if i.addresses != [] {
      var inner := AddressSets(h, device, i)[0];
      assert AddressSets(h, device, i) == [inner] && [inner][1..] == [];
      FlatAddresses(h, device, inner, inner.entries, i, i.addresses);
      hide FlatEntries, DeclaredBy;
      var at := InterfacePath(i.name);
      assert FlatSets([inner][1..], at) == [];
      assert FlatSets([inner], at) == FlatEntries(inner, inner.entries, at);
    }
  }

  lemma FlatInterface(h: Digest, device: Text, s: InlineChildSet, i: InlineInterface)
    requires s.field == INTERFACES && s.discriminator == []
    ensures DeclaredBy(h, device, FlatEntries(s, [InterfaceEntry(h, device, i)], []), GroupOrigins(i))
  {
    hide AddressOrigins, InterfaceOf, AddressSets, FlatSets, IsChildOf;
    var e := InterfaceEntry(h, device, i);
    var at := InterfacePath(i.name);
    assert [] + [Segment(s, e)] == at;
    assert [e][1..] == [] && FlatEntries(s, [], []) == [];
    var own := [Declared(at, e.desired.value)];
    assert FlatEntries(s, [e], []) == own + FlatSets(e.children, at);
    InterfaceIsChildOf(h, device, i);
    assert DeclaredBy(h, device, own, [OfInterface(i)]);
    FlatNested(h, device, i);
    DeclaredByConcat(h, device, own, [OfInterface(i)], FlatSets(e.children, at), AddressOrigins(i, i.addresses));
  }

  lemma {:induction false} FlatInterfaces(h: Digest, device: Text, s: InlineChildSet, es: seq<InlineChildEntry>,
                                          ifs: seq<InlineInterface>)
    requires s.field == INTERFACES && s.discriminator == [] && |es| == |ifs|
    requires forall n | 0 <= n < |ifs| :: es[n] == InterfaceEntry(h, device, ifs[n])
    ensures DeclaredBy(h, device, FlatEntries(s, es, []), Origins(ifs))
    decreases |ifs|
  {
    hide IsChildOf, DeclaredBy;
    if es == [] {
      NothingDeclared(h, device);
    } else {
      assert es == [es[0]] + es[1..] && es[0] == InterfaceEntry(h, device, ifs[0]);
      FlatEntriesAppend(s, [es[0]], es[1..], []);
      hide InterfaceEntry, FlatEntries;
      FlatInterface(h, device, s, ifs[0]);
      FlatInterfaces(h, device, s, es[1..], ifs[1..]);
      DeclaredByConcat(h, device, FlatEntries(s, [es[0]], []), GroupOrigins(ifs[0]),
                       FlatEntries(s, es[1..], []), Origins(ifs[1..]));
    }
  }

  lemma NothingDeclared(h: Digest, device: Text)
    ensures DeclaredBy(h, device, [], [])
  {
  }

  /** Flattened, a device is each interface followed by its addresses, in order, each with the path and
      the child of its entry. */
  lemma FlatDevice(h: Digest, device: Text, ifs: seq<InlineInterface>)
    ensures DeclaredBy(h, device, FlatSets(DeviceSets(h, device, ifs), []), Origins(ifs))
  {
    hide DeclaredBy;
    var s := DeviceSets(h, device, ifs)[0];
    var sets := DeviceSets(h, device, ifs);
    assert sets == [s] && sets[1..] == [];
    assert FlatSets(sets[1..], []) == [];
    assert FlatSets(sets, []) == FlatEntries(s, s.entries, []);
    FlatInterfaces(h, device, s, s.entries, ifs);
  }

  /** The declared children ds are those of ids, in that order. */
  ghost predicate DeclaredAs(ds: seq<Declared>, ids: seq<Id>) {
    |ds| == |ids| && forall i | 0 <= i < |ds| :: ds[i].path == IdPath(ids[i]) && KindOf(ds[i].child) == IdKind(ids[i])
  }

  lemma FlatDeviceIds(h: Digest, device: Text, ifs: seq<InlineInterface>)
    ensures DeclaredAs(FlatSets(DeviceSets(h, device, ifs), []), Ids(ifs))
  {
    FlatDevice(h, device, ifs);
    OriginsTellIds(ifs);
    hide FlatSets, DeviceSets, Ids, Origins, RefersTo;
  }

  function IdKey(id: Id): Text {
    match id
    case InterfaceId(name) => name
    case AddressId(name, address) => AddressKey(name, address)
  }

  lemma {:induction false} KeysOfIds(ifs: seq<InlineInterface>)
    ensures |Keys(ifs)| == |Ids(ifs)| && forall i | 0 <= i < |Keys(ifs)| :: Keys(ifs)[i] == IdKey(Ids(ifs)[i])
  {
    hide AddressKey;
    if ifs != [] {
      KeysOfIds(ifs[1..]);
    }
  }

  ghost predicate PathsAre(ds: seq<Declared>, ks: seq<Text>) {
    |ds| == |ks| && forall i | 0 <= i < |ds| :: PathText(ds[i].path) == BEFORE + ks[i] + [CLOSE]
  }

  lemma DevicePaths(h: Digest, device: Text, ifs: seq<InlineInterface>)
    ensures PathsAre(FlatSets(DeviceSets(h, device, ifs), []), Keys(ifs))
  {
    FlatDeviceIds(h, device, ifs);
    KeysOfIds(ifs);
    var ds := FlatSets(DeviceSets(h, device, ifs), []);
    hide FlatSets, DeviceSets, Keys, Ids, PathText, AddressKey;
    forall i | 0 <= i < |ds| ensures PathText(ds[i].path) == BEFORE + Keys(ifs)[i] + [CLOSE] {
      match Ids(ifs)[i]
      case InterfaceId(name) => PathTexts(name, []);
      case AddressId(name, address) => PathTexts(name, address);
    }
  }

  function PathsOf(want: seq<DesiredChild>): seq<Text> {
    seq(|want|, i requires 0 <= i < |want| => want[i].path)
  }

  /** The paths of a device's children are pairwise distinct exactly when no interface is named like
      another one's address path; no "]" in any interface name is enough. */
  lemma PathsDistinctIffNotForged(h: Digest, device: Text, ifs: seq<InlineInterface>)
    requires ValidInterfaces(ifs)
    ensures var want := DeriveAll(h, device, FlatSets(DeviceSets(h, device, ifs), []));
            && (NoDuplicates(PathsOf(want)) <==> !Forged(ifs))
            && ((forall i | i in ifs :: CLOSE !in i.name) ==> NoDuplicates(PathsOf(want)))
  {
    var ds := FlatSets(DeviceSets(h, device, ifs), []);
    DevicePaths(h, device, ifs);
    hide DeviceSets, FlatSets;
    PathsFollowKeys(h, device, ds, Keys(ifs));
    if Forged(ifs) {
      var i, j, a :| i in ifs && j in ifs && a in j.addresses && i.name == AddressKey(j.name, a);
      ForgedKeysRepeat(ifs, i, j, a);
      assert i.name[|j.name|] == CLOSE;
    } else {
      KeysDistinctUnlessForged(ifs, ifs);
    }
  }

  lemma PathsFollowKeys(h: Digest, device: Text, ds: seq<Declared>, ks: seq<Text>)
    requires PathsAre(ds, ks)
    ensures NoDuplicates(PathsOf(DeriveAll(h, device, ds))) <==> NoDuplicates(ks)
  {
    var ps := PathsOf(DeriveAll(h, device, ds));
    assert forall i | 0 <= i < |ks| :: ps[i] == BEFORE + ks[i] + [CLOSE];
    forall i, j | 0 <= i < j < |ks| ensures ps[i] == ps[j] <==> ks[i] == ks[j] {
      if ps[i] == ps[j] {
        assert ps[i][|BEFORE|..|ps[i]| - 1] == ks[i] && ps[j][|BEFORE|..|ps[j]| - 1] == ks[j];
      }
    }
  }
}
