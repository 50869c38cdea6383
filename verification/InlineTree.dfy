/** The inline child tree of api/v1alpha1/inline_children.go:39-99, and how
    internal/reconciler/children.go:258-344 flattens it and looks for colliding names. */
module InlineTree {
  import opened Options
  import opened ChildNames

  /** The declared child objects, minus what the materialiser owns. */
  datatype Child =
    | RuleChild(policyRef: Text, localVID: int, remoteVID: int, description: Text)
    | InterfaceChild(deviceRef: Text, name: Text, lagRef: Option<Text>, parentRef: Option<Text>,
                     bridgeRef: Option<Text>)
    | AddressChild(address: Text, interfaceRef: Text)

  datatype Kind = RuleKind | InterfaceKind | AddressKind

  function KindOf(c: Child): Kind {
    match c
    case RuleChild(_, _, _, _) => RuleKind
    case InterfaceChild(_, _, _, _, _) => InterfaceKind
    case AddressChild(_, _) => AddressKind
  }

  datatype InlineChildSet = InlineChildSet(field: Text, discriminator: Text, entries: seq<InlineChildEntry>)

  /** `desired` is missing for an entry that exists only to carry nested children. */
  datatype InlineChildEntry = InlineChildEntry(key: Text, desired: Option<Child>, children: seq<InlineChildSet>)

  datatype Declared = Declared(path: seq<ChildSegment>, child: Child)

  // ---- Flattening -----------------------------------------------------------------------------------

  function Segment(s: InlineChildSet, e: InlineChildEntry): ChildSegment {
    ChildSegment(s.field, s.discriminator, e.key)
  }

  /** Every declared child of the tree with its full path, parents before what they nest. */
  function FlatSets(sets: seq<InlineChildSet>, path: seq<ChildSegment>): seq<Declared>
    decreases sets, 1
  {
    if sets == [] then []
    else FlatEntries(sets[0], sets[0].entries, path) + FlatSets(sets[1..], path)
  }

  function FlatEntries(s: InlineChildSet, es: seq<InlineChildEntry>, path: seq<ChildSegment>): seq<Declared>
    decreases es, 0
  {
    if es == [] then []
    else
      var at := path + [Segment(s, es[0])];
      (if es[0].desired.Some? then [Declared(at, es[0].desired.value)] else [])
      + FlatSets(es[0].children, at) + FlatEntries(s, es[1..], path)
  }

  lemma {:induction false} FlatSetsAppend(a: seq<InlineChildSet>, b: seq<InlineChildSet>, path: seq<ChildSegment>)
    ensures FlatSets(a + b, path) == FlatSets(a, path) + FlatSets(b, path)
    decreases |a|
  {
    if a == [] {
      assert a + b == b;
    } else {
      assert (a + b)[1..] == a[1..] + b;
      FlatSetsAppend(a[1..], b, path);
    }
  }

  lemma {:induction false} FlatEntriesAppend(s: InlineChildSet, a: seq<InlineChildEntry>, b: seq<InlineChildEntry>,
                                             path: seq<ChildSegment>)
    ensures FlatEntries(s, a + b, path) == FlatEntries(s, a, path) + FlatEntries(s, b, path)
    decreases |a|
  {
    if a == [] {
      assert a + b == b;
    } else {
      assert (a + b)[1..] == a[1..] + b;
      FlatEntriesAppend(s, a[1..], b, path);
    }
  }

  /** One declared child with everything derived from its path. */
  datatype DesiredChild = DesiredChild(path: Text, name: Text, child: Child)

  function Derive(h: Digest, parent: Text, d: Declared): DesiredChild {
    DesiredChild(PathText(d.path), ChildNameOf(h, parent, d.path), d.child)
  }

  function DeriveAll(h: Digest, parent: Text, ds: seq<Declared>): seq<DesiredChild> {
    seq(|ds|, i requires 0 <= i < |ds| => Derive(h, parent, ds[i]))
  }

  lemma DeriveAllAppend(h: Digest, parent: Text, a: seq<Declared>, b: seq<Declared>)
    ensures DeriveAll(h, parent, a + b) == DeriveAll(h, parent, a) + DeriveAll(h, parent, b)
  {
    hide Derive;
  }

  ghost predicate SameName(a: DesiredChild, b: DesiredChild) {
    KindOf(a.child) == KindOf(b.child) && a.name == b.name
  }

  ghost predicate NoClash(want: seq<DesiredChild>) {
    forall i, j | 0 <= i < j < |want| :: !SameName(want[i], want[j])
  }

  /** Child j is the first to take a name over, and i the first to have had it. */
  ghost predicate EarliestClash(want: seq<DesiredChild>, i: nat, j: nat) {
    && i < j < |want| && SameName(want[i], want[j])
    && (forall n | 0 <= n < i :: !SameName(want[n], want[j]))
    && NoClash(want[..j])
  }

  class Materialisation {
    const h: Digest
    const parent: Text
    var want: seq<DesiredChild>

    constructor (h: Digest, parent: Text)
      ensures this.h == h && this.parent == parent && want == []
    {
      this.h, this.parent, want := h, parent, [];
    }

    method Add(path: seq<ChildSegment>, child: Child)
      modifies this
      ensures want == old(want) + [Derive(h, parent, Declared(path, child))]
    {
      var at := ChildPath(path);
      var name := ChildName(h, parent, path);
      want := want + [DesiredChild(at, name, child)];
    }

    /** `desire`: the loop over the sets of one level. */
    method Desire(sets: seq<InlineChildSet>, path: seq<ChildSegment>)
      modifies this
      ensures want == old(want) + DeriveAll(h, parent, FlatSets(sets, path))
      decreases sets, 1
    {
      hide Derive, DeriveAll, FlatEntries, FlatSets;
      NoSetsYet(h, parent, sets[..0], path);
      for i := 0 to |sets|
        invariant want == old(want) + DeriveAll(h, parent, FlatSets(sets[..i], path))
      {
        OneSetFurther(h, parent, sets, i, path);
        ghost var done := DeriveAll(h, parent, FlatSets(sets[..i], path));
        ghost var more := DeriveAll(h, parent, FlatEntries(sets[i], sets[i].entries, path));
        Regroup(old(want), done, more);
        DesireEntries(sets[i], sets[i].entries, path);
      }
      assert sets[..|sets|] == sets;
    }

    /** The loop over one set's entries. */
    method DesireEntries(s: InlineChildSet, es: seq<InlineChildEntry>, path: seq<ChildSegment>)
      modifies this
      ensures want == old(want) + DeriveAll(h, parent, FlatEntries(s, es, path))
      decreases es, 1
    {
      hide Derive, DeriveAll, FlatEntries, FlatSets;
      NothingYet(h, parent, s, es[..0], path);
      for i := 0 to |es|
        invariant want == old(want) + DeriveAll(h, parent, FlatEntries(s, es[..i], path))
      {
        OneEntryFurther(h, parent, s, es, i, path);
        ghost var done := DeriveAll(h, parent, FlatEntries(s, es[..i], path));
        ghost var more := DeriveAll(h, parent, FlatEntries(s, [es[i]], path));
        Regroup(old(want), done, more);
        DesireEntry(s, es[i], path);
      }
      assert es[..|es|] == es;
    }

    /** One entry, then what it nests. */
    method DesireEntry(s: InlineChildSet, e: InlineChildEntry, path: seq<ChildSegment>)
      modifies this
      ensures want == old(want) + DeriveAll(h, parent, FlatEntries(s, [e], path))
      decreases e, 2
    {
      hide Derive, DeriveAll, FlatEntries, FlatSets;
      var at := path + [Segment(s, e)];
      OneEntry(h, parent, s, e, path);
      ghost var nested := DeriveAll(h, parent, FlatSets(e.children, at));
      if e.desired.Some? {
        Regroup(old(want), [Derive(h, parent, Declared(at, e.desired.value))], nested);
        Add(at, e.desired.value);
      }
      Desire(e.children, at);
    }

    /** `collision`: the first child whose kind and name an earlier one already took, with that one. */
    method Collision() returns (r: Option<(nat, nat)>)
      ensures r.None? <==> NoClash(want)
      ensures r.Some? ==> EarliestClash(want, r.value.0, r.value.1)
    {
      var seen: map<(Kind, Text), nat> := map[];
      for j := 0 to |want|
        invariant forall n | 0 <= n < j :: (KindOf(want[n].child), want[n].name) in seen
        invariant forall k | k in seen ::
          seen[k] < j && k == (KindOf(want[seen[k]].child), want[seen[k]].name)
          && forall n | 0 <= n < seen[k] :: k != (KindOf(want[n].child), want[n].name)
        invariant forall m, n | 0 <= m < n < j :: !SameName(want[m], want[n])
      {
        var at := (KindOf(want[j].child), want[j].name);
        if at in seen {
          return Some((seen[at], j));
        }
        seen := seen[at := j];
      }
      return None;
    }
  }

  lemma Regroup(w: seq<DesiredChild>, a: seq<DesiredChild>, b: seq<DesiredChild>)
    ensures w + a + b == w + (a + b)
  {
  }

  lemma NoSetsYet(h: Digest, parent: Text, sets: seq<InlineChildSet>, path: seq<ChildSegment>)
    requires |sets| == 0
    ensures DeriveAll(h, parent, FlatSets(sets, path)) == []
  {
  }

  lemma OneSetFurther(h: Digest, parent: Text, sets: seq<InlineChildSet>, i: nat, path: seq<ChildSegment>)
    requires i < |sets|
    ensures DeriveAll(h, parent, FlatSets(sets[..i + 1], path)) ==
      DeriveAll(h, parent, FlatSets(sets[..i], path))
      + DeriveAll(h, parent, FlatEntries(sets[i], sets[i].entries, path))
  {
    assert sets[..i + 1] == sets[..i] + [sets[i]];
    FlatSetsAppend(sets[..i], [sets[i]], path);
    var entries := FlatEntries(sets[i], sets[i].entries, path);
    assert FlatSets([sets[i]], path) == entries + FlatSets([sets[i]][1..], path);
    hide DeriveAll, FlatEntries;
    DeriveAllAppend(h, parent, FlatSets(sets[..i], path), entries);
  }

  lemma NothingYet(h: Digest, parent: Text, s: InlineChildSet, es: seq<InlineChildEntry>, path: seq<ChildSegment>)
    requires |es| == 0
    ensures DeriveAll(h, parent, FlatEntries(s, es, path)) == []
  {
  }

  lemma OneEntryFurther(h: Digest, parent: Text, s: InlineChildSet, es: seq<InlineChildEntry>, i: nat,
                        path: seq<ChildSegment>)
    requires i < |es|
    ensures DeriveAll(h, parent, FlatEntries(s, es[..i + 1], path)) ==
      DeriveAll(h, parent, FlatEntries(s, es[..i], path)) + DeriveAll(h, parent, FlatEntries(s, [es[i]], path))
  {
    hide Derive, FlatEntries;
    assert es[..i + 1] == es[..i] + [es[i]];
    FlatEntriesAppend(s, es[..i], [es[i]], path);
    DeriveAllAppend(h, parent, FlatEntries(s, es[..i], path), FlatEntries(s, [es[i]], path));
  }

  lemma OneEntry(h: Digest, parent: Text, s: InlineChildSet, e: InlineChildEntry, path: seq<ChildSegment>)
    ensures var at := path + [Segment(s, e)];
            var nested := DeriveAll(h, parent, FlatSets(e.children, at));
            DeriveAll(h, parent, FlatEntries(s, [e], path)) ==
              if e.desired.Some? then [Derive(h, parent, Declared(at, e.desired.value))] + nested else nested
  {
    hide Derive;
    var at := path + [Segment(s, e)];
    var nested := FlatSets(e.children, at);
    assert FlatEntries(s, [e][1..], path) == [];
    if e.desired.Some? {
      var own := Declared(at, e.desired.value);
      assert FlatEntries(s, [e], path) == [own] + nested;
      DeriveAllAppend(h, parent, [own], nested);
    } else {
      assert FlatEntries(s, [e], path) == nested;
    }
  }
}
