/** hack/extract-netbox-schema.py, second half: inherited columns are merged into every entry in
    place, while other entries still inherit from the lists being extended. */
module ColumnMerge {
  import opened Options
  import opened Graphs
  import opened BaseGraph
  import opened BaseWalk

  /** Where a relation points: nowhere, the model it ends up on, a bare class name, a model, or a
      bare name flagged as naming no one model. */
  datatype Target = NoTarget | SelfTarget | Bare(name: string) | Model(key: Key) | Unresolved(name: string)

  /** One row of an entry's field list; `declaredBy` is the tag the merge puts on a copy. */
  datatype Column = Column(name: string, attributes: string, target: Target, declaredBy: Option<string>)

  type Columns = map<Key, seq<Column>>

  datatype Shadow = Shadow(column: string, declaredBy: Option<string>)

  /** One entry of the schema: its field list and its `shadowed` note, empty when it has none. */
  datatype Entry = Entry(fields: seq<Column>, shadowed: seq<Shadow>)

  /** The extracted entries, extended in place. */
  class Catalogue {
    var entries: map<Key, Entry>

    constructor (entries: map<Key, Entry>)
      ensures this.entries == entries
    {
      this.entries := entries;
    }
  }

  // ---- What the merge computes ----------------------------------------------------------------

  function Tag(cs: seq<Column>, cls: string): seq<Column> {
    seq(|cs|, i requires 0 <= i < |cs| => cs[i].(declaredBy := Some(cls)))
  }

  /** Every column the classes ks declare themselves, in order, tagged with its class. */
  ghost function Offered(own: Columns, ks: seq<Key>): seq<Column>
    requires forall k | k in ks :: k in own
  {
    if ks == [] then [] else Tag(own[ks[0]], ks[0].name) + Offered(own, ks[1..])
  }

  /** Who holds each name so far: None for the entry itself, else the class tagged on the winner. */
  type Have = map<string, Option<string>>

  function HaveOf(cs: seq<Column>): (have: Have)
    ensures forall n :: n in have <==> exists c :: c in cs && c.name == n
    ensures forall n | n in have :: have[n].None?
  {
    if cs == [] then map[] else HaveOf(cs[1..])[cs[0].name := None]
  }

  /** One offered column against the names already held. */
  function Take(have: Have, c: Column): Have {
    if c.name in have then have else have[c.name := c.declaredBy]
  }

  function TakeAll(have: Have, offered: seq<Column>): Have
    decreases |offered|
  {
    if offered == [] then have else TakeAll(Take(have, offered[0]), offered[1..])
  }

  function Gain(have: Have, c: Column): seq<Column> {
    if c.name in have then [] else [c]
  }

  /** Losing to a different class is recorded; meeting the same class again is only a diamond. */
  function Lose(have: Have, c: Column): seq<Shadow> {
    if c.name in have && have[c.name] != c.declaredBy then [Shadow(c.name, c.declaredBy)] else []
  }

  function Merged(have: Have, offered: seq<Column>): seq<Column>
    decreases |offered|
  {
    if offered == [] then []
    else
      Gain(have, offered[0]) + Merged(Take(have, offered[0]), offered[1..])
  }

  function Shadowed(have: Have, offered: seq<Column>): seq<Shadow>
    decreases |offered|
  {
    if offered == [] then []
    else
      Lose(have, offered[0]) + Shadowed(Take(have, offered[0]), offered[1..])
  }

  ghost predicate Declares(g: Graph, own: Columns) {
    Total(g) && g.Keys == own.Keys
  }

  ghost function OfferedTo(g: Graph, own: Columns, v: Key): seq<Column>
    requires Declares(g, own) && v in g
  {
    AncestorsNamedOnce(g, v);
    VisitNames(g, g[v], {v.name});
    Offered(own, Ancestors(g, v))
  }

  /** The column list an entry ends with: a function of the declarations alone. */
  ghost function FinalColumns(g: Graph, own: Columns, v: Key): seq<Column>
    requires Declares(g, own) && v in g
  {
    own[v] + Merged(HaveOf(own[v]), OfferedTo(g, own, v))
  }

  ghost function FinalShadowed(g: Graph, own: Columns, v: Key): seq<Shadow>
    requires Declares(g, own) && v in g
  {
    Shadowed(HaveOf(own[v]), OfferedTo(g, own, v))
  }

  // ---- The merge loop -------------------------------------------------------------------------

  lemma {:induction false} OfferAppend(have: Have, a: seq<Column>, b: seq<Column>)
    ensures TakeAll(have, a + b) == TakeAll(TakeAll(have, a), b)
    ensures Merged(have, a + b) == Merged(have, a) + Merged(TakeAll(have, a), b)
    ensures Shadowed(have, a + b) == Shadowed(have, a) + Shadowed(TakeAll(have, a), b)
    decreases |a|
  {
    hide Take, Gain, Lose;
    if a == [] {
      assert a + b == b;
    } else {
      assert (a + b)[0] == a[0] && (a + b)[1..] == a[1..] + b;
      OfferAppend(Take(have, a[0]), a[1..], b);
    }
  }

  lemma {:induction false} OfferedSnoc(own: Columns, ks: seq<Key>, k: Key)
    requires k in own && forall j | j in ks :: j in own
    ensures Offered(own, ks + [k]) == Offered(own, ks) + Tag(own[k], k.name)
  {
    if ks == [] {
      assert ks + [k] == [k] && [k][1..] == [];
    } else {
      assert (ks + [k])[1..] == ks[1..] + [k];
      OfferedSnoc(own, ks[1..], k);
    }
  }

  /** The inner loop: the own columns of one ancestor, offered to the entry. */
  method InheritFrom(have0: Have, tagged: seq<Column>)
    returns (have: Have, merged: seq<Column>, shadowed: seq<Shadow>)
    ensures have == TakeAll(have0, tagged)
    ensures merged == Merged(have0, tagged) && shadowed == Shadowed(have0, tagged)
  {
    have, merged, shadowed := have0, [], [];
    for n := 0 to |tagged|
      invariant have == TakeAll(have0, tagged[..n])
      invariant merged == Merged(have0, tagged[..n]) && shadowed == Shadowed(have0, tagged[..n])
    {
      var entry := tagged[n];
      assert tagged[..n + 1] == tagged[..n] + [entry];
      OfferAppend(have0, tagged[..n], [entry]);
      assert Merged(have, [entry]) == Gain(have, entry) && Shadowed(have, [entry]) == Lose(have, entry);
      if entry.name !in have {
        have := have[entry.name := entry.declaredBy];
        merged := merged + [entry];
      } else if have[entry.name] != entry.declaredBy {
        shadowed := shadowed + [Shadow(entry.name, entry.declaredBy)];
      }
    }
    assert tagged[..|tagged|] == tagged;
  }

  /** The loop over the ancestors of one entry. */
  method Inherit(fields: seq<Column>, own: Columns, ancestors: seq<Key>)
    returns (merged: seq<Column>, shadowed: seq<Shadow>)
    requires forall k | k in ancestors :: k in own
    ensures merged == Merged(HaveOf(fields), Offered(own, ancestors))
    ensures shadowed == Shadowed(HaveOf(fields), Offered(own, ancestors))
  {
    var have := HaveOf(fields);
    merged, shadowed := [], [];
    for i := 0 to |ancestors|
      invariant have == TakeAll(HaveOf(fields), Offered(own, ancestors[..i]))
      invariant merged == Merged(HaveOf(fields), Offered(own, ancestors[..i]))
      invariant shadowed == Shadowed(HaveOf(fields), Offered(own, ancestors[..i]))
    {
      var e := ancestors[i];
      assert ancestors[..i + 1] == ancestors[..i] + [e];
      OfferedSnoc(own, ancestors[..i], e);
      OfferAppend(HaveOf(fields), Offered(own, ancestors[..i]), Tag(own[e], e.name));
      var gained, lost;
      have, gained, lost := InheritFrom(have, Tag(own[e], e.name));
      merged, shadowed := merged + gained, shadowed + lost;
    }
    assert ancestors[..|ancestors|] == ancestors;
  }

  /** The whole of an entry once merged: a function of the declarations alone. */
  ghost function FinalEntry(g: Graph, own: Columns, v: Key): Entry
    requires Declares(g, own) && v in g
  {
    Entry(FinalColumns(g, own, v), FinalShadowed(g, own, v))
  }

  ghost predicate OnlyOwn(own: Columns, entries: map<Key, Entry>) {
    own.Keys == entries.Keys && forall k {:trigger entries[k]} | k in entries :: entries[k] == Entry(own[k], [])
  }

  /** OWN: what each class declares itself, taken before any list is extended. */
  method Snapshot(entries: map<Key, Entry>) returns (own: Columns)
    requires forall k | k in entries :: entries[k].shadowed == []
    ensures OnlyOwn(own, entries)
  {
    own := map k | k in entries :: entries[k].fields;
  }

  /** Lines 294-308 for one entry. */
  method MergeEntry(d: Decls, byName: map<string, Option<Key>>, ghost g: Graph, own: Columns, k: Key,
                    out: Catalogue, w: Walker)
    requires Answers(d, byName) && IsBases(d, g) && own.Keys == d.Keys
    requires k in d && k in out.entries && out.entries[k] == Entry(own[k], [])
    modifies out, w
    ensures out.entries == old(out.entries)[k := FinalEntry(g, own, k)]
    ensures old(w.ambiguous) + AmbiguousOf(d, {k}) <= w.ambiguous <= old(w.ambiguous) + AllAmbiguous(d)
  {
    w.seen := {k.name};
    var ancestors := Walk(d, byName, g, k, w);
    VisitNames(g, g[k], {k.name});
    var v := out.entries[k];
    var merged, shadowed := Inherit(v.fields, own, ancestors);
    v := v.(fields := v.fields + merged);
    if shadowed != [] {
      v := v.(shadowed := shadowed);
    }
    out.entries := out.entries[k := v];
  }

  ghost function AmbiguousOf(d: Decls, ks: set<Key>): set<(Key, string)> {
    set p | p in AllAmbiguous(d) && p.0 in ks
  }

  lemma AmbiguousEverywhere(d: Decls)
    ensures AmbiguousOf(d, d.Keys) == AllAmbiguous(d) && AmbiguousOf(d, {}) == {}
  {
  }

  lemma AmbiguousUnion(d: Decls, a: set<Key>, b: set<Key>)
    ensures AmbiguousOf(d, a + b) == AmbiguousOf(d, a) + AmbiguousOf(d, b)
  {
  }

  ghost function AllFinal(g: Graph, own: Columns): map<Key, Entry>
    requires Declares(g, own)
  {
    map k | k in g :: FinalEntry(g, own, k)
  }

  /** The merge loop. Entries are taken in an arbitrary order, each is extended in place while the
      rest still inherit, and the outcome is a function of the declarations alone: no order can show. */
  method MergeAll(d: Decls, byName: map<string, Option<Key>>, ghost g: Graph, own: Columns, out: Catalogue, w: Walker)
    requires Answers(d, byName) && IsBases(d, g) && OnlyOwn(own, out.entries)
    requires own.Keys == d.Keys && Declares(g, own)
    modifies out, w
    ensures out.entries == AllFinal(g, own)
    ensures w.ambiguous == old(w.ambiguous) + AllAmbiguous(d)
  {
    hide FinalEntry, AllAmbiguous, AmbiguousOf, Answers, IsBases;
    AmbiguousEverywhere(d);
    ghost var start, final := out.entries, AllFinal(g, own);
    ghost var done: set<Key> := {};
    var todo := d.Keys;
    while todo != {}
      invariant done + todo == d.Keys && done !! todo
      invariant out.entries.Keys == d.Keys
      invariant forall k {:trigger out.entries[k]} | k in d ::
        out.entries[k] == if k in todo then start[k] else final[k]
      invariant old(w.ambiguous) + AmbiguousOf(d, done) <= w.ambiguous <= old(w.ambiguous) + AllAmbiguous(d)
    {
      var k :| k in todo;
      MergeEntry(d, byName, g, own, k, out, w);
      AmbiguousUnion(d, done, {k});
      todo, done := todo - {k}, done + {k};
    }
    assert done == d.Keys;
  }

  // ---- What the merged list is ----------------------------------------------------------------

  /** The i-th offered column is the first of its name, and the entry does not hold that name. */
  ghost predicate FirstOffer(have: Have, offered: seq<Column>, i: int) {
    0 <= i < |offered| && offered[i].name !in have && forall j | 0 <= j < i :: offered[j].name != offered[i].name
  }

  /** The i-th offered column loses to the entry itself or to a different class. */
  ghost predicate LosingOffer(have: Have, offered: seq<Column>, i: int) {
    && 0 <= i < |offered|
    && if offered[i].name in have then have[offered[i].name] != offered[i].declaredBy
       else exists j :: 0 <= j < i && FirstOffer(have, offered, j) && offered[j].name == offered[i].name
                        && offered[j].declaredBy != offered[i].declaredBy
  }

  ghost function FirstOffers(have: Have, offered: seq<Column>, n: nat): seq<Column>
    requires n <= |offered|
  {
    if n == 0 then []
    else FirstOffers(have, offered, n - 1) + if FirstOffer(have, offered, n - 1) then [offered[n - 1]] else []
  }

  ghost function LosingOffers(have: Have, offered: seq<Column>, n: nat): seq<Shadow>
    requires n <= |offered|
  {
    if n == 0 then []
    else
      var c := offered[n - 1];
      LosingOffers(have, offered, n - 1)
      + if LosingOffer(have, offered, n - 1) then [Shadow(c.name, c.declaredBy)] else []
  }

  /** After n offers a name is held by the entry, or by the first class that offered it. */
  lemma {:induction false} Holder(have: Have, offered: seq<Column>, n: nat, name: string)
    requires n <= |offered|
    ensures var h := TakeAll(have, offered[..n]);
            && (name in h <==> name in have || exists j :: 0 <= j < n && offered[j].name == name)
            && (name in have ==> h[name] == have[name])
            && forall j | 0 <= j < n && FirstOffer(have, offered, j) && offered[j].name == name ::
                 h[name] == offered[j].declaredBy
  {
    if n > 0 {
      Holder(have, offered, n - 1, name);
      assert TakeAll(TakeAll(have, offered[..n - 1]), [offered[n - 1]])
          == Take(TakeAll(have, offered[..n - 1]), offered[n - 1]);
      hide TakeAll;
      assert offered[..n] == offered[..n - 1] + [offered[n - 1]];
      OfferAppend(have, offered[..n - 1], [offered[n - 1]]);
    }
  }

  lemma {:induction false} FirstOfName(have: Have, offered: seq<Column>, n: nat) returns (i: nat)
    requires n < |offered| && offered[n].name !in have
    ensures i <= n && FirstOffer(have, offered, i) && offered[i].name == offered[n].name
  {
    if FirstOffer(have, offered, n) {
      return n;
    }
    var j :| 0 <= j < n && offered[j].name == offered[n].name;
    i := FirstOfName(have, offered, j);
  }

  lemma OneOffer(have: Have, offered: seq<Column>, n: nat)
    requires n < |offered|
    ensures var h := TakeAll(have, offered[..n]); var c := offered[n];
            && (c.name !in h <==> FirstOffer(have, offered, n))
            && (c.name in h && h[c.name] != c.declaredBy <==> LosingOffer(have, offered, n))
  {
    var c := offered[n];
    Holder(have, offered, n, c.name);
    var h := TakeAll(have, offered[..n]);
    if c.name !in have && c.name in h {
      var j :| 0 <= j < n && offered[j].name == c.name;
      var i := FirstOfName(have, offered, j);
      assert h[c.name] == offered[i].declaredBy;
      assert forall m | FirstOffer(have, offered, m) && offered[m].name == c.name :: m == i;
    }
  }

  /** The gained columns are the first offers, in the order offered; the shadowed ones are the
      offers that lose to somebody else, in that order too. */
  lemma {:induction false} MergedAreFirstOffers(have: Have, offered: seq<Column>, n: nat)
    requires n <= |offered|
    ensures Merged(have, offered[..n]) == FirstOffers(have, offered, n)
    ensures Shadowed(have, offered[..n]) == LosingOffers(have, offered, n)
  {
    hide FirstOffer, LosingOffer;
    if n > 0 {
      MergedAreFirstOffers(have, offered, n - 1);
      var c := offered[n - 1];
      assert offered[..n] == offered[..n - 1] + [c];
      OfferAppend(have, offered[..n - 1], [c]);
      OneOffer(have, offered, n - 1);
      var h := TakeAll(have, offered[..n - 1]);
      assert Merged(h, [c]) == Gain(h, c) && Shadowed(h, [c]) == Lose(h, c);
    }
  }

  ghost function FirstNamed(cs: seq<Column>, name: string): Option<Column> {
    if cs == [] then None
    else if cs[0].name == name then Some(cs[0])
    else FirstNamed(cs[1..], name)
  }

  /** The column of that name in the first class of ks that declares one, tagged with that class. */
  ghost function Provider(own: Columns, ks: seq<Key>, name: string): Option<Column>
    requires forall k | k in ks :: k in own
  {
    if ks == [] then None
    else if FirstNamed(own[ks[0]], name).Some? then
      Some(FirstNamed(own[ks[0]], name).value.(declaredBy := Some(ks[0].name)))
    else Provider(own, ks[1..], name)
  }

  lemma {:induction false} FirstNamedMeans(cs: seq<Column>, name: string)
    ensures FirstNamed(cs, name).Some? <==> exists c :: c in cs && c.name == name
    ensures FirstNamed(cs, name).Some? ==> FirstNamed(cs, name).value in cs && FirstNamed(cs, name).value.name == name
  {
    if cs != [] {
      FirstNamedMeans(cs[1..], name);
      assert cs == [cs[0]] + cs[1..];
    }
  }

  lemma {:induction false} FirstNamedInOffer(k: Key, cs: seq<Column>, rest: seq<Column>, name: string)
    ensures var first := FirstNamed(cs, name);
            FirstNamed(Tag(cs, k.name) + rest, name)
            == if first.Some? then Some(first.value.(declaredBy := Some(k.name))) else FirstNamed(rest, name)
  {
    var all := Tag(cs, k.name) + rest;
    if cs == [] {
      assert all == rest;
    } else {
      assert all[1..] == Tag(cs[1..], k.name) + rest;
      FirstNamedInOffer(k, cs[1..], rest, name);
    }
  }

  lemma {:induction false} ProviderIsFirstOffered(own: Columns, ks: seq<Key>, name: string)
    requires forall k | k in ks :: k in own
    ensures FirstNamed(Offered(own, ks), name) == Provider(own, ks, name)
  {
    if ks != [] {
      FirstNamedInOffer(ks[0], own[ks[0]], Offered(own, ks[1..]), name);
      ProviderIsFirstOffered(own, ks[1..], name);
    }
  }

  ghost predicate NamedOnce(cs: seq<Column>) {
    forall i, j | 0 <= i < j < |cs| :: cs[i].name != cs[j].name
  }

  lemma {:induction false} MergedMeans(have: Have, offered: seq<Column>)
    ensures NamedOnce(Merged(have, offered))
    ensures forall c :: c in Merged(have, offered) <==>
      c.name !in have && FirstNamed(offered, c.name) == Some(c)
    decreases |offered|
  {
    if offered != [] {
      MergedMeans(Take(have, offered[0]), offered[1..]);
      var rest := Merged(Take(have, offered[0]), offered[1..]);
      forall c ensures c in Merged(have, offered) <==> c in Gain(have, offered[0]) || c in rest {
      }
      assert forall i | 0 <= i < |rest| :: rest[i] in rest;
    }
  }

  /** The final list: the entry's own columns untouched, then each further name exactly once, and
      always the copy of the first class of the walk that declares it. */
  lemma FinalColumnsMean(g: Graph, own: Columns, v: Key)
    requires Declares(g, own) && v in g
    ensures (forall k | k in Ancestors(g, v) :: k in own) && own[v] <= FinalColumns(g, own, v)
    ensures var inherited := FinalColumns(g, own, v)[|own[v]|..];
            && NamedOnce(inherited)
            && forall c :: c in inherited <==>
                 (forall o | o in own[v] :: o.name != c.name)
                 && Provider(own, Ancestors(g, v), c.name) == Some(c)
  {
    VisitNames(g, g[v], {v.name});
    var offered := OfferedTo(g, own, v);
    var inherited := FinalColumns(g, own, v)[|own[v]|..];
    assert inherited == Merged(HaveOf(own[v]), offered);
    MergedMeans(HaveOf(own[v]), offered);
    forall c
      ensures c in inherited <==>
        (forall o | o in own[v] :: o.name != c.name) && Provider(own, Ancestors(g, v), c.name) == Some(c)
    {
      ProviderIsFirstOffered(own, Ancestors(g, v), c.name);
    }
  }

  /** Every column name the entry or an ancestor declares is in the final list. */
  lemma {:induction false} ProviderExists(own: Columns, ks: seq<Key>, k: Key, c: Column)
    requires (forall j | j in ks :: j in own) && k in ks && c in own[k]
    ensures Provider(own, ks, c.name).Some? && Provider(own, ks, c.name).value.name == c.name
  {
    FirstNamedMeans(own[ks[0]], c.name);
    if FirstNamed(own[ks[0]], c.name).None? {
      ProviderExists(own, ks[1..], k, c);
    }
  }

  /** `v` ends with a column whenever some class it reaches declares one. */
  ghost predicate KeepsSome(g: Graph, own: Columns, v: Key)
    requires Declares(g, own) && v in g
  {
    (exists t :: t in own && Reaches(g, v, t) && own[t] != []) ==> FinalColumns(g, own, v) != []
  }

  lemma KeepsSomeIfDistinct(g: Graph, own: Columns, v: Key)
    requires Declares(g, own) && v in g && DistinctNames(g, v)
    ensures KeepsSome(g, own, v)
  {
    if own[v] == [] && exists t :: t in own && Reaches(g, v, t) && own[t] != [] {
      var t :| t in own && Reaches(g, v, t) && own[t] != [];
      AncestorsExact(g, v);
      FinalColumnsMean(g, own, v);
      var c := own[t][0];
      ProviderExists(own, Ancestors(g, v), t, c);
      ProvidedIsInherited(g, own, v, c.name);
    }
  }

  lemma ProvidedIsInherited(g: Graph, own: Columns, v: Key, name: string)
    requires Declares(g, own) && v in g && own[v] == []
    requires (forall k | k in Ancestors(g, v) :: k in own) && Provider(own, Ancestors(g, v), name).Some?
    requires Provider(own, Ancestors(g, v), name).value.name == name
    ensures FinalColumns(g, own, v) != []
  {
    FinalColumnsMean(g, own, v);
    var c := Provider(own, Ancestors(g, v), name).value;
    assert c in FinalColumns(g, own, v)[|own[v]|..];
  }

  // ---- When an entry ends without a column ------------------------------------------------------

  /** An entry ends with no column exactly when neither it nor any class of its walk declares one. */
  lemma NoColumnsIff(g: Graph, own: Columns, v: Key)
    requires Declares(g, own) && v in g
    ensures forall k | k in Ancestors(g, v) :: k in own
    ensures FinalColumns(g, own, v) == [] <==> own[v] == [] && forall k | k in Ancestors(g, v) :: own[k] == []
  {
    FinalColumnsMean(g, own, v);
    var ks := Ancestors(g, v);
    if own[v] == [] && forall k | k in ks :: own[k] == [] {
      NothingProvided(g, own, v);
    } else if own[v] == [] {
      var k :| k in ks && own[k] != [];
      ProviderExists(own, ks, k, own[k][0]);
      ProvidedIsInherited(g, own, v, own[k][0].name);
    }
  }

  lemma NothingProvided(g: Graph, own: Columns, v: Key)
    requires Declares(g, own) && v in g && own[v] == []
    requires forall k | k in Ancestors(g, v) :: k in own && own[k] == []
    ensures FinalColumns(g, own, v) == []
  {
    FinalColumnsMean(g, own, v);
    NoneProvides(own, Ancestors(g, v));
    hide Ancestors, Provider;
    assert FinalColumns(g, own, v) == own[v] + FinalColumns(g, own, v)[|own[v]|..];
  }

  lemma {:induction false} NoneProvides(own: Columns, ks: seq<Key>)
    requires forall k | k in ks :: k in own && own[k] == []
    ensures forall name :: Provider(own, ks, name).None?
  {
    if ks != [] {
      NoneProvides(own, ks[1..]);
    }
  }

  function DeclaringIn(own: Columns): set<Key> {
    set k | k in own && own[k] != []
  }

  /** Declarations under which no class of d is deleted, so that all of them come to the merge. */
  ghost predicate AllSurvive(d: Decls, own: Columns) {
    own.Keys == d.Keys && forall k | k in d :: IsModel(d, DeclaringIn(own), k)
  }

  /** v, with every class of its walk, reaches a class that the walk leaves out. */
  ghost predicate AllReachOutside(g: Graph, v: Key)
    requires Total(g) && v in g
  {
    ReachesOutside(g, v, v) && forall k | k in Ancestors(g, v) :: ReachesOutside(g, v, k)
  }

  ghost predicate ReachesOutside(g: Graph, v: Key, k: Key)
    requires Total(g) && v in g
  {
    exists t :: LeftOut(g, v, t) && Reaches(g, k, t)
  }

  ghost predicate LeftOut(g: Graph, v: Key, t: Key)
    requires Total(g) && v in g
  {
    t in g && t != v && t !in Ancestors(g, v)
  }

  /** Some declarations that the merge can receive leave v without a column exactly when every class
      of its walk reaches one that the walk leaves out, for sharing a bare name. */
  lemma ColumnsCanBeLostIff(d: Decls, v: Key)
    requires v in d
    ensures (exists own: Columns :: AllSurvive(d, own) && FinalColumns(Bases(d), own, v) == []) <==>
      AllReachOutside(Bases(d), v)
  {
    hide FinalColumns, Ancestors, IsModel, AllReachOutside, Bases, OutsideDeclares;
    if AllReachOutside(Bases(d), v) {
      OutsideDeclaresSurvive(d, v);
      NoColumnsIff(Bases(d), OutsideDeclares(d, v), v);
    }
    if own: Columns :| AllSurvive(d, own) && FinalColumns(Bases(d), own, v) == [] {
      NoColumnsIff(Bases(d), own, v);
      LosersReachOutside(d, own, v);
    }
  }

  /** Only the classes that the walk of v leaves out declare a column. */
  ghost function OutsideDeclares(d: Decls, v: Key): (own: Columns)
    requires v in d
    ensures Declares(Bases(d), own) && own[v] == []
    ensures forall k | k in Ancestors(Bases(d), v) && k in own :: own[k] == []
  {
    map k | k in d :: if LeftOut(Bases(d), v, k) then [Column("name", "", NoTarget, None)] else []
  }

  lemma OutsideDeclaresSurvive(d: Decls, v: Key)
    requires v in d && AllReachOutside(Bases(d), v)
    ensures AllSurvive(d, OutsideDeclares(d, v))
  {
    var g, own := Bases(d), OutsideDeclares(d, v);
    hide Bases, Ancestors, Reaches;
    forall k | k in d ensures IsModel(d, DeclaringIn(own), k) {
      if LeftOut(g, v, k) {
        ReachesSelf(g, k);
        assert k in DeclaringIn(own);
      } else {
        assert ReachesOutside(g, v, k);
        var t :| LeftOut(g, v, t) && Reaches(g, k, t);
        assert t in DeclaringIn(own);
      }
    }
  }

  lemma LosersReachOutside(d: Decls, own: Columns, v: Key)
    requires v in d && AllSurvive(d, own) && own[v] == []
    requires forall k | k in Ancestors(Bases(d), v) :: k in own && own[k] == []
    ensures AllReachOutside(Bases(d), v)
  {
    var g := Bases(d);
    hide Bases, Ancestors, Reaches, LeftOut, ReachesOutside, IsModel, DeclaringIn;
    ReachesADeclarer(d, own, v, v);
    forall k | k in Ancestors(g, v) ensures ReachesOutside(g, v, k) {
      ReachesADeclarer(d, own, v, k);
    }
  }

  lemma ReachesADeclarer(d: Decls, own: Columns, v: Key, k: Key)
    requires v in d && k in own && AllSurvive(d, own) && own[v] == []
    requires forall a | a in Ancestors(Bases(d), v) :: a in own && own[a] == []
    ensures ReachesOutside(Bases(d), v, k)
  {
    hide Bases, Ancestors, Reaches;
    assert IsModel(d, DeclaringIn(own), k);
    var t :| t in DeclaringIn(own) && Reaches(Bases(d), k, t);
    assert LeftOut(Bases(d), v, t);
  }

  /** Distinct names rule it out: nothing v reaches is left out, so v keeps whatever it can reach. */
  lemma DistinctNamesLoseNothing(d: Decls, own: Columns, v: Key)
    requires v in d && AllSurvive(d, own) && DistinctNames(Bases(d), v)
    ensures FinalColumns(Bases(d), own, v) != []
  {
    hide Bases, DistinctNames, Reaches, FinalColumns, Ancestors;
    assert IsModel(d, DeclaringIn(own), v);
    var t :| t in DeclaringIn(own) && Reaches(Bases(d), v, t);
    KeepsSomeIfDistinct(Bases(d), own, v);
  }

  const AV := Key("a", "V")
  const BP := Key("b", "P")
  const BV := Key("b", "V")

  /** `a.V(P)`, `b.P(V)` and `b.V`, which alone declares a column: all are models, and a.V ends without
      that column, because the walk takes b.V for a.V itself. */
  lemma NamesakeHidesTheColumn()
    ensures var d := map[AV := ["P"], BP := ["V"], BV := []];
            var own: Columns := map[AV := [], BP := [], BV := [Column("name", "", NoTarget, None)]];
            AllSurvive(d, own) && FinalColumns(Bases(d), own, AV) == []
  {
    var d := map[AV := ["P"], BP := ["V"], BV := []];
    var own: Columns := map[AV := [], BP := [], BV := [Column("name", "", NoTarget, None)]];
    var g := Bases(d);
    hide Bases, Ancestors, Reaches, FinalColumns;
    NamesakeGraph(d);
    ReachesSelf(g, BV);
    StepThenReaches(g, BP, BV, BV);
    StepThenReaches(g, AV, BP, BV);
    assert BV in DeclaringIn(own);
    WalkSkipsNamesake(g);
    NoColumnsIff(g, own, AV);
  }

  lemma NamesakeGraph(d: Decls)
    requires d == map[AV := ["P"], BP := ["V"], BV := []]
    ensures Bases(d) == map[AV := [BP], BP := [BV], BV := []]
  {
    assert OnlyNamed(d, "P", BP);
    assert ["P"][1..] == [] && ["V"][1..] == [];
    assert Resolve(d, "a", "P") == Some(BP) && Resolve(d, "b", "V") == Some(BV);
    assert ResolveAll(d, "a", ["P"]) == [BP] && ResolveAll(d, "b", ["V"]) == [BV] && ResolveAll(d, "b", []) == [];
  }

  lemma WalkSkipsNamesake(g: Graph)
    requires g == map[AV := [BP], BP := [BV], BV := []]
    ensures Ancestors(g, AV) == [BP]
  {
    assert [BP][1..] == [] && [BV][1..] == [];
    assert Visit(g, [BV], {"V"} + {"P"}) == Visit(g, [], {"V"} + {"P"});
  }
}
