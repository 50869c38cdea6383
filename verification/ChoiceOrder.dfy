/** hack/extract-netbox-api-schema.py:250-274: which choice sets the one pass over all of them leaves
    fully expanded, decided on the declarations and their order before the pass is run. */
module ChoiceOrder {
  import opened Options
  import opened ChoiceSplices

  // ---- What holds anything at all, and whose list it is ---------------------------------------------

  /** The sets that a set's turn reads: what it splices in, or the bases it may inherit from. */
  function Reads(s: ChoiceSet): set<string> {
    match s.body
    case Listed(es) => set e | e in es && e.Splice? :: e.source
    case EmptyCall => {}
    case NoChoices => set b | b in s.bases
    case NotAList => set b | b in s.bases
  }

  predicate HasMembers(s: ChoiceSet) {
    s.body.Listed? && Members(s.body.elements) != []
  }

  /** After n turns the set holds something: members of its own, or a turn behind it that read a set
      which held something then. */
  predicate Filled(sets: Sets, order: seq<string>, n: nat, name: string)
    requires n <= |order|
    decreases n, 0
  {
    name in sets
    && (HasMembers(sets[name]) || exists k :: 0 <= k < n && order[k] == name && ReadsFilled(sets, order, k))
  }

  /** Turn k reads a set that holds something by then. */
  predicate ReadsFilled(sets: Sets, order: seq<string>, k: nat)
    requires k < |order|
    decreases k, 1
  {
    order[k] in sets && exists t :: t in Reads(sets[order[k]]) && Filled(sets, order, k, t)
  }

  function FirstFilled(sets: Sets, order: seq<string>, n: nat, bases: seq<string>): Option<string>
    requires n <= |order|
  {
    if bases == [] then None
    else if Filled(sets, order, n, bases[0]) then Some(bases[0])
    else FirstFilled(sets, order, n, bases[1..])
  }

  /** The set whose list a set holds after n turns. */
  function OwnerAt(sets: Sets, order: seq<string>, n: nat, name: string): Option<string>
    requires n <= |order|
    decreases n
  {
    if name in sets && HasList(sets[name]) then Some(name)
    else if n == 0 then None
    else if order[n - 1] == name && name in sets then
      var b := FirstFilled(sets, order, n - 1, sets[name].bases);
      if b.Some? then OwnerAt(sets, order, n - 1, b.value) else None
    else OwnerAt(sets, order, n - 1, name)
  }

  // ---- They are what the pass does -----------------------------------------------------------------

  /** A list changes in the reversed loop exactly when one of the sources holds something. */
  lemma {:induction false} SpliceAllChangesIff(st: Store, me: string, ms: seq<Mark>)
    requires me in st.lists
    ensures SpliceAll(st, me, ms).lists.Keys == st.lists.Keys
    ensures SpliceAll(st, me, ms).lists[me] == st.lists[me] <==> forall m | m in ms :: View(st, m.source) == []
    decreases |ms|
  {
    SpliceAllFrame(st, me, ms);
    if ms != [] {
      var front, m := ms[..|ms| - 1], ms[|ms| - 1];
      assert ms == front + [m];
      var next := st.(lists := st.lists[me := Insert(st.lists[me], m.pos, View(st, m.source))]);
      SpliceAllFrame(next, me, front);
      if View(st, m.source) == [] {
        assert next.lists[me] == st.lists[me];
        assert next == st;
        SpliceAllChangesIff(st, me, front);
      } else {
        assert m in ms;
      }
    }
  }

  lemma {:induction false} MarksAreSources(es: seq<Element>)
    ensures forall src :: (exists m :: m in Marks(es) && m.source == src) <==> Splice(src) in es
  {
    if es != [] {
      var front, last := es[..|es| - 1], es[|es| - 1];
      assert es == front + [last];
      MarksAreSources(front);
      forall src ensures (exists m :: m in Marks(es) && m.source == src) <==> Splice(src) in es {
        if last.Splice? {
          assert Mark(|Members(front)|, last.source) in Marks(es);
        }
      }
    }
  }

  lemma MarksRead(s: ChoiceSet)
    requires HasList(s)
    ensures forall src :: src in Reads(s) <==> exists m :: m in MarksOf(s) && m.source == src
  {
    if s.body.Listed? {
      MarksAreSources(s.body.elements);
      forall src ensures src in Reads(s) <==> Splice(src) in s.body.elements {
      }
    }
  }

  /** What the store after n turns says of a name: whether it holds anything, whose list that is, and
      that no list was inherited while it was empty. */
  ghost predicate AgreesOn(sets: Sets, order: seq<string>, n: nat, st: Store, s: string)
    requires n <= |order|
  {
    && (View(st, s) != [] <==> Filled(sets, order, n, s))
    && (if s in st.owner then Some(st.owner[s]) else None) == OwnerAt(sets, order, n, s)
    && (s in st.owner ==> st.owner[s] in sets && HasList(sets[st.owner[s]]))
    && (s in st.owner && st.owner[s] != s ==> View(st, s) != [])
  }

  ghost predicate Agrees(sets: Sets, order: seq<string>, n: nat, st: Store)
    requires n <= |order|
  {
    forall s :: AgreesOn(sets, order, n, st, s)
  }

  lemma FilledGrows(sets: Sets, order: seq<string>, n: nat, name: string)
    requires 0 < n <= |order|
    ensures Filled(sets, order, n, name) <==>
      Filled(sets, order, n - 1, name) || (order[n - 1] == name && ReadsFilled(sets, order, n - 1))
  {
  }

  lemma AgreesAt(sets: Sets, order: seq<string>, n: nat, st: Store, s: string)
    requires n <= |order| && Agrees(sets, order, n, st)
    ensures AgreesOn(sets, order, n, st, s)
  {
  }

  lemma {:induction false} FirstBaseIsFirstFilled(sets: Sets, order: seq<string>, n: nat, st: Store, bases: seq<string>)
    requires n <= |order| && Agrees(sets, order, n, st)
    ensures FirstBase(st, bases) == FirstFilled(sets, order, n, bases)
  {
    hide Filled, View, OwnerAt, Agrees;
    if bases != [] {
      AgreesAt(sets, order, n, st, bases[0]);
      FirstBaseIsFirstFilled(sets, order, n, st, bases[1..]);
    }
  }

  lemma {:induction false} FirstFilledNone(sets: Sets, order: seq<string>, n: nat, bases: seq<string>)
    requires n <= |order|
    ensures FirstFilled(sets, order, n, bases).None? <==> forall b | b in bases :: !Filled(sets, order, n, b)
  {
    hide Filled;
    if bases != [] {
      FirstFilledNone(sets, order, n, bases[1..]);
      assert bases[0] in bases;
      assert forall b | b in bases :: b == bases[0] || b in bases[1..];
    }
  }

  /** A set without a list reads its bases: it inherits from one exactly when one holds anything. */
  lemma InheritsIffReads(sets: Sets, order: seq<string>, n: nat)
    requires n < |order| && order[n] in sets && !HasList(sets[order[n]])
    ensures FirstFilled(sets, order, n, sets[order[n]].bases).Some? <==> ReadsFilled(sets, order, n)
  {
    hide Filled;
    FirstFilledNone(sets, order, n, sets[order[n]].bases);
    assert Reads(sets[order[n]]) == set b | b in sets[order[n]].bases;
  }

  lemma StartAgrees(sets: Sets, order: seq<string>)
    ensures Agrees(sets, order, 0, Start(sets))
  {
  }

  /** The turn of a set with a list of its own. */
  lemma OwnTurn(sets: Sets, order: seq<string>, n: nat, st: Store)
    requires n < |order| && order[n] in sets && HasList(sets[order[n]])
    requires Sound(sets, st) && Agrees(sets, order, n, st)
    ensures var me, after := order[n], Turn(sets, st, order[n]);
            && after.owner == st.owner && after.lists.Keys == st.lists.Keys
            && (forall o | o in st.lists && o != me :: after.lists[o] == st.lists[o])
            && (after.lists[me] == st.lists[me] <==> !ReadsFilled(sets, order, n))
            && (after.lists[me] == st.lists[me] || |after.lists[me]| > |st.lists[me]|)
  {
    var me, ms := order[n], MarksOf(sets[order[n]]);
    SpliceAllFrame(st, me, ms);
    SpliceAllChangesIff(st, me, ms);
    MarksRead(sets[me]);
    hide Filled, OwnerAt, SpliceAll, Reads, MarksOf, View;
    assert forall m | m in ms :: m.source in Reads(sets[me]);
    assert forall s :: AgreesOn(sets, order, n, st, s) ==> (View(st, s) != [] <==> Filled(sets, order, n, s));
  }

  /** The turn of a set without one: it inherits from its first base that holds anything. */
  lemma InheritingTurn(sets: Sets, order: seq<string>, n: nat, st: Store)
    requires n < |order| && order[n] in sets && !HasList(sets[order[n]]) && order[n] !in st.owner
    requires Sound(sets, st) && Agrees(sets, order, n, st)
    ensures var me, b, after := order[n], FirstFilled(sets, order, n, sets[order[n]].bases), Turn(sets, st, order[n]);
            && (b.Some? <==> ReadsFilled(sets, order, n))
            && (b.None? ==> after == st)
            && (b.Some? ==> b.value in st.owner && View(st, b.value) != []
                            && after == st.(owner := st.owner[me := st.owner[b.value]]))
  {
    var me := order[n];
    FirstBaseIsFirstFilled(sets, order, n, st, sets[me].bases);
    FirstBaseMeans(st, sets[me].bases);
    InheritsIffReads(sets, order, n);
    hide Filled, OwnerAt, Agrees, FirstFilled, FirstBase;
    assert MarksOf(sets[me]) == [];
  }

  lemma TurnAgreesOn(sets: Sets, order: seq<string>, n: nat, st: Store, s: string)
    requires ValidOrder(sets, order) && n < |order| && Sound(sets, st) && Agrees(sets, order, n, st)
    requires order[n] in st.owner ==> HasList(sets[order[n]])
    ensures AgreesOn(sets, order, n + 1, Turn(sets, st, order[n]), s)
    ensures var after := Turn(sets, st, order[n]);
            View(after, s) == View(st, s) <==> !(order[n] == Holder(sets, order, n, s) && ReadsFilled(sets, order, n))
  {
    hide Filled, OwnerAt, Agrees, ReadsFilled, Turn, FirstFilled;
    var me := order[n];
    FilledGrows(sets, order, n + 1, s);
    OwnerGrows(sets, order, n, s);
    AgreesAt(sets, order, n, st, s);
    AgreesAt(sets, order, n, st, me);
    if HasList(sets[me]) {
      OwnTurn(sets, order, n, st);
    } else {
      InheritingTurn(sets, order, n, st);
      var b := FirstFilled(sets, order, n, sets[me].bases);
      if b.Some? {
        AgreesAt(sets, order, n, st, b.value);
      }
    }
  }

  lemma TurnAgrees(sets: Sets, order: seq<string>, n: nat, st: Store)
    requires ValidOrder(sets, order) && n < |order| && Sound(sets, st) && Agrees(sets, order, n, st)
    requires order[n] in st.owner ==> HasList(sets[order[n]])
    ensures Agrees(sets, order, n + 1, Turn(sets, st, order[n]))
  {
    var next, after := n + 1, Turn(sets, st, order[n]);
    forall s ensures AgreesOn(sets, order, next, after, s) {
      TurnAgreesOn(sets, order, n, st, s);
    }
  }

  lemma OwnerGrows(sets: Sets, order: seq<string>, n: nat, name: string)
    requires n < |order|
    ensures OwnerAt(sets, order, n + 1, name) == OwnerAfter(sets, order, n, name)
  {
  }

  /** The owner of a list after one more turn. */
  function OwnerAfter(sets: Sets, order: seq<string>, n: nat, name: string): Option<string>
    requires n < |order|
  {
    if name != order[n] || name !in sets || HasList(sets[name]) then OwnerAt(sets, order, n, name)
    else
      var b := FirstFilled(sets, order, n, sets[name].bases);
      if b.Some? then OwnerAt(sets, order, n, b.value) else None
  }

  /** A set without a list of its own holds none before its turn. */
  lemma {:induction false} NoneBeforeItsTurn(sets: Sets, order: seq<string>, n: nat, name: string)
    requires n <= |order| && (name in sets ==> !HasList(sets[name])) && name !in order[..n]
    ensures OwnerAt(sets, order, n, name) == None
  {
    if n > 0 {
      assert order[n - 1] == order[..n][n - 1];
      assert order[..n - 1] == order[..n][..n - 1];
      NoneBeforeItsTurn(sets, order, n - 1, name);
    }
  }

  /** At every point of the pass, who holds anything and whose list it is follows from the
      declarations and the order alone. */
  lemma {:induction false} PassAgrees(sets: Sets, order: seq<string>, n: nat)
    requires ValidOrder(sets, order) && n <= |order|
    ensures Agrees(sets, order, n, After(sets, order, n))
  {
    if n == 0 {
      StartAgrees(sets, order);
    } else {
      var st, me := After(sets, order, n - 1), order[n - 1];
      PassAgrees(sets, order, n - 1);
      if !HasList(sets[me]) {
        assert forall i | 0 <= i < n - 1 :: order[i] != me;
        NoneBeforeItsTurn(sets, order, n - 1, me);
        AgreesAt(sets, order, n - 1, st, me);
      }
      TurnAgrees(sets, order, n - 1, st);
    }
  }

  lemma PassAgreesAt(sets: Sets, order: seq<string>, n: nat, s: string)
    requires ValidOrder(sets, order) && n <= |order|
    ensures AgreesOn(sets, order, n, After(sets, order, n), s)
  {
    PassAgrees(sets, order, n);
  }

  // ---- When a source changes ------------------------------------------------------------------------

  /** The set whose turn can change what src holds from here on: the owner of its list, or src
      itself while it holds none. */
  function Holder(sets: Sets, order: seq<string>, i: nat, src: string): string
    requires i <= |order|
  {
    var o := OwnerAt(sets, order, i, src);
    if o.Some? then o.value else src
  }

  /** No turn from i on reads anything into what src holds. */
  predicate Settled(sets: Sets, order: seq<string>, i: nat, src: string)
    requires i <= |order|
  {
    forall j | i <= j < |order| && order[j] == Holder(sets, order, i, src) :: !ReadsFilled(sets, order, j)
  }

  lemma StepChangesIff(sets: Sets, order: seq<string>, n: nat, src: string)
    requires ValidOrder(sets, order) && n < |order|
    ensures View(After(sets, order, n + 1), src) == View(After(sets, order, n), src) <==>
      !(order[n] == Holder(sets, order, n, src) && ReadsFilled(sets, order, n))
    ensures View(After(sets, order, n + 1), src) == View(After(sets, order, n), src) ==>
      Holder(sets, order, n + 1, src) == Holder(sets, order, n, src)
  {
    var st := After(sets, order, n);
    PassAgrees(sets, order, n);
    hide Filled, ReadsFilled, After, Reads, Turn, OwnerAt, Agrees, View, FirstFilled;
    AfterIsTurn(sets, order, n);
    if !HasList(sets[order[n]]) {
      NoneBeforeItsTurnAt(sets, order, n);
      InheritsIffReads(sets, order, n);
    }
    AgreesAt(sets, order, n, st, order[n]);
    TurnAgreesOn(sets, order, n, st, src);
    OwnerGrows(sets, order, n, src);
  }

  lemma AfterIsTurn(sets: Sets, order: seq<string>, n: nat)
    requires ValidOrder(sets, order) && n < |order|
    ensures After(sets, order, n + 1) == Turn(sets, After(sets, order, n), order[n])
  {
  }

  lemma NoneBeforeItsTurnAt(sets: Sets, order: seq<string>, n: nat)
    requires ValidOrder(sets, order) && n < |order| && !HasList(sets[order[n]])
    ensures OwnerAt(sets, order, n, order[n]) == None
  {
    assert forall i | 0 <= i < n :: order[i] != order[n];
    NoneBeforeItsTurn(sets, order, n, order[n]);
  }

  lemma {:induction false} UnchangedIff(sets: Sets, order: seq<string>, i: nat, n: nat, src: string)
    requires ValidOrder(sets, order) && i <= n <= |order|
    ensures View(After(sets, order, n), src) == View(After(sets, order, i), src) <==>
      forall j | i <= j < n && order[j] == Holder(sets, order, i, src) :: !ReadsFilled(sets, order, j)
    ensures View(After(sets, order, n), src) == View(After(sets, order, i), src) ==>
      Holder(sets, order, n, src) == Holder(sets, order, i, src)
    decreases n
  {
    hide After, Holder, ReadsFilled, View;
    if i < n {
      UnchangedIff(sets, order, i, n - 1, src);
      StepChangesIff(sets, order, n - 1, src);
      OnlyGrows(sets, order, src, i, n - 1);
      OnlyGrows(sets, order, src, n - 1, n);
    }
  }

  /** What a source holds changes after turn i exactly when the owner of its list still has a turn to
      come that reads something. */
  lemma UnchangedIffSettled(sets: Sets, order: seq<string>, i: nat, src: string)
    requires ValidOrder(sets, order) && i <= |order|
    ensures View(After(sets, order, |order|), src) == View(After(sets, order, i), src) <==> Settled(sets, order, i, src)
  {
    UnchangedIff(sets, order, i, |order|, src);
  }

  // ---- Full expansion ---------------------------------------------------------------------------------

  /** One of the sources is the set itself, by its own name or an inheriting one. */
  predicate ReadsItself(sets: Sets, order: seq<string>, i: nat)
    requires i < |order| && order[i] in sets
  {
    exists t :: t in Reads(sets[order[i]]) && OwnerAt(sets, order, i, t) == Some(order[i])
  }

  lemma ReadsItselfIff(sets: Sets, order: seq<string>, i: nat)
    requires ValidOrder(sets, order) && i < |order| && HasList(sets[order[i]])
    ensures ReadsItself(sets, order, i) <==> !NoSelfSource(After(sets, order, i), order[i], MarksOf(sets[order[i]]))
  {
    hide After, OwnerAt, Filled, MarksOf, Reads;
    MarksRead(sets[order[i]]);
    forall t ensures OwnerAt(sets, order, i, t) == Some(order[i]) <==>
        t in After(sets, order, i).owner && After(sets, order, i).owner[t] == order[i]
    {
      PassAgreesAt(sets, order, i, t);
    }
  }

  /** A pass that walks the sets in this order leaves set i fully expanded, every source of it in
      full, exactly when no source has a turn to come that reads something into it. */
  lemma FullyExpandedIff(sets: Sets, order: seq<string>, i: nat)
    requires ValidOrder(sets, order) && i < |order| && sets[order[i]].body.Listed?
    ensures var es, final := sets[order[i]].body.elements, After(sets, order, |order|);
            View(final, order[i]) == Expand(es, final) <==>
              forall e | e in es && e.Splice? :: Settled(sets, order, i, e.source)
  {
    var es := sets[order[i]].body.elements;
    hide After, Expand, Settled, Reads, View;
    forall e | e in es && e.Splice?
      ensures Settled(sets, order, i, e.source) <==>
        View(After(sets, order, |order|), e.source) == View(After(sets, order, i), e.source)
    {
      UnchangedIffSettled(sets, order, i, e.source);
    }
    ReadsItselfIff(sets, order, i);
    if ReadsItself(sets, order, i) {
      SelfSplicedIff(sets, order, i);
    } else {
      ExpandedIffSourcesUnchanged(sets, order, i);
    }
  }

  lemma {:induction false} ExpandHolds(es: seq<Element>, st: Store, t: string)
    requires Splice(t) in es
    ensures |Expand(es, st)| >= |View(st, t)|
    decreases |es|
  {
    var front, last := es[..|es| - 1], es[|es| - 1];
    assert es == front + [last];
    if last != Splice(t) {
      ExpandHolds(front, st, t);
    }
  }

  /** An expansion is longer than one of its sources when anything else is in it. */
  lemma {:induction false} ExpandExceeds(es: seq<Element>, st: Store, t: string)
    requires Splice(t) in es
    requires Members(es) != [] || exists f :: f != t && Splice(f) in es && View(st, f) != []
    ensures |Expand(es, st)| > |View(st, t)|
    decreases |es|
  {
    var front, last := es[..|es| - 1], es[|es| - 1];
    assert es == front + [last];
    if Splice(t) in front {
      ExpandHolds(front, st, t);
      if Members(front) != [] || exists f :: f != t && Splice(f) in front && View(st, f) != [] {
        ExpandExceeds(front, st, t);
      }
    } else {
      ExpansionAddsMembers(front, st);
    }
  }

  lemma {:induction false} OwnerStays(sets: Sets, order: seq<string>, i: nat, n: nat, name: string)
    requires ValidOrder(sets, order) && i <= n <= |order| && OwnerAt(sets, order, i, name).Some?
    ensures OwnerAt(sets, order, n, name) == OwnerAt(sets, order, i, name)
    decreases n
  {
    if i < n {
      OwnerStays(sets, order, i, n - 1, name);
      if order[n - 1] == name && !HasList(sets[name]) {
        NoneBeforeItsTurnAt(sets, order, n - 1);
      }
    }
  }

  /** A source that is the set itself holds what the set holds. */
  lemma SelfSourceHolds(sets: Sets, order: seq<string>, i: nat, n: nat, t: string)
    requires ValidOrder(sets, order) && i <= n <= |order| && i < |order| && HasList(sets[order[i]])
    requires OwnerAt(sets, order, i, t) == Some(order[i])
    ensures View(After(sets, order, n), t) == View(After(sets, order, n), order[i])
  {
    OwnerStays(sets, order, i, n, t);
    PassAgreesAt(sets, order, n, t);
    PassAgreesAt(sets, order, n, order[i]);
    hide After, Filled;
    assert OwnerAt(sets, order, n, order[i]) == Some(order[i]);
  }

  lemma OwnListBeforeItsTurn(sets: Sets, order: seq<string>, i: nat)
    requires ValidOrder(sets, order) && i < |order| && sets[order[i]].body.Listed?
    ensures View(After(sets, order, i), order[i]) == Members(sets[order[i]].body.elements)
    ensures Holder(sets, order, i, order[i]) == order[i]
  {
    StartHoldsMembers(sets, order[i]);
    UntouchedBetween(sets, order, order[i], 0, i);
  }

  lemma FilledSource(sets: Sets, order: seq<string>, i: nat) returns (f: string)
    requires ValidOrder(sets, order) && i < |order| && sets[order[i]].body.Listed? && ReadsFilled(sets, order, i)
    ensures Splice(f) in sets[order[i]].body.elements
    ensures View(After(sets, order, i), f) != [] && View(After(sets, order, |order|), f) != []
  {
    f :| f in Reads(sets[order[i]]) && Filled(sets, order, i, f);
    hide After, Filled, View, ReadsFilled;
    FilledIsHeld(sets, order, i, f);
    OnlyGrows(sets, order, f, i, |order|);
  }

  /** A set that reads itself, and anything at all, is not the expansion of what it reads. */
  lemma SelfReaderFalls(sets: Sets, order: seq<string>, i: nat, t: string)
    requires ValidOrder(sets, order) && i < |order| && sets[order[i]].body.Listed?
    requires Splice(t) in sets[order[i]].body.elements
    requires OwnerAt(sets, order, i, t) == Some(order[i]) && ReadsFilled(sets, order, i)
    ensures var es, final := sets[order[i]].body.elements, After(sets, order, |order|);
            View(final, order[i]) != Expand(es, final)
  {
    hide After, Expand, Filled, OwnerAt, View, ReadsFilled, Members;
    var es := sets[order[i]].body.elements;
    var f := FilledSource(sets, order, i);
    SelfSourceHolds(sets, order, i, i, t);
    SelfSourceHolds(sets, order, i, |order|, t);
    OwnListBeforeItsTurn(sets, order, i);
    ExpandExceeds(es, After(sets, order, |order|), t);
  }

  lemma FilledIsHeld(sets: Sets, order: seq<string>, n: nat, name: string)
    requires ValidOrder(sets, order) && n <= |order|
    ensures View(After(sets, order, n), name) != [] <==> Filled(sets, order, n, name)
  {
    PassAgreesAt(sets, order, n, name);
  }

  /** A set that reads itself is expanded only if there is nothing to expand. */
  lemma SelfSplicedIff(sets: Sets, order: seq<string>, i: nat)
    requires ValidOrder(sets, order) && i < |order| && sets[order[i]].body.Listed? && ReadsItself(sets, order, i)
    ensures var es, final := sets[order[i]].body.elements, After(sets, order, |order|);
            View(final, order[i]) == Expand(es, final) <==>
              forall e | e in es && e.Splice? :: Settled(sets, order, i, e.source)
  {
    hide After, Expand, ReadsFilled, View, OwnerAt;
    var es := sets[order[i]].body.elements;
    var t :| t in Reads(sets[order[i]]) && OwnerAt(sets, order, i, t) == Some(order[i]);
    if ReadsFilled(sets, order, i) {
      assert Splice(t) in es && !Settled(sets, order, i, t);
      SelfReaderFalls(sets, order, i, t);
    } else {
      NothingToRead(sets, order, i, t);
    }
  }

  lemma NothingToRead(sets: Sets, order: seq<string>, i: nat, t: string)
    requires ValidOrder(sets, order) && i < |order| && sets[order[i]].body.Listed?
    requires t in Reads(sets[order[i]]) && OwnerAt(sets, order, i, t) == Some(order[i]) && !ReadsFilled(sets, order, i)
    ensures var es, final := sets[order[i]].body.elements, After(sets, order, |order|);
            View(final, order[i]) == Expand(es, final) <==>
              forall e | e in es && e.Splice? :: Settled(sets, order, i, e.source)
  {
    var es, turn, final := sets[order[i]].body.elements, After(sets, order, i), After(sets, order, |order|);
    hide After, Expand, Filled, OwnerAt, Settled, View;
    SelfSourceHolds(sets, order, i, i, t);
    OwnListBeforeItsTurn(sets, order, i);
    OwnListUnread(sets, order, i);
    FilledIsHeld(sets, order, i, t);
    assert Splice(t) in es;
    ExpansionAddsMembers(es, final);
    forall e | e in es && e.Splice?
      ensures Settled(sets, order, i, e.source) <==> View(final, e.source) == []
    {
      assert e.source in Reads(sets[order[i]]);
      FilledIsHeld(sets, order, i, e.source);
      UnchangedIffSettled(sets, order, i, e.source);
    }
    assert |Expand(es, final)| == 0 <==> Expand(es, final) == [];
  }

  lemma OwnListUnread(sets: Sets, order: seq<string>, i: nat)
    requires ValidOrder(sets, order) && i < |order| && sets[order[i]].body.Listed? && !ReadsFilled(sets, order, i)
    ensures View(After(sets, order, |order|), order[i]) == View(After(sets, order, i), order[i])
  {
    OwnListBeforeItsTurn(sets, order, i);
    hide After, Members, ReadsFilled, Holder;
    UnchangedIff(sets, order, i, |order|, order[i]);
  }

  /** The turn that could change what src holds is over, or reads nothing. */
  predicate BehindOrQuiet(sets: Sets, order: seq<string>, i: nat, src: string)
    requires i <= |order|
  {
    var holder := Holder(sets, order, i, src);
    holder !in order[i..] || (holder in sets && Reads(sets[holder]) == {})
  }

  /** Sources declared before the set that splices them in, inheriting and unresolved ones among them,
      are enough for its full expansion, and so are sources that read nothing. */
  lemma SettledSourcesExpandFully(sets: Sets, order: seq<string>, i: nat)
    requires ValidOrder(sets, order) && i < |order| && sets[order[i]].body.Listed?
    requires forall e | e in sets[order[i]].body.elements && e.Splice? :: BehindOrQuiet(sets, order, i, e.source)
    ensures var final := After(sets, order, |order|);
            View(final, order[i]) == Expand(sets[order[i]].body.elements, final)
  {
    var es := sets[order[i]].body.elements;
    hide Holder, After, Expand, Filled, View;
    forall e | e in es && e.Splice? ensures Settled(sets, order, i, e.source) {
      assert forall j | i <= j < |order| :: order[j] == order[i..][j - i];
    }
    FullyExpandedIff(sets, order, i);
  }

  /** Deferring to a second pass is not enough for a source declared later: what it holds changes
      after it was spliced in exactly when its own turn reads a set that holds something by then. */
  lemma LaterSourceIsMissedIff(sets: Sets, order: seq<string>, i: nat, j: nat)
    requires ValidOrder(sets, order) && i < j < |order|
    ensures View(After(sets, order, |order|), order[j]) != View(After(sets, order, i), order[j]) <==>
      ReadsFilled(sets, order, j)
  {
    HoldsItsOwnBefore(sets, order, i, j);
    hide After, ReadsFilled, View, Holder;
    UnchangedIff(sets, order, i, |order|, order[j]);
  }

  lemma HoldsItsOwnBefore(sets: Sets, order: seq<string>, i: nat, j: nat)
    requires ValidOrder(sets, order) && i <= j < |order|
    ensures Holder(sets, order, i, order[j]) == order[j]
  {
    if !HasList(sets[order[j]]) {
      assert order[j] !in order[..i];
      NoneBeforeItsTurn(sets, order, i, order[j]);
    } else if i > 0 {
      assert OwnerAt(sets, order, i, order[j]) == Some(order[j]);
    }
  }

  /** A splices B, which comes later and splices C: A ends without C's member. */
  lemma ThreeSetChain()
    ensures var sets := map["A" := ChoiceSet([], Listed([Splice("B")])),
                            "B" := ChoiceSet([], Listed([Member("b"), Splice("C")])),
                            "C" := ChoiceSet([], Listed([Member("c")]))];
            var final := After(sets, ["A", "B", "C"], 3);
            View(final, "A") == ["b"] && View(final, "B") == ["b", "c"]
  {
    hide After;
    var sets := map["A" := ChoiceSet([], Listed([Splice("B")])),
                    "B" := ChoiceSet([], Listed([Member("b"), Splice("C")])),
                    "C" := ChoiceSet([], Listed([Member("c")]))];
    ThreeSets([Splice("B")], [Member("b"), Splice("C")], [Member("c")]);
    ChainResult(sets, ["A", "B", "C"]);
  }

  lemma ChainResult(sets: Sets, order: seq<string>)
    requires order == ["A", "B", "C"] && ValidOrder(sets, order)
    requires sets["A"].body.Listed? && sets["B"].body.Listed? && sets["C"].body.Listed?
    requires var ea, eb, ec := sets["A"].body.elements, sets["B"].body.elements, sets["C"].body.elements;
             Members(eb) == ["b"] && Members(ec) == ["c"] && Marks(ea) == [Mark(0, "B")] && Marks(eb) == [Mark(1, "C")]
             && forall st :: Expand(ea, st) == View(st, "B") && Expand(eb, st) == ["b"] + View(st, "C")
    ensures View(After(sets, order, 3), "A") == ["b"] && View(After(sets, order, 3), "B") == ["b", "c"]
  {
    hide Turn, Start, Expand, Sound, Members, Marks;
    StartHoldsMembers(sets, "B");
    StartHoldsMembers(sets, "C");
    SoundOwner(sets, order, 0, "B");
    SoundOwner(sets, order, 1, "C");
    FinalIsItsTurn(sets, order, 0);
    UntouchedBetween(sets, order, "C", 0, 1);
    FinalIsItsTurn(sets, order, 1);
  }

  lemma SoundOwner(sets: Sets, order: seq<string>, n: nat, name: string)
    requires ValidOrder(sets, order) && n <= |order| && name in sets && HasList(sets[name])
    ensures name in After(sets, order, n).owner && After(sets, order, n).owner[name] == name
  {
  }

  lemma ThreeSets(ea: seq<Element>, eb: seq<Element>, ec: seq<Element>)
    requires ea == [Splice("B")] && eb == [Member("b"), Splice("C")] && ec == [Member("c")]
    ensures Members(eb) == ["b"] && Members(ec) == ["c"]
    ensures Marks(ea) == [Mark(0, "B")] && Marks(eb) == [Mark(1, "C")]
    ensures forall st :: Expand(ea, st) == View(st, "B") && Expand(eb, st) == ["b"] + View(st, "C")
  {
    assert eb[..1] == [Member("b")] && [Member("b")][..0] == [] && ec[..0] == [] && ea[..0] == [];
    forall st ensures Expand(ea, st) == View(st, "B") && Expand(eb, st) == ["b"] + View(st, "C") {
      assert Expand([Member("b")], st) == ["b"];
    }
  }
}
