/** hack/extract-netbox-api-schema.py:224-273: choice sets that splice one another's members in, by
    reversed insertion into lists that an inheriting set may share. */
module ChoiceSplices {
  import opened Options

  type Choice = string

  /** One element of a CHOICES display: a member, a flattened group, `*Other.CHOICES`, or an element
      that did not parse and was noted. */
  datatype Element = Member(choice: Choice) | Group(choices: seq<Choice>) | Splice(source: string) | Unparsed

  /** What a class body says about CHOICES. */
  datatype Body = NoChoices | EmptyCall | NotAList | Listed(elements: seq<Element>)

  datatype ChoiceSet = ChoiceSet(bases: seq<string>, body: Body)

  type Sets = map<string, ChoiceSet>

  datatype Mark = Mark(pos: nat, source: string)

  // ---- Collecting members -------------------------------------------------------------------------

  function Own(e: Element): seq<Choice> {
    match e
    case Member(c) => [c]
    case Group(cs) => cs
    case Splice(_) => []
    case Unparsed => []
  }

  function Members(es: seq<Element>): seq<Choice> {
    if es == [] then [] else Members(es[..|es| - 1]) + Own(es[|es| - 1])
  }

  function Marks(es: seq<Element>): (ms: seq<Mark>)
    ensures forall m | m in ms :: m.pos <= |Members(es)|
    ensures forall m | m in ms :: Splice(m.source) in es
  {
    if es == [] then []
    else
      var last := es[|es| - 1];
      Marks(es[..|es| - 1]) + if last.Splice? then [Mark(|Members(es[..|es| - 1])|, last.source)] else []
  }

  /** Lines 224-247: a starred element leaves only a mark of how many members came before it. */
  method Collect(es: seq<Element>) returns (values: seq<Choice>, splices: seq<Mark>)
    ensures values == Members(es) && splices == Marks(es)
  {
    values, splices := [], [];
    for i := 0 to |es|
      invariant values == Members(es[..i]) && splices == Marks(es[..i])
    {
      assert es[..i + 1][..i] == es[..i];
      match es[i]
      case Splice(source) => splices := splices + [Mark(|values|, source)];
      case Member(c) => values := values + [c];
      case Group(cs) => values := values + cs;
      case Unparsed =>
    }
    assert es[..|es|] == es;
  }

  lemma {:induction false} MembersConcat(a: seq<Element>, b: seq<Element>)
    ensures Members(a + b) == Members(a) + Members(b)
    decreases |b|
  {
    if b == [] {
      assert a + b == a;
    } else {
      var front, last := b[..|b| - 1], b[|b| - 1];
      assert (a + b)[..|a + b| - 1] == a + front;
      MembersConcat(a, front);
    }
  }

  /** The choices a display lists: members and the members of groups in the order written, nothing for
      a starred source or for what did not parse. */
  lemma MembersAreWhatIsWritten(a: seq<Element>, b: seq<Element>, choice: Choice, group: seq<Choice>, source: string)
    ensures Members([]) == []
    ensures Members([Member(choice)]) == [choice] && Members([Group(group)]) == group
    ensures Members([Splice(source)]) == [] && Members([Unparsed]) == []
    ensures Members(a + b) == Members(a) + Members(b)
  {
    MembersConcat(a, b);
    assert [Member(choice)][..0] == [] && [Group(group)][..0] == [];
    assert [Splice(source)][..0] == [] && [Unparsed][..0] == [];
  }

  // ---- Lists that may be shared -------------------------------------------------------------------

  /** Which list each set holds, named by the set it was made for, and the lists themselves. A set
      that inherits holds its base's list, not a copy. */
  datatype Store = Store(owner: map<string, string>, lists: map<string, seq<Choice>>)

  function View(st: Store, name: string): seq<Choice> {
    if name in st.owner && st.owner[name] in st.lists then st.lists[st.owner[name]] else []
  }

  function Insert(s: seq<Choice>, pos: nat, t: seq<Choice>): seq<Choice> {
    if pos <= |s| then s[..pos] + t + s[pos..] else s + t
  }

  /** The loop over `reversed(splices)`: the last mark first, reading whatever the source holds now. */
  function SpliceAll(st: Store, me: string, ms: seq<Mark>): Store
    requires me in st.lists
    decreases |ms|
  {
    if ms == [] then st
    else
      var m := ms[|ms| - 1];
      SpliceAll(st.(lists := st.lists[me := Insert(st.lists[me], m.pos, View(st, m.source))]), me, ms[..|ms| - 1])
  }

  /** The first base that holds a non-empty list. */
  function FirstBase(st: Store, bases: seq<string>): Option<string> {
    if bases == [] then None
    else if View(st, bases[0]) != [] then Some(bases[0])
    else FirstBase(st, bases[1..])
  }

  function Inherited(st: Store, name: string, bases: seq<string>): Store {
    var b := FirstBase(st, bases);
    if name in st.owner || b.None? then st
    else if b.value in st.owner then st.(owner := st.owner[name := st.owner[b.value]])
    else st
  }

  function MarksOf(s: ChoiceSet): seq<Mark> {
    if s.body.Listed? then Marks(s.body.elements) else []
  }

  function HasList(s: ChoiceSet): bool {
    s.body.Listed? || s.body.EmptyCall?
  }

  /** Lines 255-273 for one set. */
  function Turn(sets: Sets, st: Store, name: string): Store
    requires name in sets && Sound(sets, st)
  {
    var st1 := Inherited(st, name, sets[name].bases);
    if name in st1.owner then SpliceAll(st1, st1.owner[name], MarksOf(sets[name])) else st1
  }

  predicate Sound(sets: Sets, st: Store) {
    && (forall n | n in st.owner :: n in sets && st.owner[n] in st.lists)
    && (forall n | n in sets && HasList(sets[n]) :: n in st.owner && st.owner[n] == n)
  }

  function Start(sets: Sets): Store {
    Store(map n | n in sets && HasList(sets[n]) :: n,
          map n | n in sets && HasList(sets[n]) ::
            if sets[n].body.Listed? then Members(sets[n].body.elements) else [])
  }

  /** The pass after the first n sets of the order. */
  function After(sets: Sets, order: seq<string>, n: nat): (st: Store)
    requires n <= |order| && forall name | name in order :: name in sets
    ensures Sound(sets, st)
  {
    if n == 0 then Start(sets)
    else
      var st := After(sets, order, n - 1);
      TurnIsSound(sets, st, order[n - 1]);
      Turn(sets, st, order[n - 1])
  }

  lemma {:induction false} SpliceAllFrame(st: Store, me: string, ms: seq<Mark>)
    requires me in st.lists
    ensures var after := SpliceAll(st, me, ms);
            && after.owner == st.owner && after.lists.Keys == st.lists.Keys
            && (forall n | n in st.lists && n != me :: after.lists[n] == st.lists[n])
            && (after.lists[me] == st.lists[me] || |after.lists[me]| > |st.lists[me]|)
            && (ms == [] ==> after == st)
    decreases |ms|
  {
    if ms != [] {
      var m := ms[|ms| - 1];
      var next := st.(lists := st.lists[me := Insert(st.lists[me], m.pos, View(st, m.source))]);
      if View(st, m.source) == [] {
        assert Insert(st.lists[me], m.pos, []) == st.lists[me];
      }
      SpliceAllFrame(next, me, ms[..|ms| - 1]);
    }
  }

  lemma {:induction false} FirstBaseMeans(st: Store, bases: seq<string>)
    ensures FirstBase(st, bases).Some? ==>
      View(st, FirstBase(st, bases).value) != [] && FirstBase(st, bases).value in bases
  {
    if bases != [] && View(st, bases[0]) == [] {
      FirstBaseMeans(st, bases[1..]);
    }
  }

  lemma TurnIsSound(sets: Sets, st: Store, name: string)
    requires name in sets && Sound(sets, st)
    ensures Sound(sets, Turn(sets, st, name))
  {
    FirstBaseMeans(st, sets[name].bases);
    var st1 := Inherited(st, name, sets[name].bases);
    if name in st1.owner {
      SpliceAllFrame(st1, st1.owner[name], MarksOf(sets[name]));
    }
  }

  /** The second pass of `extract_choices`, on lists updated in place. */
  class ChoicePass {
    var owner: map<string, string>
    var lists: map<string, seq<Choice>>
    var unresolved: seq<string>

    ghost function Now(): Store
      reads this
    {
      Store(owner, lists)
    }

    constructor (sets: Sets)
      ensures Now() == Start(sets) && unresolved == []
    {
      owner := map n | n in sets && HasList(sets[n]) :: n;
      lists := map n | n in sets && HasList(sets[n]) ::
        if sets[n].body.Listed? then Members(sets[n].body.elements) else [];
      unresolved := [];
    }

    method SpliceInto(me: string, ms: seq<Mark>)
      requires me in lists
      modifies this
      ensures Now() == SpliceAll(old(Now()), me, ms)
    {
      var i := |ms|;
      assert ms[..i] == ms;
      while i > 0
        invariant 0 <= i <= |ms| && me in lists
        invariant SpliceAll(Now(), me, ms[..i]) == SpliceAll(old(Now()), me, ms)
      {
        i := i - 1;
        assert ms[..i + 1][..i] == ms[..i];
        var held := if ms[i].source in owner && owner[ms[i].source] in lists then lists[owner[ms[i].source]] else [];
        if held == [] {
          unresolved := unresolved + [ms[i].source];
          assert Insert(lists[me], ms[i].pos, []) == lists[me];
          assert lists[me := lists[me]] == lists;
        } else {
          lists := lists[me := Insert(lists[me], ms[i].pos, held)];
        }
      }
    }

    method TakeTurn(sets: Sets, name: string)
      requires name in sets && Sound(sets, Now())
      modifies this
      ensures Now() == Turn(sets, old(Now()), name) && Sound(sets, Now())
    {
      TurnIsSound(sets, Now(), name);
      FirstBaseMeans(Now(), sets[name].bases);
      if name !in owner {
        var b := FirstBase(Store(owner, lists), sets[name].bases);
        if b.None? {
          unresolved := unresolved + [name];
          return;
        }
        owner := owner[name := owner[b.value]];
      }
      SpliceInto(owner[name], MarksOf(sets[name]));
    }

    method Run(sets: Sets, order: seq<string>)
      requires Now() == Start(sets) && forall name | name in order :: name in sets
      modifies this
      ensures Now() == After(sets, order, |order|)
    {
      for i := 0 to |order|
        invariant Now() == After(sets, order, i)
      {
        TakeTurn(sets, order[i]);
      }
    }
  }

  // ---- Reversed insertion is expansion ------------------------------------------------------------

  /** The member list read left to right, each starred source replaced by what st says it holds. */
  function Expand(es: seq<Element>, st: Store): seq<Choice> {
    if es == [] then []
    else
      var last := es[|es| - 1];
      Expand(es[..|es| - 1], st) + if last.Splice? then View(st, last.source) else Own(last)
  }

  lemma {:induction false} ExpandConcat(a: seq<Element>, b: seq<Element>, st: Store)
    ensures Expand(a + b, st) == Expand(a, st) + Expand(b, st)
    decreases |b|
  {
    if b == [] {
      assert a + b == a;
    } else {
      var front, last := b[..|b| - 1], b[|b| - 1];
      assert (a + b)[..|a + b| - 1] == a + front;
      ExpandConcat(a, front, st);
    }
  }

  /** And expanded: the same, with what each starred source holds in its place. */
  lemma ExpansionIsWhatIsWritten(a: seq<Element>, b: seq<Element>, choice: Choice, group: seq<Choice>,
                                 source: string, st: Store)
    ensures Expand([], st) == [] && Expand([Unparsed], st) == []
    ensures Expand([Member(choice)], st) == [choice] && Expand([Group(group)], st) == group
    ensures Expand([Splice(source)], st) == View(st, source)
    ensures Expand(a + b, st) == Expand(a, st) + Expand(b, st)
  {
    ExpandConcat(a, b, st);
    assert [Member(choice)][..0] == [] && [Group(group)][..0] == [];
    assert [Splice(source)][..0] == [] && [Unparsed][..0] == [];
  }

  function InsertAll(values: seq<Choice>, ms: seq<Mark>, st: Store): seq<Choice>
    decreases |ms|
  {
    if ms == [] then values
    else
      var m := ms[|ms| - 1];
      InsertAll(Insert(values, m.pos, View(st, m.source)), ms[..|ms| - 1], st)
  }

  /** Insertions at positions inside the front leave the back alone. */
  lemma {:induction false} InsertInFront(values: seq<Choice>, tail: seq<Choice>, ms: seq<Mark>, st: Store)
    requires forall m | m in ms :: m.pos <= |values|
    ensures InsertAll(values + tail, ms, st) == InsertAll(values, ms, st) + tail
    decreases |ms|
  {
    if ms != [] {
      var m := ms[|ms| - 1];
      var t := View(st, m.source);
      assert m in ms;
      assert Insert(values + tail, m.pos, t) == Insert(values, m.pos, t) + tail;
      InsertInFront(Insert(values, m.pos, t), tail, ms[..|ms| - 1], st);
    }
  }

  lemma {:induction false} ReversedInsertionExpands(es: seq<Element>, st: Store)
    ensures InsertAll(Members(es), Marks(es), st) == Expand(es, st)
    decreases |es|
  {
    if es != [] {
      var front, last := es[..|es| - 1], es[|es| - 1];
      ReversedInsertionExpands(front, st);
      if last.Splice? {
        var t := View(st, last.source);
        assert Members(es) == Members(front);
        assert Insert(Members(front), |Members(front)|, t) == Members(front) + t;
        assert Marks(es)[..|Marks(es)| - 1] == Marks(front);
        InsertInFront(Members(front), t, Marks(front), st);
      } else {
        assert Marks(es) == Marks(front);
        InsertInFront(Members(front), Own(last), Marks(front), st);
      }
    }
  }

  /** No mark reads the list being extended, under its own name or an inheriting one. */
  predicate NoSelfSource(st: Store, me: string, ms: seq<Mark>) {
    forall m | m in ms :: m.source !in st.owner || st.owner[m.source] != me
  }

  lemma {:induction false} InPlaceIsInsertAll(st: Store, view: Store, me: string, ms: seq<Mark>)
    requires me in st.lists && NoSelfSource(st, me, ms)
    requires forall m | m in ms :: View(st, m.source) == View(view, m.source)
    ensures me in SpliceAll(st, me, ms).lists && SpliceAll(st, me, ms).lists[me] == InsertAll(st.lists[me], ms, view)
    decreases |ms|
  {
    SpliceAllFrame(st, me, ms);
    if ms != [] {
      var m := ms[|ms| - 1];
      assert m in ms;
      var next := st.(lists := st.lists[me := Insert(st.lists[me], m.pos, View(st, m.source))]);
      forall o | o in ms[..|ms| - 1] ensures o in ms && View(next, o.source) == View(st, o.source) {
      }
      InPlaceIsInsertAll(next, view, me, ms[..|ms| - 1]);
    }
  }

  /** One set's turn leaves it with its member list expanded left to right, adjacent splices,
      unresolved and empty sources included. */
  lemma TurnExpands(sets: Sets, st: Store, name: string)
    requires name in sets && Sound(sets, st) && sets[name].body.Listed?
    requires View(st, name) == Members(sets[name].body.elements)
    requires NoSelfSource(st, name, MarksOf(sets[name]))
    ensures View(Turn(sets, st, name), name) == Expand(sets[name].body.elements, st)
  {
    var ms := MarksOf(sets[name]);
    SpliceAllFrame(st, name, ms);
    InPlaceIsInsertAll(st, st, name, ms);
    ReversedInsertionExpands(sets[name].body.elements, st);
  }

  // ---- The whole pass -----------------------------------------------------------------------------

  predicate ValidOrder(sets: Sets, order: seq<string>) {
    (forall name | name in order :: name in sets) && forall i, j | 0 <= i < j < |order| :: order[i] != order[j]
  }

  /** A turn of another set leaves a set's own list alone. */
  lemma OtherTurn(sets: Sets, st: Store, name: string, other: string)
    requires name in sets && other in sets && name != other && Sound(sets, st) && HasList(sets[name])
    ensures View(Turn(sets, st, other), name) == View(st, name)
  {
    TurnIsSound(sets, st, other);
    var st1 := Inherited(st, other, sets[other].bases);
    FirstBaseMeans(st, sets[other].bases);
    if other in st1.owner {
      SpliceAllFrame(st1, st1.owner[other], MarksOf(sets[other]));
    }
  }

  /** A set's list changes in its own turn only. */
  lemma {:induction false} UntouchedBetween(sets: Sets, order: seq<string>, name: string, m: nat, n: nat)
    requires ValidOrder(sets, order) && m <= n <= |order| && name in sets && HasList(sets[name])
    requires forall i | m <= i < n :: order[i] != name
    ensures View(After(sets, order, n), name) == View(After(sets, order, m), name)
    decreases n
  {
    if m < n {
      UntouchedBetween(sets, order, name, m, n - 1);
      OtherTurn(sets, After(sets, order, n - 1), name, order[n - 1]);
    }
  }

  /** What any set holds only ever grows. */
  lemma TurnGrows(sets: Sets, st: Store, name: string, src: string)
    requires name in sets && Sound(sets, st)
    ensures View(Turn(sets, st, name), src) == View(st, src) || |View(Turn(sets, st, name), src)| > |View(st, src)|
  {
    TurnIsSound(sets, st, name);
    var st1 := Inherited(st, name, sets[name].bases);
    FirstBaseMeans(st, sets[name].bases);
    if name in st1.owner {
      SpliceAllFrame(st1, st1.owner[name], MarksOf(sets[name]));
    }
  }

  lemma {:induction false} OnlyGrows(sets: Sets, order: seq<string>, src: string, m: nat, n: nat)
    requires ValidOrder(sets, order) && m <= n <= |order|
    ensures var before, after := View(After(sets, order, m), src), View(After(sets, order, n), src);
            after == before || |after| > |before|
    decreases n
  {
    if m < n {
      OnlyGrows(sets, order, src, m, n - 1);
      TurnGrows(sets, After(sets, order, n - 1), order[n - 1], src);
    }
  }

  lemma StartHoldsMembers(sets: Sets, name: string)
    requires name in sets && sets[name].body.Listed?
    ensures View(Start(sets), name) == Members(sets[name].body.elements)
  {
  }

  /** When the whole pass is over a set holds what its turn made of it. */
  lemma FinalIsItsTurn(sets: Sets, order: seq<string>, i: nat)
    requires ValidOrder(sets, order) && i < |order| && sets[order[i]].body.Listed?
    requires NoSelfSource(After(sets, order, i), order[i], MarksOf(sets[order[i]]))
    ensures View(After(sets, order, |order|), order[i]) == Expand(sets[order[i]].body.elements, After(sets, order, i))
  {
    hide Turn, Start, Expand, Marks, MarksOf, View, Sound, NoSelfSource;
    StartHoldsMembers(sets, order[i]);
    UntouchedBetween(sets, order, order[i], 0, i);
    TurnExpands(sets, After(sets, order, i), order[i]);
    UntouchedBetween(sets, order, order[i], i + 1, |order|);
  }

  /** Where one store holds longer lists wherever it differs, expansions agree only source by source. */
  lemma {:induction false} ExpansionsAgreeIff(es: seq<Element>, early: Store, late: Store)
    requires forall e | e in es && e.Splice? ::
      View(late, e.source) == View(early, e.source) || |View(late, e.source)| > |View(early, e.source)|
    ensures |Expand(es, early)| <= |Expand(es, late)|
    ensures |Expand(es, early)| == |Expand(es, late)| <==>
      forall e | e in es && e.Splice? :: View(late, e.source) == View(early, e.source)
    ensures (forall e | e in es && e.Splice? :: View(late, e.source) == View(early, e.source)) ==>
      Expand(es, early) == Expand(es, late)
    decreases |es|
  {
    if es != [] {
      var front, last := es[..|es| - 1], es[|es| - 1];
      assert es == front + [last] && last in es;
      ExpansionsAgreeIff(front, early, late);
    }
  }

  lemma {:induction false} ExpansionAddsMembers(es: seq<Element>, st: Store)
    ensures |Expand(es, st)| >= |Members(es)|
    ensures |Expand(es, st)| == |Members(es)| <==> forall e | e in es && e.Splice? :: View(st, e.source) == []
    decreases |es|
  {
    if es != [] {
      assert es == es[..|es| - 1] + [es[|es| - 1]];
      ExpansionAddsMembers(es[..|es| - 1], st);
    }
  }

  /** A set that does not read its own list holds the full expansion, every source itself in full,
      exactly when no source it splices in changes after its turn. */
  lemma ExpandedIffSourcesUnchanged(sets: Sets, order: seq<string>, i: nat)
    requires ValidOrder(sets, order) && i < |order| && sets[order[i]].body.Listed?
    requires NoSelfSource(After(sets, order, i), order[i], MarksOf(sets[order[i]]))
    ensures var es := sets[order[i]].body.elements;
            var turn, final := After(sets, order, i), After(sets, order, |order|);
            View(final, order[i]) == Expand(es, final) <==>
              forall e | e in es && e.Splice? :: View(final, e.source) == View(turn, e.source)
  {
    var es := sets[order[i]].body.elements;
    FinalIsItsTurn(sets, order, i);
    forall e | e in es && e.Splice? {
      OnlyGrows(sets, order, e.source, i, |order|);
    }
    ExpansionsAgreeIff(es, After(sets, order, i), After(sets, order, |order|));
  }
}
