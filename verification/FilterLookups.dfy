/** hack/build-netbox-ir.py:96-145: the per-path searches over class tables. Each call carries the
    path that led to it, so a class met on two paths is listed twice and a cycle is cut where the
    path would repeat itself: `filter_ancestry` is Graphs.Preorder. */
module FilterLookups {
  import opened Options
  import opened Graphs

  type Classes = map<string, seq<string>>

  // ---- The dispatch table -----------------------------------------------------------------------

  datatype Arm = Arm(classes: set<string>, lookupMap: string)

  /** The first arm that names a class of the chain. */
  method LookupMapFor(g: Classes, dispatch: seq<Arm>, cls: string) returns (m: Option<string>)
    ensures m == LookupMap(g, dispatch, cls)
    ensures m.None? <==> forall n | 0 <= n < |dispatch| :: !Matches(g, dispatch[n], cls)
    ensures m.Some? ==>
      exists n :: 0 <= n < |dispatch| && Matches(g, dispatch[n], cls) && dispatch[n].lookupMap == m.value
                  && forall j | 0 <= j < n :: !Matches(g, dispatch[j], cls)
  {
    var chain := Preorder(g, cls, {});
    for n := 0 to |dispatch|
      invariant forall j | 0 <= j < n :: !Matches(g, dispatch[j], cls)
    {
      forall c ensures c in chain <==> Reaches(g, cls, c) {
        PreorderExact(g, cls, c);
      }
      if exists c :: c in chain && c in dispatch[n].classes {
        FirstMatch(g, dispatch, cls, n);
        return Some(dispatch[n].lookupMap);
      }
    }
    NoMatch(g, dispatch, cls);
    return None;
  }

  ghost predicate Matches(g: Classes, arm: Arm, cls: string) {
    exists c :: c in arm.classes && Reaches(g, cls, c)
  }

  ghost function LookupMap(g: Classes, dispatch: seq<Arm>, cls: string): Option<string> {
    if dispatch == [] then None
    else if Matches(g, dispatch[0], cls) then Some(dispatch[0].lookupMap)
    else LookupMap(g, dispatch[1..], cls)
  }

  lemma {:induction false} FirstMatch(g: Classes, dispatch: seq<Arm>, cls: string, n: nat)
    requires n < |dispatch| && Matches(g, dispatch[n], cls)
    requires forall j | 0 <= j < n :: !Matches(g, dispatch[j], cls)
    ensures LookupMap(g, dispatch, cls) == Some(dispatch[n].lookupMap)
    decreases n
  {
    if n > 0 {
      assert !Matches(g, dispatch[0], cls);
      forall j | 0 <= j < n - 1 ensures !Matches(g, dispatch[1..][j], cls) {
        assert dispatch[1..][j] == dispatch[j + 1];
      }
      FirstMatch(g, dispatch[1..], cls, n - 1);
    }
  }

  lemma {:induction false} NoMatch(g: Classes, dispatch: seq<Arm>, cls: string)
    requires forall j | 0 <= j < |dispatch| :: !Matches(g, dispatch[j], cls)
    ensures LookupMap(g, dispatch, cls) == None
  {
    if dispatch != [] {
      assert !Matches(g, dispatch[0], cls);
      forall j | 0 <= j < |dispatch| - 1 ensures !Matches(g, dispatch[1..][j], cls) {
        assert dispatch[1..][j] == dispatch[j + 1];
      }
      NoMatch(g, dispatch[1..], cls);
    }
  }

  // ---- Filterset chains -------------------------------------------------------------------------

  /** A filterset after its bases, one copy per path; a base outside the table is skipped. */
  function Chain(g: Classes, name: string, path: set<string>): seq<string>
    decreases g.Keys - path, 0
  {
    if name in path || name !in g then [] else ChainOfAll(g, g[name], path + {name}) + [name]
  }

  function ChainOfAll(g: Classes, bases: seq<string>, path: set<string>): seq<string>
    decreases g.Keys - path, |bases| + 1
  {
    if bases == [] then [] else Chain(g, bases[0], path) + ChainOfAll(g, bases[1..], path)
  }

  /** The chain lists what the ancestry lists, restricted to the table, bases first. */
  lemma {:induction false} ChainIsPreorder(g: Classes, name: string, path: set<string>, c: string)
    ensures c in Chain(g, name, path) <==> c in g && c in Preorder(g, name, path)
    decreases g.Keys - path, 0
  {
    if name !in path && name in g {
      ChainOfAllIsPreorder(g, g[name], path + {name}, c);
    }
  }

  lemma {:induction false} ChainOfAllIsPreorder(g: Classes, bases: seq<string>, path: set<string>, c: string)
    ensures c in ChainOfAll(g, bases, path) <==> c in g && c in PreorderOfAll(g, bases, path)
    decreases g.Keys - path, |bases| + 1
  {
    if bases != [] {
      ChainIsPreorder(g, bases[0], path, c);
      ChainOfAllIsPreorder(g, bases[1..], path, c);
    }
  }

  lemma ChainExact(g: Classes, name: string, c: string)
    ensures c in Chain(g, name, {}) <==> c in g && Reaches(g, name, c)
  {
    ChainIsPreorder(g, name, {}, c);
    PreorderExact(g, name, c);
  }

  /** What a merge in chain order leaves: the declaration of the last listed class that makes one. */
  function LastDeclaring(chain: seq<string>, declares: set<string>): Option<string> {
    if chain == [] then None
    else
      var last := chain[|chain| - 1];
      if last in declares then Some(last) else LastDeclaring(chain[..|chain| - 1], declares)
  }

  lemma {:induction false} LastDeclaringMeans(chain: seq<string>, declares: set<string>)
    ensures LastDeclaring(chain, declares).None? <==> forall c | c in chain :: c !in declares
    ensures LastDeclaring(chain, declares).Some? ==>
      exists i :: 0 <= i < |chain| && chain[i] == LastDeclaring(chain, declares).value && chain[i] in declares
                  && forall j | i < j < |chain| :: chain[j] !in declares
  {
    if chain != [] {
      var front := chain[..|chain| - 1];
      LastDeclaringMeans(front, declares);
      assert chain == front + [chain[|chain| - 1]];
      if chain[|chain| - 1] in declares {
        assert chain[|chain| - 1] == LastDeclaring(chain, declares).value;
      } else if LastDeclaring(front, declares).Some? {
        var i :| 0 <= i < |front| && front[i] == LastDeclaring(front, declares).value && front[i] in declares
                 && forall j | i < j < |front| :: front[j] !in declares;
        forall j | i < j < |chain| ensures chain[j] !in declares {
          if j < |front| { assert chain[j] == front[j]; }
        }
        assert chain[i] == front[i];
      }
    }
  }
}
