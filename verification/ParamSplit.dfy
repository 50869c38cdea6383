/** hack/build-netbox-ir.py:224-237: `registered`, which composes `param__suffix` by splitting at
    the last double underscore instead of materialising every combination. */
module ParamSplit {
  import opened Options

  /** The position of the last "__" in s. */
  function LastDouble(s: string): Option<nat> {
    if |s| < 2 then None
    else if s[|s| - 2] == '_' && s[|s| - 1] == '_' then Some(|s| - 2)
    else LastDouble(s[..|s| - 1])
  }

  predicate DoubleAt(s: string, i: int) {
    0 <= i < |s| - 1 && s[i] == '_' && s[i + 1] == '_'
  }

  lemma {:induction false} LastDoubleMeans(s: string)
    ensures LastDouble(s).None? <==> forall i :: !DoubleAt(s, i)
    ensures LastDouble(s).Some? ==>
      DoubleAt(s, LastDouble(s).value) && forall i | i > LastDouble(s).value :: !DoubleAt(s, i)
  {
    if |s| >= 2 && !DoubleAt(s, |s| - 2) {
      var front := s[..|s| - 1];
      LastDoubleMeans(front);
      forall i ensures DoubleAt(s, i) <==> DoubleAt(front, i) {
        if DoubleAt(s, i) {
          assert i != |s| - 2;
        }
      }
    } else if |s| >= 2 {
      assert DoubleAt(s, |s| - 2);
    }
  }

  /** `rpartition("__")` without its middle part. */
  function RPartition(s: string): (r: (string, string))
    ensures LastDouble(s).Some? ==> s == r.0 + "__" + r.1
  {
    LastDoubleMeans(s);
    var at := LastDouble(s);
    if at.Some? then (s[..at.value], s[at.value + 2..]) else ("", s)
  }

  /** A suffix that the split cannot cut elsewhere. */
  predicate CleanSuffix(s: string) {
    LastDouble(s).None? && (s == "" || s[0] != '_')
  }

  /** Joining a base and a suffix and splitting again gives both back exactly when the suffix is
      clean, whatever the base ends with. */
  lemma SplitRoundTrip(head: string, suffix: string)
    ensures RPartition(head + "__" + suffix) == (head, suffix) <==> CleanSuffix(suffix)
  {
    var s := head + "__" + suffix;
    LastDoubleMeans(s);
    LastDoubleMeans(suffix);
    assert DoubleAt(s, |head|);
    assert s[..|head|] == head && s[|head| + 2..] == suffix;
    forall i | i > |head|
      ensures DoubleAt(s, i) <==>
        DoubleAt(suffix, i - |head| - 2) || (i == |head| + 1 && suffix != "" && suffix[0] == '_')
    {
    }
    if !CleanSuffix(suffix) {
      if suffix != "" && suffix[0] == '_' {
        assert DoubleAt(s, |head| + 1);
      } else {
        assert DoubleAt(s, LastDouble(suffix).value + |head| + 2);
      }
      assert LastDouble(s).value > |head|;
      assert |RPartition(s).0| > |head|;
    } else {
      assert LastDouble(s).value == |head|;
    }
  }

  // ---- registered ---------------------------------------------------------------------------------

  /** A filter as it is set up: its class when that is known, the column it reads, the method that
      answers in its place, and its ORM lookup. */
  datatype Source = Source(
    filterClass: Option<string>,
    column: string,
    filterMethod: Option<string>,
    lookupExpr: string)

  /** One registered parameter: the filter behind it, and its suffixes when they are known. */
  datatype Filter = Filter(source: Source, lookups: Option<map<string, string>>, lookupMap: Option<string>)

  type Filters = map<string, Filter>

  /** Not registered; a parameter of its own; or a base with a suffix and the ORM lookup behind it. */
  datatype Verdict = Unregistered | Base | Suffixed(orm: string)

  function Registered(param: string, filters: Filters): Verdict {
    if param in filters then Base
    else
      var (head, suffix) := RPartition(param);
      if head in filters && filters[head].lookups.Some? && suffix in filters[head].lookups.value
      then Suffixed(filters[head].lookups.value[suffix])
      else Unregistered
  }

  predicate Composes(filters: Filters, param: string, head: string, suffix: string) {
    && param == head + "__" + suffix
    && head in filters && filters[head].lookups.Some? && suffix in filters[head].lookups.value
  }

  /** The set that is never built: every parameter, and every parameter with each of its suffixes. */
  ghost predicate Materialised(filters: Filters, param: string, v: Verdict) {
    match v
    case Unregistered => false
    case Base => param in filters
    case Suffixed(orm) =>
      param !in filters
      && exists head, suffix :: Composes(filters, param, head, suffix) && filters[head].lookups.value[suffix] == orm
  }

  /** No suffix that could be cut elsewhere, and no empty parameter name. */
  ghost predicate CleanTable(filters: Filters) {
    && "" !in filters
    && forall p, s {:trigger s in filters[p].lookups.value} |
         p in filters && filters[p].lookups.Some? && s in filters[p].lookups.value :: CleanSuffix(s)
  }

  /** Composing on demand accepts exactly the materialised set, with the same ORM lookup. */
  lemma RegisteredIsMaterialised(filters: Filters, param: string, v: Verdict)
    requires CleanTable(filters) && v != Unregistered
    ensures Registered(param, filters) == v <==> Materialised(filters, param, v)
  {
    LastDoubleMeans(param);
    if param !in filters && v.Suffixed? {
      var (head, suffix) := RPartition(param);
      if Registered(param, filters) == v {
        assert Composes(filters, param, head, suffix);
      }
      if Materialised(filters, param, v) {
        var h, s :| Composes(filters, param, h, s) && filters[h].lookups.value[s] == v.orm;
        SplitRoundTrip(h, s);
      }
    }
  }

  /** So a refused parameter is in no part of it, and an accepted one has one meaning. */
  lemma RefusedIsNowhere(filters: Filters, param: string)
    requires CleanTable(filters)
    ensures Registered(param, filters) == Unregistered <==> forall v :: !Materialised(filters, param, v)
  {
    var v := Registered(param, filters);
    if v != Unregistered {
      RegisteredIsMaterialised(filters, param, v);
    }
    forall u ensures Materialised(filters, param, u) ==> Registered(param, filters) == u {
      if u != Unregistered {
        RegisteredIsMaterialised(filters, param, u);
      }
    }
  }

  ghost predicate HasPair(filters: Filters, head: string, suffix: string) {
    head in filters && filters[head].lookups.Some? && suffix in filters[head].lookups.value
  }

  /** `head__suffix` is a parameter of its own, or splits to a pair with the same ORM lookup. */
  ghost predicate SplitsBack(filters: Filters, head: string, suffix: string)
    requires HasPair(filters, head, suffix)
  {
    var param := head + "__" + suffix;
    var (h, s) := RPartition(param);
    param in filters || (HasPair(filters, h, s) && filters[h].lookups.value[s] == filters[head].lookups.value[suffix])
  }

  /** The suffixes of an unnamed parameter are accepted as they stand where they hold no "__". */
  ghost predicate UnnamedAddsNothing(filters: Filters) {
    forall s | HasPair(filters, "", s) && LastDouble(s).None? :: s in filters
  }

  ghost predicate ComposesAsMaterialised(filters: Filters) {
    forall param, v | v != Unregistered :: Registered(param, filters) == v <==> Materialised(filters, param, v)
  }

  /** For any table at all: composing on demand accepts the materialised set exactly when each of its
      pairs splits back, or loses to a parameter of that name, and an unnamed parameter adds nothing. */
  lemma ComposesAsMaterialisedIff(filters: Filters)
    ensures ComposesAsMaterialised(filters) <==>
      (forall head, suffix | HasPair(filters, head, suffix) :: SplitsBack(filters, head, suffix))
      && UnnamedAddsNothing(filters)
  {
    if ComposesAsMaterialised(filters) {
      forall head, suffix | HasPair(filters, head, suffix) ensures SplitsBack(filters, head, suffix) {
        var param, orm := head + "__" + suffix, filters[head].lookups.value[suffix];
        if param !in filters {
          assert Composes(filters, param, head, suffix);
          assert Materialised(filters, param, Suffixed(orm));
        }
      }
      forall s | HasPair(filters, "", s) && LastDouble(s).None? ensures s in filters {
        if s !in filters {
          UnnamedIsNotComposed(filters, s);
        }
      }
    }
    if (forall head, suffix | HasPair(filters, head, suffix) :: SplitsBack(filters, head, suffix))
       && UnnamedAddsNothing(filters) {
      forall param, v | v != Unregistered
        ensures Registered(param, filters) == v <==> Materialised(filters, param, v)
      {
        SplittingTableComposes(filters, param, v);
      }
    }
  }

  lemma JoinedHasDouble(head: string, suffix: string)
    ensures LastDouble(head + "__" + suffix).Some?
  {
    var s := head + "__" + suffix;
    LastDoubleMeans(s);
    assert DoubleAt(s, |head|);
  }

  /** Such a parameter is accepted and in no part of the set. */
  lemma UnnamedIsNotComposed(filters: Filters, s: string)
    requires HasPair(filters, "", s) && LastDouble(s).None? && s !in filters
    ensures !ComposesAsMaterialised(filters)
  {
    var v := Suffixed(filters[""].lookups.value[s]);
    assert Registered(s, filters) == v;
    forall h, t ensures !Composes(filters, s, h, t) {
      JoinedHasDouble(h, t);
    }
    assert !Materialised(filters, s, v);
  }

  lemma SplittingTableComposes(filters: Filters, param: string, v: Verdict)
    requires forall head, suffix | HasPair(filters, head, suffix) :: SplitsBack(filters, head, suffix)
    requires UnnamedAddsNothing(filters) && v != Unregistered
    ensures Registered(param, filters) == v <==> Materialised(filters, param, v)
  {
    if param !in filters && v.Suffixed? {
      var (h, s) := RPartition(param);
      if Registered(param, filters) == v {
        assert HasPair(filters, h, s);
        assert LastDouble(param).Some?;
        assert Composes(filters, param, h, s);
      }
      if Materialised(filters, param, v) {
        var head, suffix :| Composes(filters, param, head, suffix) && filters[head].lookups.value[suffix] == v.orm;
        assert HasPair(filters, head, suffix) && SplitsBack(filters, head, suffix);
      }
    }
  }

  /** A suffix that begins with an underscore is registered by the table and refused by the split. */
  lemma UncleanSuffixIsMissed()
    ensures var filters := map["a" := Filter(Source(None, "a", None, "exact"), Some(map["_x" := "lt"]), None)];
            Materialised(filters, "a___x", Suffixed("lt")) && Registered("a___x", filters) == Unregistered
  {
    var filters := map["a" := Filter(Source(None, "a", None, "exact"), Some(map["_x" := "lt"]), None)];
    assert Composes(filters, "a___x", "a", "_x");
    assert LastDouble("a___x"[..4]) == Some(2);
  }
}
