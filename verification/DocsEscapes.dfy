/** hack/mkdocs_hooks.py:31-45 against the disk: the hook judges by how far a link climbs, the source
    checker of hack/check-docs-links.py by the file it ends at. Where the two differ. */
module DocsEscapes {
  import opened PosixPaths
  import opened DocsLinks

  /** The path is the directory or something below it, as the file system spells them. */
  predicate LiesUnder(path: string, dir: string) {
    path == dir || StartsWith(path, dir + "/")
  }

  ghost predicate AllPlain(cs: seq<string>) {
    forall c | c in cs :: Plain(c)
  }

  lemma AbsoluteSplits(cs: seq<string>)
    requires cs != [] && AllPlain(cs)
    ensures Split(Absolute(cs)) == [""] + cs && |Absolute(cs)| > 1
  {
    hide JoinSlash, Split;
    PlainJoin(cs);
    assert Absolute(cs) == [] + [SLASH] + JoinSlash(cs);
    SplitAtSlash([], JoinSlash(cs));
    SplitWithoutSlash([]);
    SplitOfJoin(cs);
  }

  lemma AbsoluteBelow(base: seq<string>, names: seq<string>)
    requires base != [] && names != [] && AllPlain(base) && AllPlain(names)
    ensures Absolute(base + names) == Absolute(base) + "/" + JoinSlash(names)
  {
    JoinConcat(base, names);
  }

  lemma BelowMeansLonger(base: seq<string>, cs: seq<string>, rest: string)
    requires base != [] && cs != [] && AllPlain(base) && AllPlain(cs)
    requires Absolute(cs) == Absolute(base) + [SLASH] + rest
    ensures base <= cs
  {
    hide Split, Absolute, Plain;
    AbsoluteSplits(base);
    AbsoluteSplits(cs);
    SplitAtSlash(Absolute(base), rest);
    var longer := [""] + base + Split(rest);
    assert [""] + cs == longer;
    assert cs == longer[1..] && longer[1..] == base + Split(rest);
  }

  lemma SameMeansSame(base: seq<string>, cs: seq<string>)
    requires base != [] && cs != [] && AllPlain(base) && AllPlain(cs) && Absolute(cs) == Absolute(base)
    ensures base == cs
  {
    hide Split, Absolute, Plain;
    AbsoluteSplits(base);
    AbsoluteSplits(cs);
    assert cs == ([""] + cs)[1..] && base == ([""] + base)[1..];
  }

  /** Lying below a directory is beginning with its components. */
  lemma LiesUnderIff(base: seq<string>, cs: seq<string>)
    requires base != [] && AllPlain(base) && AllPlain(cs)
    ensures LiesUnder(Absolute(cs), Absolute(base)) <==> base <= cs
  {
    hide Split, Absolute, Plain;
    var dir, path := Absolute(base), Absolute(cs);
    AbsoluteSplits(base);
    assert base <= cs ==> base < cs || base == cs;
    if cs == [] {
      RootIsShort();
    } else {
      if base < cs {
        var names := cs[|base|..];
        assert cs == base + names;
        AbsoluteBelow(base, names);
        assert path[..|dir + "/"|] == dir + "/";
        assert StartsWith(path, dir + "/");
      }
      if StartsWith(path, dir + "/") {
        assert path == dir + [SLASH] + path[|dir| + 1..];
        BelowMeansLonger(base, cs, path[|dir| + 1..]);
      }
      if path == dir {
        SameMeansSame(base, cs);
      }
    }
  }

  lemma RootIsShort()
    ensures |Absolute([])| == 1
  {
  }

  // ---- Climbing out and coming back by name -----------------------------------------------------------

  /** The components a climb leaves behind, no further than the root. */
  function LeftBehind(base: seq<string>, ups: nat): seq<string> {
    if ups <= |base| then base[|base| - ups..] else base
  }

  /** The path names again what it climbed out of. */
  predicate ComesBack(base: seq<string>, ups: nat, names: seq<string>) {
    LeftBehind(base, ups) <= names
  }

  lemma UnderBaseIff(base: seq<string>, ups: nat, names: seq<string>)
    ensures base <= Back(base, ups) + names <==> ComesBack(base, ups, names)
  {
    var left := LeftBehind(base, ups);
    assert base == Back(base, ups) + left;
    if left <= names {
      assert Back(base, ups) + names == base + names[|left|..];
    }
    if base <= Back(base, ups) + names {
      assert left == base[|Back(base, ups)|..] == (Back(base, ups) + names)[..|base|][|Back(base, ups)|..];
    }
  }

  /** A page and a link the hook reads as a path. */
  ghost predicate IsLink(repo: seq<string>, dirs: seq<string>, file: string, target: string) {
    repo != [] && AllPlain(repo) && IsPage(dirs, file) && !Skipped(target)
  }

  function OnDisk(repo: seq<string>, dirs: seq<string>, file: string, target: string): string {
    SourceTarget(PageFile(repo, dirs, file), target)
  }

  lemma BaseLies(base: seq<string>, ups: nat, names: seq<string>)
    requires base != [] && AllPlain(base) && AllPlain(names)
    ensures AllPlain(Back(base, ups) + names)
    ensures LiesUnder(Absolute(Back(base, ups) + names), Absolute(base)) <==> ComesBack(base, ups, names)
  {
    BackIsPlain(base, ups, names);
    hide Absolute, LiesUnder, AllPlain, ComesBack;
    LiesUnderIff(base, Back(base, ups) + names);
    UnderBaseIff(base, ups, names);
  }

  lemma BackIsPlain(base: seq<string>, ups: nat, names: seq<string>)
    requires AllPlain(base) && AllPlain(names)
    ensures AllPlain(Back(base, ups) + names)
  {
    hide Plain;
  }

  /** A climb from docs/ and the names after it, against docs/ and against the repository. */
  lemma ClimbLies(repo: seq<string>, w: Climb)
    requires repo != [] && AllPlain(repo) && AllPlain(w.names)
    ensures var path := Absolute(Back(repo + ["docs"], w.ups) + w.names);
            && (LiesUnder(path, Absolute(repo + ["docs"])) <==> ComesBack(repo + ["docs"], w.ups, w.names))
            && (LiesUnder(path, Absolute(repo)) <==> w.ups == 0 || ComesBack(repo, w.ups - 1, w.names))
  {
    var docs := repo + ["docs"];
    DocsIsPlain(repo);
    hide Absolute, LiesUnder, AllPlain, ComesBack;
    BaseLies(docs, w.ups, w.names);
    if w.ups > 0 {
      assert Back(docs, w.ups) == Back(repo, w.ups - 1);
      BaseLies(repo, w.ups - 1, w.names);
    } else {
      LiesUnderIff(repo, Back(docs, 0) + w.names);
      assert Back(docs, 0) + w.names == repo + (["docs"] + w.names);
    }
  }

  /** Where the linked file lies, by the climb alone. */
  lemma LinkLies(repo: seq<string>, dirs: seq<string>, file: string, target: string)
    requires IsLink(repo, dirs, file, target)
    ensures var w, path := LinkClimb(dirs, target), OnDisk(repo, dirs, file, target);
            && (LiesUnder(path, Absolute(repo + ["docs"])) <==> ComesBack(repo + ["docs"], w.ups, w.names))
            && (LiesUnder(path, Absolute(repo)) <==> w.ups == 0 || ComesBack(repo, w.ups - 1, w.names))
  {
    SourceTargetIs(repo, dirs, file, target);
    LinkNamesArePlain(dirs, target);
    hide LinkClimb, Absolute, SourceTarget, Skipped, Plain, LiesUnder, ComesBack;
    ClimbLies(repo, LinkClimb(dirs, target));
  }

  lemma DocsIsPlain(repo: seq<string>)
    requires AllPlain(repo)
    ensures AllPlain(repo + ["docs"])
  {
  }

  lemma LinkNamesArePlain(dirs: seq<string>, target: string)
    requires AllPlain(dirs)
    ensures AllPlain(LinkClimb(dirs, target).names)
  {
    hide Split;
    SplitHasNoSlash(AtHash(target).0);
    WalkNamesArePlain(dirs + Split(AtHash(target).0));
  }

  /** The hook leaves a link alone when it climbs nowhere, or exactly to the repository root. */
  lemma KeptIff(dirs: seq<string>, file: string, target: string)
    requires IsPage(dirs, file) && !Skipped(target)
    ensures var w := LinkClimb(dirs, target);
            && (Rewrite(PageUri(dirs, file), target) == Link(target) <==> w.ups == 0 || (w.ups == 1 && w.names == []))
            && (Rewrite(PageUri(dirs, file), target) == Outside <==>
                  w.ups > 2 || (w.ups == 2 && w.names != []))
  {
    RewriteOutcomes(dirs, file, target);
    hide Rewrite, BlobBase, LinkClimb, AtHash, Skipped;
    var r := Rewrite(PageUri(dirs, file), target);
    if r.Link? && StartsWith(r.target, BlobBase()) {
      BaseIsSkipped(r.target);
    }
    var w, frag := LinkClimb(dirs, target), AtHash(target).1;
    StartsWithBase(JoinSlash(w.names), frag);
    StartsWithBase("..", frag);
  }

  lemma StartsWithBase(escaped: string, frag: string)
    ensures StartsWith(WithFragment(BlobBase() + escaped, frag), BlobBase())
  {
    hide BlobBase;
  }

  /** "Rewritten if it escapes docs/", on disk: a link is left alone exactly when its file lies in docs,
      except for the bare climb to the root, and for links that climb out and come back by name. */
  lemma LeftAloneIffInDocs(repo: seq<string>, dirs: seq<string>, file: string, target: string)
    requires IsLink(repo, dirs, file, target)
    ensures var w := LinkClimb(dirs, target);
            (Rewrite(PageUri(dirs, file), target) == Link(target) <==>
               LiesUnder(OnDisk(repo, dirs, file, target), Absolute(repo + ["docs"]))) <==>
              !(w.ups == 1 && w.names == []) && !(w.ups > 0 && ComesBack(repo + ["docs"], w.ups, w.names))
  {
    LinkLies(repo, dirs, file, target);
    KeptIff(dirs, file, target);
    hide LinkClimb, Rewrite, OnDisk, LiesUnder;
  }

  /** A link is refused exactly when its file lies outside the repository, except for the bare climb
      to just above it, and for links that leave it and come back by name. */
  lemma RefusedIffOutside(repo: seq<string>, dirs: seq<string>, file: string, target: string)
    requires IsLink(repo, dirs, file, target)
    ensures var w := LinkClimb(dirs, target);
            (Rewrite(PageUri(dirs, file), target) == Outside <==>
               !LiesUnder(OnDisk(repo, dirs, file, target), Absolute(repo))) <==>
              !(w.ups == 2 && w.names == []) && !(w.ups > 1 && ComesBack(repo, w.ups - 1, w.names))
  {
    LinkLies(repo, dirs, file, target);
    KeptIff(dirs, file, target);
    hide LinkClimb, Rewrite, OnDisk, LiesUnder;
  }

  /** `../docs/b` from a page at the top of docs/ becomes a URL, although its file is in docs/; and
      `../../r/x` is refused, although its file is in the repository r. */
  lemma ComingBackIsNotSeen(file: string)
    requires Plain(file)
    ensures Rewrite(PageUri([], file), "../docs/b") == Link(BlobBase() + "docs/b")
    ensures OnDisk(["r"], [], file, "../docs/b") == "/r/docs/b"
    ensures Rewrite(PageUri([], file), "../../r/x") == Outside && OnDisk(["r"], [], file, "../../r/x") == "/r/x"
  {
    hide BlobBase, Rewrite, OnDisk, LinkClimb, Skipped, AtHash;
    TwoTargets();
    RewriteOutcomes([], file, "../docs/b");
    RewriteOutcomes([], file, "../../r/x");
    OnDiskIs(["r"], [], file, "../docs/b");
    OnDiskIs(["r"], [], file, "../../r/x");
    assert Back(["r"] + ["docs"], 1) + ["docs", "b"] == ["r", "docs", "b"];
    assert Back(["r"] + ["docs"], 2) + ["r", "x"] == ["r", "x"];
    JoinedNames();
  }

  lemma OnDiskIs(repo: seq<string>, dirs: seq<string>, file: string, target: string)
    requires IsLink(repo, dirs, file, target)
    ensures var w := LinkClimb(dirs, target);
            OnDisk(repo, dirs, file, target) == Absolute(Back(repo + ["docs"], w.ups) + w.names)
  {
    SourceTargetIs(repo, dirs, file, target);
  }

  lemma JoinedNames()
    ensures JoinSlash(["docs", "b"]) == "docs/b"
    ensures Absolute(["r", "docs", "b"]) == "/r/docs/b" && Absolute(["r", "x"]) == "/r/x"
  {
    assert ["docs", "b"][1..] == ["b"] && ["r", "docs", "b"][1..] == ["docs", "b"] && ["r", "x"][1..] == ["x"];
  }

  lemma TwoTargets()
    ensures !Skipped("../docs/b") && LinkClimb([], "../docs/b") == Climb(1, ["docs", "b"])
    ensures AtHash("../docs/b").1 == ""
    ensures !Skipped("../../r/x") && LinkClimb([], "../../r/x") == Climb(2, ["r", "x"]) && AtHash("../../r/x").1 == ""
  {
    hide Skipped, AtHash, Split, Walk, LinkClimb;
    ClimbOf("../docs/b");
    ClimbOf("../../r/x");
    SplitThem();
    WalkThem();
  }

  lemma SplitThem()
    ensures Split("../docs/b") == ["..", "docs", "b"] && Split("../../r/x") == ["..", "..", "r", "x"]
  {
    hide Split;
    SplitWithoutSlash("docs");
    SplitWithoutSlash("b");
    SplitWithoutSlash("r");
    SplitWithoutSlash("x");
    SplitUps();
    assert "../docs/b" == ".." + [SLASH] + "docs/b" && "docs/b" == "docs" + [SLASH] + "b";
    assert "../../r/x" == "../.." + [SLASH] + "r/x" && "r/x" == "r" + [SLASH] + "x";
    SplitAtSlash("..", "docs/b");
    SplitAtSlash("docs", "b");
    SplitAtSlash("../..", "r/x");
    SplitAtSlash("r", "x");
  }

  lemma WalkThem()
    ensures Walk(["..", "docs", "b"]) == Climb(1, ["docs", "b"])
    ensures Walk(["..", "..", "r", "x"]) == Climb(2, ["r", "x"])
  {
    assert ["..", "docs", "b"][..2] == ["..", "docs"] && ["..", "docs"][..1] == [".."] && [".."][..0] == [];
    assert ["..", "..", "r", "x"][..3] == ["..", "..", "r"] && ["..", "..", "r"][..2] == ["..", ".."];
    assert ["..", ".."][..1] == [".."];
  }
}
