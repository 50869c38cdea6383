/** hack/mkdocs_hooks.py:31-45 and hack/check-docs-links.py: the site hook that turns links out of
    docs/ into repository URLs, the source checker that resolves the same links, and the site checker
    that reads the URLs back. */
module DocsLinks {
  import opened Options
  import opened PosixPaths

  /** The base of every rewritten link, the repository's main branch. */
  function BlobBase(): string {
    "https" + "://" + MainBranch()
  }

  function MainBranch(): string {
    "github.com/ricardomolendijk/netbox-operator/blob/main/"
  }

  // ---- The hook -----------------------------------------------------------------------------------------

  /** Whether sub occurs in s. */
  function Contains(s: string, sub: string): bool {
    if StartsWith(s, sub) then true else if s == "" then false else Contains(s[1..], sub)
  }

  /** s.partition("#") without the middle part. */
  function AtHash(s: string): (r: (string, string))
    ensures '#' !in r.0
  {
    if s == "" then ("", "")
    else if s[0] == '#' then ("", s[1..])
    else ([s[0]] + AtHash(s[1..]).0, AtHash(s[1..]).1)
  }

  /** The link a page ends up with, or the error for one that leaves the repository. */
  datatype Rewritten = Link(target: string) | Outside

  /** Not a link the hook reads as a relative path. */
  function Skipped(target: string): bool {
    Contains(target, "://") || StartsWith(target, "#") || StartsWith(target, "/") || StartsWith(target, "mailto:")
    || AtHash(target).0 == ""
  }

  function WithFragment(url: string, frag: string): string {
    if frag != "" then url + "#" + frag else url
  }

  function Rewrite(src: string, target: string): Rewritten {
    if Skipped(target) then Link(target)
    else
      var (path, frag) := AtHash(target);
      var resolved := NormPath(Join(Dirname(src), path));
      if !StartsWith(resolved, "../") then Link(target)
      else
        var escaped := resolved[3..];
        if StartsWith(escaped, "../") then Outside else Link(WithFragment(BlobBase() + escaped, frag))
  }

  // ---- Pages --------------------------------------------------------------------------------------------

  /** A page under docs/ at plain components; the hook's src_uri is their join. */
  ghost predicate IsPage(dirs: seq<string>, file: string) {
    (forall d | d in dirs :: Plain(d)) && Plain(file)
  }

  function PageUri(dirs: seq<string>, file: string): string {
    JoinSlash(dirs + [file])
  }

  /** What a relative link of the page climbs to and names, seen from docs/. */
  function LinkClimb(dirs: seq<string>, target: string): Climb {
    Walk(dirs + Split(AtHash(target).0))
  }

  lemma {:induction false} PlainJoin(cs: seq<string>)
    requires cs != [] && forall c | c in cs :: Plain(c)
    ensures JoinSlash(cs) != "" && JoinSlash(cs)[0] != SLASH && JoinSlash(cs)[|JoinSlash(cs)| - 1] != SLASH
  {
    assert cs[0] in cs && cs[0][0] in cs[0] && cs[0][|cs[0]| - 1] in cs[0];
    if |cs| > 1 {
      assert forall c | c in cs[1..] :: c in cs;
      PlainJoin(cs[1..]);
    }
  }

  lemma {:induction false} LastSlashAfter(head: string, c: string)
    requires NoSlash(c)
    ensures LastSlash(head + [SLASH] + c) == |head| + 1
    decreases |c|
  {
    var s := head + [SLASH] + c;
    if c != [] {
      assert s[|s| - 1] == c[|c| - 1] && c[|c| - 1] in c;
      assert s[..|s| - 1] == head + [SLASH] + c[..|c| - 1];
      LastSlashAfter(head, c[..|c| - 1]);
    }
  }

  lemma {:induction false} NoLastSlash(c: string)
    requires NoSlash(c)
    ensures LastSlash(c) == 0
  {
    if c != "" {
      assert c[|c| - 1] in c;
      NoLastSlash(c[..|c| - 1]);
    }
  }

  /** The directory of a file below a directory that ends in a name is that directory. */
  lemma DirnameBelow(head: string, file: string)
    requires NoSlash(file) && head != "" && head[|head| - 1] != SLASH
    ensures Dirname(head + [SLASH] + file) == head
  {
    var p := head + [SLASH] + file;
    LastSlashAfter(head, file);
    assert p[..|head| + 1] == head + [SLASH];
    assert (head + [SLASH])[..|head|] == head;
    assert StripSlashes(head) == head;
  }

  lemma PageDirname(dirs: seq<string>, file: string)
    requires IsPage(dirs, file)
    ensures Dirname(PageUri(dirs, file)) == JoinSlash(dirs)
  {
    if dirs == [] {
      assert dirs + [file] == [file];
      NoLastSlash(file);
    } else {
      JoinSnoc(dirs, file);
      PlainJoin(dirs);
      DirnameBelow(JoinSlash(dirs), file);
    }
  }

  /** A path joined to a plain directory has the directory's components, then its own. */
  lemma JoinedComponents(dirs: seq<string>, path: string)
    requires (forall d | d in dirs :: Plain(d)) && path != "" && path[0] != SLASH
    ensures var joined := Join(JoinSlash(dirs), path);
            joined != "" && joined[0] != SLASH && Split(joined) == dirs + Split(path)
  {
    if dirs == [] {
      assert dirs + Split(path) == Split(path);
      assert "" + path == path;
    } else {
      PlainJoin(dirs);
      SplitOfJoin(dirs);
      JoinedBelow(JoinSlash(dirs), path);
    }
  }

  lemma JoinedBelow(dir: string, path: string)
    requires dir != "" && dir[|dir| - 1] != SLASH && path != "" && path[0] != SLASH
    ensures Join(dir, path) == dir + [SLASH] + path && Split(Join(dir, path)) == Split(dir) + Split(path)
  {
    hide Split;
    SplitAtSlash(dir, path);
  }

  lemma RelativeNormPath(dirs: seq<string>, path: string)
    requires (forall d | d in dirs :: Plain(d)) && path != "" && path[0] != SLASH
    ensures var w := Walk(dirs + Split(path)); var cs := Ups(w.ups) + w.names;
            NormPath(Join(JoinSlash(dirs), path)) == if cs == [] then "." else JoinSlash(cs)
    ensures forall c | c in Walk(dirs + Split(path)).names :: Plain(c)
  {
    hide Split, Walk, Fold, Join;
    JoinedComponents(dirs, path);
    SplitHasNoSlash(path);
    var all := dirs + Split(path);
    RelativeFold(all);
    WalkNamesArePlain(all);
    var w := Walk(all);
    var cs := Ups(w.ups) + w.names;
    assert Slashes(Join(JoinSlash(dirs), path)) == "";
    assert "" + JoinSlash(cs) == JoinSlash(cs);
    if cs != [] {
      JoinNotEmpty(cs);
    }
  }

  lemma JoinNotEmpty(cs: seq<string>)
    requires cs != [] && forall c | c in cs :: c != ""
    ensures JoinSlash(cs) != ""
  {
    assert cs[0] in cs;
  }

  /** A join begins with "../" exactly when its first component is ".." and another follows. */
  lemma JoinStartsWithUp(cs: seq<string>)
    requires cs != [] && forall c | c in cs :: NoSlash(c)
    ensures StartsWith(JoinSlash(cs), "../") <==> |cs| > 1 && cs[0] == ".."
    ensures StartsWith(JoinSlash(cs), "../") ==> JoinSlash(cs)[3..] == JoinSlash(cs[1..])
  {
    assert cs[0] in cs;
    if |cs| > 1 {
      assert JoinSlash(cs) == cs[0] + [SLASH] + JoinSlash(cs[1..]);
      UpFirst(cs[0], JoinSlash(cs[1..]));
    } else {
      UpNeedsSlash(cs[0]);
    }
  }

  lemma UpFirst(c: string, rest: string)
    requires NoSlash(c)
    ensures StartsWith(c + [SLASH] + rest, "../") <==> c == ".."
    ensures StartsWith(c + [SLASH] + rest, "../") ==> (c + [SLASH] + rest)[3..] == rest
  {
    var s := c + [SLASH] + rest;
    assert forall i | 0 <= i < |c| :: c[i] in c && s[i] != SLASH;
    assert s[|c|] == SLASH;
    if StartsWith(s, "../") {
      assert s[0] == s[..3][0] && s[1] == s[..3][1] && s[2] == s[..3][2];
      assert c == s[..2];
    }
  }

  lemma UpNeedsSlash(c: string)
    requires NoSlash(c)
    ensures !StartsWith(c, "../")
  {
    if |c| >= 3 {
      assert c[..3][2] == c[2] && c[2] in c;
    }
  }

  /** Every outcome of the hook, by how far the link climbs out of docs/ and what it names there.
      Climbing one level to a named file is rewritten and two or more is refused, but a bare climb
      is not: ".." itself is left as it is, and "../.." becomes a link to "..". */
  lemma RewriteOutcomes(dirs: seq<string>, file: string, target: string)
    requires IsPage(dirs, file) && !Skipped(target)
    ensures var w := LinkClimb(dirs, target); var frag := AtHash(target).1;
            Rewrite(PageUri(dirs, file), target) ==
              if w.ups == 0 || (w.ups == 1 && w.names == []) then Link(target)
              else if w.ups == 1 then Link(WithFragment(BlobBase() + JoinSlash(w.names), frag))
              else if w.ups == 2 && w.names == [] then Link(WithFragment(BlobBase() + "..", frag))
              else Outside
  {
    hide BlobBase, Walk, Split, NormPath, Dirname, Join, JoinSlash, Contains;
    var path := AtHash(target).0;
    var w := LinkClimb(dirs, target);
    PathStartsAsTarget(target);
    PageDirname(dirs, file);
    RelativeNormPath(dirs, path);
    var cs := Ups(w.ups) + w.names;
    if cs == [] {
      assert !StartsWith(".", "../");
    } else {
      JoinStartsWithUp(cs);
      if w.ups == 0 {
        assert cs[0] in w.names;
      } else if |cs| > 1 {
        assert cs[1..] == Ups(w.ups - 1) + w.names;
        JoinStartsWithUp(cs[1..]);
        if w.ups == 1 {
          assert cs[1..] == w.names && w.names[0] in w.names;
        } else if w.ups == 2 && w.names == [] {
          assert cs[1..] == [".."];
          JoinOne("..");
        }
      }
    }
  }

  lemma JoinOne(c: string)
    ensures JoinSlash([c]) == c
  {
  }

  lemma PathStartsAsTarget(target: string)
    requires !Skipped(target)
    ensures AtHash(target).0 != "" && AtHash(target).0[0] != SLASH
  {
  }

  /** A second pass changes nothing: rewritten links are absolute, kept ones are kept again. */
  lemma RewriteIsIdempotent(src: string, target: string)
    requires Rewrite(src, target).Link?
    ensures Rewrite(src, Rewrite(src, target).target) == Rewrite(src, target)
  {
    if Rewrite(src, target).target != target {
      RewrittenIsAbsolute(src, target);
      BaseIsSkipped(Rewrite(src, target).target);
    }
  }

  lemma RewrittenIsAbsolute(src: string, target: string)
    requires Rewrite(src, target).Link? && Rewrite(src, target).target != target
    ensures StartsWith(Rewrite(src, target).target, BlobBase())
  {
    hide BlobBase, NormPath, Contains, Dirname;
    var (path, frag) := AtHash(target);
    var escaped := NormPath(Join(Dirname(src), path))[3..];
    assert Rewrite(src, target).target == BlobBase() + WithFragment(escaped, frag);
  }

  lemma BaseIsSkipped(out: string)
    requires StartsWith(out, BlobBase())
    ensures Skipped(out)
  {
    SchemeInBase();
    hide BlobBase, Contains;
    assert out[5..][..3] == out[..|BlobBase()|][5..][..3];
    ContainsAt(out, "://", 5);
  }

  lemma SchemeInBase()
    ensures |BlobBase()| > 8 && BlobBase()[5..][..3] == "://"
  {
    assert |MainBranch()| > 0;
    hide MainBranch;
    assert BlobBase()[5..] == "://" + MainBranch();
  }

  lemma {:induction false} ContainsAt(s: string, sub: string, i: nat)
    requires i <= |s| && StartsWith(s[i..], sub)
    ensures Contains(s, sub)
  {
    if i > 0 {
      assert s[1..][i - 1..] == s[i..];
      ContainsAt(s[1..], sub, i - 1);
    } else {
      assert s[0..] == s;
    }
  }

  // ---- Fragments, and what is no path -------------------------------------------------------------------

  lemma {:induction false} ContainsIff(s: string, sub: string)
    ensures Contains(s, sub) <==> exists i :: 0 <= i <= |s| && StartsWith(s[i..], sub)
  {
    assert s[0..] == s;
    if !StartsWith(s, sub) && s != "" {
      ContainsIff(s[1..], sub);
      if i :| 0 <= i <= |s| && StartsWith(s[i..], sub) {
        assert s[1..][i - 1..] == s[i..];
      }
      if i :| 0 <= i <= |s[1..]| && StartsWith(s[1..][i..], sub) {
        assert s[i + 1..] == s[1..][i..];
      }
    }
  }

  /** What the hook leaves alone unseen: a URL with a scheme, a link within the page, an absolute path,
      a mail address, and nothing at all. */
  lemma SkippedIff(target: string)
    ensures Skipped(target) <==>
      || (exists i :: 0 <= i <= |target| && StartsWith(target[i..], "://"))
      || target == "" || target[0] == '#' || target[0] == '/' || StartsWith(target, "mailto:")
  {
    ContainsIff(target, "://");
    hide Contains;
    if target != "" {
      assert target[..1] == [target[0]];
    }
  }

  lemma {:induction false} SchemeAcrossHash(path: string, frag: string)
    requires '#' !in path
    ensures Contains(path + "#" + frag, "://") <==> Contains(path, "://") || Contains(frag, "://")
  {
    var s := path + "#" + frag;
    if path == "" {
      assert s[1..] == frag;
      assert s[0] == '#';
      assert |s| >= 3 ==> s[..3][0] == '#';
    } else {
      assert path[0] in path && forall c | c in path[1..] :: c in path;
      assert s[1..] == path[1..] + "#" + frag;
      SchemeAcrossHash(path[1..], frag);
      StartsInPath(path, frag, "://");
    }
  }

  /** What stands in front of a fragment decides how the link starts. */
  lemma StartsInPath(path: string, frag: string, p: string)
    requires '#' !in p
    ensures StartsWith(path + "#" + frag, p) <==> StartsWith(path, p)
  {
    var s := path + "#" + frag;
    assert forall i | 0 <= i < |path| :: s[i] == path[i];
    assert s[|path|] == '#';
    if |path| >= |p| {
      assert s[..|p|] == path[..|p|];
    } else {
      assert p[|path|] in p;
      assert s[|path|] != p[|path|];
    }
  }

  /** A fragment rides along: a link to `path#frag` becomes what the link to `path` becomes, with the
      fragment after it; only a fragment that holds "://" keeps the whole from being read. */
  lemma FragmentRidesAlong(src: string, path: string, frag: string)
    requires '#' !in path && !Skipped(path)
    ensures Contains(frag, "://") ==> Rewrite(src, path + "#" + frag) == Link(path + "#" + frag)
    ensures !Contains(frag, "://") ==>
      Rewrite(src, path + "#" + frag) ==
        match Rewrite(src, path)
        case Outside => Outside
        case Link(url) =>
          if url == path then Link(path + "#" + frag) else if frag == "" then Link(url) else Link(url + "#" + frag)
  {
    var target := path + "#" + frag;
    AtHashOfPath(path, frag);
    SchemeAcrossHash(path, frag);
    SameStart(path, frag);
    if Rewrite(src, path).Link? && Rewrite(src, path).target != path {
      RewrittenIsAbsolute(src, path);
    }
    RewrittenIsNoPath(src, path);
    hide Contains, NormPath, Dirname, Join, BlobBase;
  }

  lemma SameStart(path: string, frag: string)
    requires path != ""
    ensures StartsWith(path + "#" + frag, "#") <==> StartsWith(path, "#")
    ensures StartsWith(path + "#" + frag, "/") <==> StartsWith(path, "/")
    ensures StartsWith(path + "#" + frag, "mailto:") <==> StartsWith(path, "mailto:")
  {
    assert (path + "#" + frag)[..1] == path[..1];
    StartsInPath(path, frag, "mailto:");
  }

  /** What a path is rewritten to is not that path. */
  lemma RewrittenIsNoPath(src: string, path: string)
    requires !Skipped(path)
    ensures var resolved := NormPath(Join(Dirname(src), AtHash(path).0));
            StartsWith(resolved, "../") && !StartsWith(resolved[3..], "../") ==>
              WithFragment(BlobBase() + resolved[3..], AtHash(path).1) != path
  {
    var resolved := NormPath(Join(Dirname(src), AtHash(path).0));
    if StartsWith(resolved, "../") {
      var url := WithFragment(BlobBase() + resolved[3..], AtHash(path).1);
      hide BlobBase, Skipped, NormPath, AtHash;
      assert StartsWith(url, BlobBase());
      BaseIsSkipped(url);
    }
  }

  // ---- The checkers -------------------------------------------------------------------------------------

  /** An absolute directory at plain components, as os.path.abspath spells it. */
  function Absolute(repo: seq<string>): string {
    "/" + JoinSlash(repo)
  }

  function PageFile(repo: seq<string>, dirs: seq<string>, file: string): string {
    Absolute(repo + ["docs"] + dirs + [file])
  }

  /** Lines 127-130 of the source checker: the file a relative link means. */
  function SourceTarget(page: string, target: string): string {
    var path := AtHash(target).0;
    if path == "" then page else NormPath(Join(Dirname(page), path))
  }

  /** Lines 220-222 of the site checker: the file a published repository URL means. */
  function SiteTarget(repo: seq<string>, href: string): Option<string> {
    if StartsWith(href, BlobBase()) then Some(Join(Absolute(repo), AtHash(href[|BlobBase()|..]).0)) else None
  }

  lemma AbsoluteJoinedComponents(base: seq<string>, path: string)
    requires base != [] && (forall b | b in base :: Plain(b)) && path != "" && path[0] != SLASH
    ensures var joined := Join(Absolute(base), path);
            Slashes(joined) == "/" && Split(joined) == [""] + base + Split(path)
  {
    hide JoinSlash, Split, Slashes;
    PlainJoin(base);
    var below := JoinSlash(base);
    var a := Absolute(base);
    var joined := Join(a, path);
    assert a == [] + [SLASH] + below && a[|a| - 1] == below[|below| - 1];
    assert joined == a + [SLASH] + path;
    SplitAtSlash(a, path);
    SplitAtSlash([], below);
    SplitWithoutSlash([]);
    SplitOfJoin(base);
    OneLeadingSlash(joined);
  }

  lemma OneLeadingSlash(s: string)
    requires |s| > 1 && s[0] == SLASH && s[1] != SLASH
    ensures Slashes(s) == "/"
  {
    assert s[..1] == "/";
    assert s[..2][1] == s[1];
  }

  /** Where the source checker looks for a relative link: up the directory and down the names. */
  lemma SourceTargetIs(repo: seq<string>, dirs: seq<string>, file: string, target: string)
    requires repo != [] && (forall r | r in repo :: Plain(r)) && IsPage(dirs, file) && !Skipped(target)
    ensures var w := LinkClimb(dirs, target);
            SourceTarget(PageFile(repo, dirs, file), target)
            == Absolute(Back(repo + ["docs"], w.ups) + w.names)
  {
    hide Split, Walk, Fold, JoinSlash, Dirname, Contains;
    var path := AtHash(target).0;
    var docs := repo + ["docs"];
    var base := docs + dirs;
    PathStartsAsTarget(target);
    assert repo + ["docs"] + dirs + [file] == base + [file];
    PlainJoin(base);
    JoinSnoc(base, file);
    assert "/" + (JoinSlash(base) + [SLASH] + file) == Absolute(base) + [SLASH] + file;
    DirnameBelow(Absolute(base), file);
    AbsoluteJoinedComponents(base, path);
    SplitHasNoSlash(path);
    var comps := dirs + Split(path);
    AbsoluteFold(docs, comps);
    assert [""] + base + Split(path) == [""] + (docs + comps);
    FoldSkipsEmpty(docs + comps);
  }

  lemma {:induction false} FoldSkipsEmpty(cs: seq<string>)
    ensures Fold(true, [""] + cs) == Fold(true, cs)
    decreases |cs|
  {
    if cs == [] {
      assert [""] + cs == [""] && [""][..0] == [];
    } else {
      assert ([""] + cs)[..|cs|] == [""] + cs[..|cs| - 1];
      FoldSkipsEmpty(cs[..|cs| - 1]);
    }
  }

  lemma {:induction false} HashFreeJoin(cs: seq<string>)
    requires forall c | c in cs :: '#' !in c
    ensures '#' !in JoinSlash(cs)
  {
    if cs != [] {
      assert cs[0] in cs && forall c | c in cs[1..] :: c in cs;
      HashFreeJoin(cs[1..]);
    }
  }

  lemma {:induction false} AtHashOfPath(path: string, frag: string)
    requires '#' !in path
    ensures AtHash(path) == (path, "") && AtHash(path + "#" + frag) == (path, frag)
  {
    var s := path + "#" + frag;
    if path == "" {
      assert s[1..] == frag;
    } else {
      assert path[0] in path && s[0] == path[0] && s[1..] == path[1..] + "#" + frag;
      assert forall c | c in path[1..] :: c in path;
      AtHashOfPath(path[1..], frag);
      assert path == [path[0]] + path[1..];
    }
  }

  /** The three tools agree: a link one level out of docs/ to a named file becomes a repository URL,
      and the file the site checker reads back from that URL is the file the source checker resolved
      the link to on disk. */
  lemma HookAndCheckersAgree(repo: seq<string>, dirs: seq<string>, file: string, target: string)
    requires repo != [] && (forall r | r in repo :: Plain(r)) && IsPage(dirs, file) && !Skipped(target)
    requires LinkClimb(dirs, target).ups == 1 && LinkClimb(dirs, target).names != []
    ensures var out := Rewrite(PageUri(dirs, file), target);
            && out == Link(WithFragment(BlobBase() + JoinSlash(LinkClimb(dirs, target).names), AtHash(target).1))
            && SiteTarget(repo, out.target) == Some(SourceTarget(PageFile(repo, dirs, file), target))
  {
    hide BlobBase, Walk, NormPath, Dirname, Split, Rewrite, SiteTarget, SourceTarget, Skipped, Absolute;
    var w, path := LinkClimb(dirs, target), AtHash(target).0;
    RewriteOutcomes(dirs, file, target);
    SourceTargetIs(repo, dirs, file, target);
    NamesAfterClimb(dirs, Split(path));
    SplitHasNoSlash(path);
    WalkNamesArePlain(dirs + Split(path));
    assert Back(repo + ["docs"], 1) == repo;
    UrlReadsBack(repo, w.names, AtHash(target).1);
  }

  /** The site checker finds the named file below the repository, fragment or not. */
  lemma UrlReadsBack(repo: seq<string>, names: seq<string>, frag: string)
    requires repo != [] && (forall r | r in repo :: Plain(r))
    requires names != [] && forall n | n in names :: Plain(n) && '#' !in n
    ensures SiteTarget(repo, WithFragment(BlobBase() + JoinSlash(names), frag)) == Some(Absolute(repo + names))
  {
    hide BlobBase, JoinSlash, AtHash;
    var escaped := JoinSlash(names);
    HashFreeJoin(names);
    AtHashOfPath(escaped, frag);
    PlainJoin(repo);
    PlainJoin(names);
    JoinConcat(repo, names);
    var url := WithFragment(BlobBase() + escaped, frag);
    assert url[|BlobBase()|..] == if frag != "" then escaped + "#" + frag else escaped;
    assert "/" + (JoinSlash(repo) + [SLASH] + escaped) == Absolute(repo) + "/" + escaped;
  }

  /** From a page at the top of docs/ the two bare climbs slip through: ".." stays relative although
      it leaves docs/, and "../.." becomes a URL instead of an error although it leaves the repository. */
  lemma BareClimbsSlipThrough(file: string)
    requires Plain(file)
    ensures Rewrite(PageUri([], file), "..") == Link("..")
    ensures Rewrite(PageUri([], file), "../..") == Link(BlobBase() + "..")
    ensures Rewrite(PageUri([], file), "../../x") == Outside
  {
    hide BlobBase, Rewrite;
    TwoDots();
    RewriteOutcomes([], file, "..");
    RewriteOutcomes([], file, "../..");
    RewriteOutcomes([], file, "../../x");
  }

  lemma TwoDots()
    ensures !Skipped("..") && LinkClimb([], "..") == Climb(1, []) && AtHash("..").1 == ""
    ensures !Skipped("../..") && LinkClimb([], "../..") == Climb(2, []) && AtHash("../..").1 == ""
    ensures !Skipped("../../x") && LinkClimb([], "../../x") == Climb(2, ["x"]) && AtHash("../../x").1 == ""
  {
    hide Skipped, AtHash, Split, Walk, LinkClimb;
    ClimbOf("..");
    ClimbOf("../..");
    ClimbOf("../../x");
    SplitUps();
    WalkUps();
  }

  lemma SplitUps()
    ensures Split("..") == [".."] && Split("../..") == ["..", ".."] && Split("../../x") == ["..", "..", "x"]
  {
    hide Split;
    SplitWithoutSlash("..");
    SplitWithoutSlash("x");
    assert "../.." == ".." + [SLASH] + ".." && "../../x" == "../.." + [SLASH] + "x";
    SplitAtSlash("..", "..");
    SplitAtSlash("../..", "x");
  }

  lemma WalkUps()
    ensures Walk([".."]) == Climb(1, []) && Walk(["..", ".."]) == Climb(2, [])
    ensures Walk(["..", "..", "x"]) == Climb(2, ["x"])
  {
    assert ["..", "..", "x"][..2] == ["..", ".."] && ["..", ".."][..1] == [".."] && [".."][..0] == [];
  }

  /** A plain relative target without fragment is one path, split at its slashes. */
  lemma ClimbOf(s: string)
    requires s != "" && '#' !in s && ':' !in s && s[0] != SLASH && s[0] != '#'
    ensures !Skipped(s) && AtHash(s) == (s, "") && LinkClimb([], s) == Walk(Split(s))
  {
    NoHash(s);
    NoColons(s);
    hide Contains, AtHash, Split, Walk;
    NotMailto(s);
    assert !StartsWith(s, "#") && !StartsWith(s, "/");
    assert [] + Split(s) == Split(s);
  }

  lemma NotMailto(s: string)
    requires ':' !in s
    ensures !StartsWith(s, "mailto:")
  {
    assert "mailto:"[6] == ':' && forall i | 0 <= i < |s| :: s[i] in s;
  }

  lemma NoHash(s: string)
    requires '#' !in s
    ensures AtHash(s) == (s, "")
  {
    AtHashOfPath(s, "");
  }

  lemma {:induction false} NoColons(s: string)
    requires ':' !in s
    ensures !Contains(s, "://")
  {
    if s != "" {
      assert forall c | c in s[1..] :: c in s;
      NoColons(s[1..]);
      assert s[0] in s;
    }
  }
}
