/** The parts of Python's posixpath the documentation tools use, on plain strings. */
module PosixPaths {

  const SLASH := '/'

  /** s.split("/"): always at least one component. */
  function Split(s: string): (cs: seq<string>)
    ensures |cs| > 0
  {
    if s == [] then [[]]
    else
      var rest := Split(s[1..]);
      if s[0] == SLASH then [[]] + rest else Push(s[0], rest)
  }

  function Push(c: char, cs: seq<string>): (r: seq<string>)
    requires |cs| > 0
  {
    [[c] + cs[0]] + cs[1..]
  }

  /** "/".join(cs) */
  function JoinSlash(cs: seq<string>): string {
    if cs == [] then [] else if |cs| == 1 then cs[0] else cs[0] + [SLASH] + JoinSlash(cs[1..])
  }

  predicate NoSlash(c: string) {
    SLASH !in c
  }

  /** A component that names something: not empty, not "." and not "..". */
  predicate Plain(c: string) {
    NoSlash(c) && c != "" && c != "." && c != ".."
  }

  lemma PushConcat(c: char, a: seq<string>, b: seq<string>)
    requires |a| > 0
    ensures Push(c, a + b) == Push(c, a) + b && [[]] + (a + b) == [[]] + a + b
  {
    assert (a + b)[1..] == a[1..] + b;
  }

  lemma {:induction false} SplitAtSlash(a: string, b: string)
    ensures Split(a + [SLASH] + b) == Split(a) + Split(b)
  {
    var s := a + [SLASH] + b;
    if a == [] {
      assert s[1..] == b;
    } else {
      assert s[0] == a[0] && s[1..] == a[1..] + [SLASH] + b;
      SplitAtSlash(a[1..], b);
      PushConcat(a[0], Split(a[1..]), Split(b));
    }
  }

  lemma {:induction false} SplitWithoutSlash(c: string)
    requires NoSlash(c)
    ensures Split(c) == [c]
  {
    if c != [] {
      assert c[0] in c;
      SplitWithoutSlash(c[1..]);
      assert c == [c[0]] + c[1..] && [c[1..]][1..] == [];
    }
  }

  /** Splitting undoes joining. */
  lemma {:induction false} SplitOfJoin(cs: seq<string>)
    requires cs != [] && forall c | c in cs :: NoSlash(c)
    ensures Split(JoinSlash(cs)) == cs
  {
    assert cs[0] in cs;
    SplitWithoutSlash(cs[0]);
    if |cs| > 1 {
      assert forall c | c in cs[1..] :: c in cs;
      SplitOfJoin(cs[1..]);
      SplitAtSlash(cs[0], JoinSlash(cs[1..]));
    } else {
      assert cs == [cs[0]];
    }
  }

  lemma {:induction false} SplitHasNoSlash(s: string)
    ensures forall c | c in Split(s) :: NoSlash(c)
    ensures forall c, x | c in Split(s) && x in c :: x in s
  {
    if s != [] {
      SplitHasNoSlash(s[1..]);
      var rest := Split(s[1..]);
      assert rest == [rest[0]] + rest[1..] && rest[0] in rest && s == [s[0]] + s[1..];
    }
  }

  lemma {:induction false} JoinSnoc(cs: seq<string>, c: string)
    requires cs != []
    ensures JoinSlash(cs + [c]) == JoinSlash(cs) + [SLASH] + c
  {
    if |cs| == 1 {
      assert (cs + [c])[1..] == [c];
    } else {
      assert (cs + [c])[1..] == cs[1..] + [c];
      JoinSnoc(cs[1..], c);
    }
  }

  lemma {:induction false} JoinConcat(a: seq<string>, b: seq<string>)
    requires a != [] && b != []
    ensures JoinSlash(a + b) == JoinSlash(a) + [SLASH] + JoinSlash(b)
  {
    if |a| == 1 {
      assert (a + b)[1..] == b;
    } else {
      assert (a + b)[1..] == a[1..] + b;
      JoinConcat(a[1..], b);
    }
  }

  predicate StartsWith(s: string, p: string) {
    |p| <= |s| && s[..|p|] == p
  }

  // ---- join, dirname, normpath ------------------------------------------------------------------------

  function Join(a: string, b: string): string {
    if StartsWith(b, "/") then b
    else if a == "" || a[|a| - 1] == SLASH then a + b
    else a + "/" + b
  }

  function LastSlash(s: string): (n: nat)
    ensures n <= |s|
  {
    if s == "" then 0 else if s[|s| - 1] == SLASH then |s| else LastSlash(s[..|s| - 1])
  }

  function StripSlashes(s: string): string {
    if s != "" && s[|s| - 1] == SLASH then StripSlashes(s[..|s| - 1]) else s
  }

  function Dirname(p: string): string {
    var head := p[..LastSlash(p)];
    if StripSlashes(head) == "" then head else StripSlashes(head)
  }

  /** One turn of normpath's loop; `rooted` is whether the path began with a slash. */
  function Step(rooted: bool, stack: seq<string>, c: string): seq<string> {
    if c == "" || c == "." then stack
    else if c != ".." || (!rooted && stack == []) || (stack != [] && stack[|stack| - 1] == "..") then stack + [c]
    else if stack != [] then stack[..|stack| - 1]
    else stack
  }

  function Fold(rooted: bool, cs: seq<string>): seq<string> {
    if cs == [] then [] else Step(rooted, Fold(rooted, cs[..|cs| - 1]), cs[|cs| - 1])
  }

  function Slashes(path: string): string {
    if StartsWith(path, "//") && !StartsWith(path, "///") then "//" else if StartsWith(path, "/") then "/" else ""
  }

  function NormPath(path: string): string {
    if path == "" then "."
    else
      var r := Slashes(path) + JoinSlash(Fold(Slashes(path) != "", Split(path)));
      if r == "" then "." else r
  }

  // ---- What normalising a relative path means -----------------------------------------------------------

  /** How far a relative path climbs, and what it names from there. */
  datatype Climb = Climb(ups: nat, names: seq<string>)

  function Walk(cs: seq<string>): Climb {
    if cs == [] then Climb(0, [])
    else Further(Walk(cs[..|cs| - 1]), cs[|cs| - 1])
  }

  function Further(w: Climb, c: string): Climb {
    if c == "" || c == "." then w
    else if c != ".." then w.(names := w.names + [c])
    else if w.names != [] then w.(names := w.names[..|w.names| - 1])
    else w.(ups := w.ups + 1)
  }

  function Ups(n: nat): seq<string> {
    seq(n, _ => "..")
  }

  lemma {:induction false} WalkNamesArePlain(cs: seq<string>)
    requires forall c | c in cs :: NoSlash(c)
    ensures forall c | c in Walk(cs).names :: Plain(c)
    decreases |cs|
  {
    if cs != [] {
      assert cs[|cs| - 1] in cs;
      WalkNamesArePlain(cs[..|cs| - 1]);
    }
  }

  lemma {:induction false} RelativeFold(cs: seq<string>)
    requires forall c | c in cs :: NoSlash(c)
    ensures Fold(false, cs) == Ups(Walk(cs).ups) + Walk(cs).names
    decreases |cs|
  {
    if cs != [] {
      var front, c := cs[..|cs| - 1], cs[|cs| - 1];
      RelativeFold(front);
      WalkNamesArePlain(front);
      RelativeStep(Walk(front), c);
    }
  }

  lemma RelativeStep(w: Climb, c: string)
    requires forall n | n in w.names :: Plain(n)
    ensures Step(false, Ups(w.ups) + w.names, c) == Ups(Further(w, c).ups) + Further(w, c).names
  {
    if w.names != [] {
      assert w.names[|w.names| - 1] in w.names;
    } else {
      assert Ups(w.ups) + [".."] == Ups(w.ups + 1) && Ups(w.ups) + [] == Ups(w.ups);
    }
  }

  function Back(base: seq<string>, n: nat): seq<string> {
    if n <= |base| then base[..|base| - n] else []
  }

  lemma AbsoluteStep(base: seq<string>, w: Climb, c: string)
    requires (forall b | b in base :: Plain(b)) && forall n | n in w.names :: Plain(n)
    ensures Step(true, Back(base, w.ups) + w.names, c) == Back(base, Further(w, c).ups) + Further(w, c).names
  {
    var stack := Back(base, w.ups) + w.names;
    if stack != [] {
      var last := stack[|stack| - 1];
      assert last in base || last in w.names;
    }
    if w.names == [] {
      assert stack == Back(base, w.ups);
    } else {
      assert stack[..|stack| - 1] == Back(base, w.ups) + w.names[..|w.names| - 1];
    }
  }

  /** From an absolute directory the same path climbs that far up the directory, and no further
      than the root. */
  lemma {:induction false} AbsoluteFold(base: seq<string>, cs: seq<string>)
    requires (forall b | b in base :: Plain(b)) && forall c | c in cs :: NoSlash(c)
    ensures Fold(true, base + cs) == Back(base, Walk(cs).ups) + Walk(cs).names
    decreases |cs|
  {
    if cs == [] {
      assert base + cs == base;
      PlainFold(true, base);
    } else {
      var front, c := cs[..|cs| - 1], cs[|cs| - 1];
      assert (base + cs)[..|base + cs| - 1] == base + front;
      AbsoluteFold(base, front);
      WalkNamesArePlain(front);
      AbsoluteStep(base, Walk(front), c);
    }
  }

  lemma {:induction false} PlainFold(rooted: bool, cs: seq<string>)
    requires forall c | c in cs :: Plain(c)
    ensures Fold(rooted, cs) == cs && Walk(cs) == Climb(0, cs)
    decreases |cs|
  {
    if cs != [] {
      assert cs[|cs| - 1] in cs;
      PlainFold(rooted, cs[..|cs| - 1]);
    }
  }

  /** Once a path has climbed out of a plain directory, all it names it names itself. */
  lemma {:induction false} NamesAfterClimb(dirs: seq<string>, ps: seq<string>)
    requires forall d | d in dirs :: Plain(d)
    ensures Walk(dirs + ps).ups > 0 ==> forall c | c in Walk(dirs + ps).names :: c in ps
    decreases |ps|
  {
    if ps == [] {
      assert dirs + ps == dirs;
      PlainFold(false, dirs);
    } else {
      assert (dirs + ps)[..|dirs + ps| - 1] == dirs + ps[..|ps| - 1];
      NamesAfterClimb(dirs, ps[..|ps| - 1]);
    }
  }
}
