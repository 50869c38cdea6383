/** `slugify` of api/v1alpha1/inline_children.go: a one-pass byte loop, proved to lowercase, split at
    everything that is not a letter or digit, drop what is empty and join with dashes. */
module Slugs {
  import opened Utf8

  const DASH := 45

  /** ASCII-only lowercasing. */
  function Lower(c: int): int {
    if 65 <= c <= 90 then c + 32 else c
  }

  /** A lowercase ASCII letter or a digit. */
  predicate IsWordChar(c: int) {
    97 <= c <= 122 || 48 <= c <= 57
  }

  // ---- The specification --------------------------------------------------------------------------

  /** s lowercased and cut at every character that is no letter or digit. */
  function Pieces(s: seq<int>): (ps: seq<seq<int>>)
    ensures |ps| > 0
  {
    if s == [] then [[]]
    else
      var rest := Pieces(s[1..]);
      if IsWordChar(Lower(s[0])) then Push(Lower(s[0]), rest) else [[]] + rest
  }

  /** One more character in front of the first piece. */
  function Push(c: int, ps: seq<seq<int>>): (r: seq<seq<int>>)
    requires |ps| > 0
  {
    [[c] + ps[0]] + ps[1..]
  }

  /** One more character behind the last piece. */
  function Extend(ps: seq<seq<int>>, c: int): seq<seq<int>>
    requires |ps| > 0
  {
    ps[..|ps| - 1] + [ps[|ps| - 1] + [c]]
  }

  function NonEmpty(ps: seq<seq<int>>): seq<seq<int>> {
    if ps == [] then [] else (if ps[0] == [] then [] else [ps[0]]) + NonEmpty(ps[1..])
  }

  function Join(ws: seq<seq<int>>): seq<int> {
    if ws == [] then []
    else if |ws| == 1 then ws[0]
    else Join(ws[..|ws| - 1]) + [DASH] + ws[|ws| - 1]
  }

  function Words(s: seq<int>): seq<seq<int>> {
    NonEmpty(Pieces(s))
  }

  function Slug(s: seq<int>): seq<int> {
    Join(Words(s))
  }

  // ---- Laws of the parts --------------------------------------------------------------------------

  lemma {:induction false} NonEmptyAppend(a: seq<seq<int>>, b: seq<seq<int>>)
    ensures NonEmpty(a + b) == NonEmpty(a) + NonEmpty(b)
  {
    if a == [] {
      assert a + b == b;
    } else {
      assert (a + b)[1..] == a[1..] + b;
      NonEmptyAppend(a[1..], b);
    }
  }

  /** Cutting at a separator separates the two sides. */
  lemma {:induction false} PiecesAtSeparator(a: seq<int>, c: int, b: seq<int>)
    requires !IsWordChar(Lower(c))
    ensures Pieces(a + [c] + b) == Pieces(a) + Pieces(b)
  {
    var all := a + [c] + b;
    if a == [] {
      assert all == [c] + b && all[1..] == b;
    } else {
      assert all[0] == a[0] && all[1..] == a[1..] + [c] + b;
      PiecesAtSeparator(a[1..], c, b);
    }
  }

  lemma PushThenExtend(l: int, ps: seq<seq<int>>, c: int)
    requires |ps| > 0
    ensures Push(l, Extend(ps, c)) == Extend(Push(l, ps), c)
    ensures [[]] + Extend(ps, c) == Extend([[]] + ps, c)
  {
    if |ps| == 1 {
      assert [l] + (ps[0] + [c]) == [l] + ps[0] + [c];
    }
  }

  /** A further letter or digit lengthens the last piece. */
  lemma {:induction false} PiecesAtWordChar(s: seq<int>, c: int)
    requires IsWordChar(Lower(c))
    ensures Pieces(s + [c]) == Extend(Pieces(s), Lower(c))
  {
    if s == [] {
      var l := Lower(c);
      assert (s + [c])[1..] == [] && Pieces([]) == [[]];
      var one: seq<seq<int>> := [[]];
      assert one[0] + [l] == [l] && [l] + one[0] == [l] && one[1..] == [] && one[..0] == [];
      assert Push(l, one) == [[l]] && Extend(one, l) == [[l]];
    } else {
      assert (s + [c])[1..] == s[1..] + [c];
      PiecesAtWordChar(s[1..], c);
      PushThenExtend(Lower(s[0]), Pieces(s[1..]), Lower(c));
    }
  }

  lemma WordsAtSeparator(a: seq<int>, c: int, b: seq<int>)
    requires !IsWordChar(Lower(c))
    ensures Words(a + [c] + b) == Words(a) + Words(b)
  {
    PiecesAtSeparator(a, c, b);
    NonEmptyAppend(Pieces(a), Pieces(b));
  }

  /** Non-empty runs of lowercase letters and digits: what Words always yields. */
  ghost predicate GoodWord(w: seq<int>) {
    w != [] && forall c | c in w :: IsWordChar(c)
  }

  ghost predicate GoodWords(ws: seq<seq<int>>) {
    forall w | w in ws :: GoodWord(w)
  }

  lemma {:induction false} PiecesAreWordChars(s: seq<int>)
    ensures forall p, c | p in Pieces(s) && c in p :: IsWordChar(c)
  {
    if s != [] {
      PiecesAreWordChars(s[1..]);
      var rest := Pieces(s[1..]);
      assert rest == [rest[0]] + rest[1..];
    }
  }

  lemma {:induction false} NonEmptyMeans(ps: seq<seq<int>>)
    ensures forall w :: w in NonEmpty(ps) <==> w in ps && w != []
    ensures (forall p | p in ps :: p != []) ==> NonEmpty(ps) == ps
  {
    if ps != [] {
      NonEmptyMeans(ps[1..]);
      assert ps == [ps[0]] + ps[1..] && ps[0] in ps && forall p | p in ps[1..] :: p in ps;
    }
  }

  lemma WordsAreGood(s: seq<int>)
    ensures GoodWords(Words(s))
  {
    PiecesAreWordChars(s);
    NonEmptyMeans(Pieces(s));
  }

  lemma {:induction false} JoinAppend(a: seq<seq<int>>, b: seq<seq<int>>)
    requires a != [] && b != []
    ensures Join(a + b) == Join(a) + [DASH] + Join(b)
    decreases |b|
  {
    var all := a + b;
    var front := b[..|b| - 1];
    assert all[..|all| - 1] == a + front;
    if front == [] {
      assert a + front == a;
    } else {
      JoinAppend(a, front);
    }
  }

  lemma {:induction false} GoodWordIsOnePiece(w: seq<int>)
    requires forall c | c in w :: IsWordChar(c)
    ensures Pieces(w) == [w]
  {
    if w != [] {
      assert w[0] in w && w == [w[0]] + w[1..];
      GoodWordIsOnePiece(w[1..]);
      assert Pieces(w) == [[w[0]] + w[1..]] + [w[1..]][1..];
    }
  }

  /** Splitting undoes joining. */
  lemma {:induction false} WordsOfJoin(ws: seq<seq<int>>)
    requires GoodWords(ws)
    ensures Words(Join(ws)) == ws
    decreases |ws|
  {
    if |ws| == 1 {
      assert ws[0] in ws;
      GoodWordIsOnePiece(ws[0]);
      assert ws == [ws[0]] && [ws[0]][1..] == [];
    } else if |ws| > 1 {
      var front, last := ws[..|ws| - 1], ws[|ws| - 1];
      assert last in ws && forall w | w in front :: w in ws;
      WordsOfJoin(front);
      WordsAtSeparator(Join(front), DASH, last);
      GoodWordIsOnePiece(last);
      assert NonEmpty([last]) == [last] + NonEmpty([last][1..]);
      assert ws == front + [last];
    } else {
      assert Pieces([]) == [[]] && NonEmpty([[]]) == NonEmpty([[]][1..]);
    }
  }

  // ---- What a slug looks like ---------------------------------------------------------------------

  /** Only lowercase letters, digits and dashes; no dash first, last or twice in a row. */
  ghost predicate WellFormed(s: seq<int>) {
    && (forall c | c in s :: IsWordChar(c) || c == DASH)
    && (s != [] ==> s[0] != DASH && s[|s| - 1] != DASH)
    && (forall i | 0 < i < |s| :: s[i - 1] != DASH || s[i] != DASH)
  }

  lemma {:induction false} JoinIsWellFormed(ws: seq<seq<int>>)
    requires GoodWords(ws)
    ensures WellFormed(Join(ws)) && (ws != [] ==> Join(ws) != [])
    decreases |ws|
  {
    if |ws| == 1 {
      assert ws[0] in ws;
      assert forall i | 0 <= i < |ws[0]| :: ws[0][i] in ws[0];
    } else if |ws| > 1 {
      var front, last := ws[..|ws| - 1], ws[|ws| - 1];
      assert last in ws && forall w | w in front :: w in ws;
      JoinIsWellFormed(front);
      assert forall i | 0 <= i < |last| :: last[i] in last;
    }
  }

  /** Joining undoes splitting on what is already only slug characters. */
  lemma {:induction false} JoinOfPieces(s: seq<int>)
    requires forall c | c in s :: IsWordChar(c) || c == DASH
    ensures Join(Pieces(s)) == s
    decreases |s|
  {
    if s != [] {
      var front, c := s[..|s| - 1], s[|s| - 1];
      assert s == front + [c] && c in s;
      JoinOfPieces(front);
      var ps := Pieces(front);
      if c == DASH {
        assert front + [c] + [] == s;
        PiecesAtSeparator(front, c, []);
        JoinAppend(ps, [[]]);
      } else {
        PiecesAtWordChar(front, c);
        var init, last := ps[..|ps| - 1], ps[|ps| - 1];
        assert ps == init + [last];
        if init != [] {
          JoinAppend(init, [last]);
          JoinAppend(init, [last + [c]]);
        }
      }
    }
  }

  lemma {:induction false} WellFormedHasNoEmptyPiece(s: seq<int>)
    requires s != [] ==> s[|s| - 1] != DASH
    requires forall c | c in s :: IsWordChar(c) || c == DASH
    requires forall i | 0 < i < |s| :: s[i - 1] != DASH || s[i] != DASH
    ensures forall p | p in Pieces(s)[1..] :: p != []
    ensures s != [] && s[0] != DASH ==> Pieces(s)[0] != []
  {
    if s != [] {
      var t := s[1..];
      assert s[0] in s && forall i | 0 < i < |t| :: t[i - 1] == s[i] && t[i] == s[i + 1];
      WellFormedHasNoEmptyPiece(t);
      var rest := Pieces(t);
      if s[0] == DASH {
        assert s[1] != DASH && t[0] == s[1];
        assert Pieces(s)[1..] == rest && rest == [rest[0]] + rest[1..];
      } else {
        assert Pieces(s)[1..] == rest[1..];
      }
    }
  }

  /** A text is a slug of something exactly when it is well formed, and then it is its own slug. */
  lemma FixedPointIffWellFormed(s: seq<int>)
    ensures WellFormed(Slug(s))
    ensures Slug(s) == s <==> WellFormed(s)
  {
    WordsAreGood(s);
    JoinIsWellFormed(Words(s));
    if WellFormed(s) {
      if s == [] {
        assert Pieces(s) == [[]] && NonEmpty([[]]) == NonEmpty([[]][1..]);
      } else {
        WellFormedHasNoEmptyPiece(s);
        var ps := Pieces(s);
        assert ps == [ps[0]] + ps[1..];
        NonEmptyMeans(ps);
        JoinOfPieces(s);
      }
    }
  }

  lemma SlugIdempotent(s: seq<int>)
    ensures Slug(Slug(s)) == Slug(s)
  {
    FixedPointIffWellFormed(s);
    FixedPointIffWellFormed(Slug(s));
  }

  /** Dash-joining two texts first and slugging the whole is slugging each and joining what is left. */
  lemma SlugOfJoined(a: seq<int>, b: seq<int>)
    ensures Slug(a + [DASH] + b) ==
      if Slug(a) == [] then Slug(b) else if Slug(b) == [] then Slug(a) else Slug(a) + [DASH] + Slug(b)
  {
    WordsAtSeparator(a, DASH, b);
    WordsAreGood(a);
    WordsAreGood(b);
    JoinIsWellFormed(Words(a));
    JoinIsWellFormed(Words(b));
    if Words(a) != [] && Words(b) != [] {
      JoinAppend(Words(a), Words(b));
    } else if Words(a) == [] {
      assert Words(a) + Words(b) == Words(b);
    } else {
      assert Words(a) + Words(b) == Words(a);
    }
  }

  /** Nothing of a text survives exactly when it holds no ASCII letter or digit. */
  lemma {:induction false} EmptySlugIff(s: seq<int>)
    ensures Slug(s) == [] <==> forall c | c in s :: !IsWordChar(Lower(c))
    ensures Slug(s) == [] <==> forall c | c in s :: !(48 <= c <= 57 || 65 <= c <= 90 || 97 <= c <= 122)
  {
    WordsAreGood(s);
    JoinIsWellFormed(Words(s));
    if s != [] {
      var t := s[1..];
      assert s == [s[0]] + t;
      EmptySlugIff(t);
      WordsAreGood(t);
      JoinIsWellFormed(Words(t));
      if IsWordChar(Lower(s[0])) {
        assert Pieces(s)[0] != [] && Pieces(s)[0] in Pieces(s);
        NonEmptyMeans(Pieces(s));
      } else {
        assert Pieces(s) == [[]] + Pieces(t);
        NonEmptyAppend([[]], Pieces(t));
        assert NonEmpty([[]]) == NonEmpty([[]][1..]);
      }
    } else {
      assert NonEmpty([[]]) == NonEmpty([[]][1..]);
    }
  }

  // ---- What a slug keeps --------------------------------------------------------------------------

  /** The ASCII letters and digits of a text in order, capitals as small letters. */
  function Kept(s: seq<int>): seq<int> {
    if s == [] then []
    else
      var c := s[0];
      (if 48 <= c <= 57 || 97 <= c <= 122 then [c] else if 65 <= c <= 90 then [c + 32] else []) + Kept(s[1..])
  }

  function Flat(ps: seq<seq<int>>): seq<int> {
    if ps == [] then [] else ps[0] + Flat(ps[1..])
  }

  lemma {:induction false} KeptConcat(a: seq<int>, b: seq<int>)
    ensures Kept(a + b) == Kept(a) + Kept(b)
  {
    if a == [] {
      assert a + b == b;
    } else {
      assert (a + b)[1..] == a[1..] + b;
      KeptConcat(a[1..], b);
    }
  }

  lemma {:induction false} FlatPieces(s: seq<int>)
    ensures Flat(Pieces(s)) == Kept(s)
  {
    if s == [] {
      assert Pieces(s)[1..] == [];
    } else {
      FlatPieces(s[1..]);
      var rest := Pieces(s[1..]);
      if IsWordChar(Lower(s[0])) {
        assert Push(Lower(s[0]), rest)[1..] == rest[1..];
      } else {
        assert ([[]] + rest)[1..] == rest;
      }
    }
  }

  lemma {:induction false} FlatNonEmpty(ps: seq<seq<int>>)
    ensures Flat(NonEmpty(ps)) == Flat(ps)
  {
    if ps != [] {
      FlatNonEmpty(ps[1..]);
      if ps[0] != [] {
        assert ([ps[0]] + NonEmpty(ps[1..]))[1..] == NonEmpty(ps[1..]);
      } else {
        assert [] + NonEmpty(ps[1..]) == NonEmpty(ps[1..]);
      }
    }
  }

  lemma {:induction false} GoodWordIsKept(w: seq<int>)
    requires forall c | c in w :: IsWordChar(c)
    ensures Kept(w) == w
  {
    if w != [] {
      assert w[0] in w && forall c | c in w[1..] :: c in w;
      GoodWordIsKept(w[1..]);
    }
  }

  lemma {:induction false} FlatConcat(a: seq<seq<int>>, b: seq<seq<int>>)
    ensures Flat(a + b) == Flat(a) + Flat(b)
  {
    if a == [] {
      assert a + b == b;
    } else {
      assert (a + b)[1..] == a[1..] + b;
      FlatConcat(a[1..], b);
    }
  }

  lemma {:induction false} KeptOfJoin(ws: seq<seq<int>>)
    requires GoodWords(ws)
    ensures Kept(Join(ws)) == Flat(ws)
    decreases |ws|
  {
    if ws != [] {
      var front, last := ws[..|ws| - 1], ws[|ws| - 1];
      assert ws == front + [last] && last in ws && forall w | w in front :: w in ws;
      GoodWordIsKept(last);
      FlatConcat(front, [last]);
      assert [last][1..] == [] && Flat([last]) == last;
      if front != [] {
        KeptOfJoin(front);
        KeptConcat(Join(front) + [DASH], last);
        KeptConcat(Join(front), [DASH]);
        assert [DASH][1..] == [] && Kept([DASH]) == [];
      } else {
        assert Flat(front) == [] && ws == [last];
      }
    }
  }

  /** A slug keeps every ASCII letter and digit of its text, in order and in lower case, and adds none. */
  lemma SlugKeepsLettersAndDigits(s: seq<int>)
    ensures Kept(Slug(s)) == Kept(s)
  {
    WordsAreGood(s);
    KeptOfJoin(Words(s));
    FlatNonEmpty(Pieces(s));
    FlatPieces(s);
  }

  /** The same text but for the case of its ASCII letters. */
  ghost predicate SameButCase(s: seq<int>, t: seq<int>) {
    |s| == |t| && forall i | 0 <= i < |s| ::
      s[i] == t[i] || (65 <= s[i] <= 90 && t[i] == s[i] + 32) || (65 <= t[i] <= 90 && s[i] == t[i] + 32)
  }

  lemma {:induction false} SamePiecesButCase(s: seq<int>, t: seq<int>)
    requires SameButCase(s, t)
    ensures Pieces(s) == Pieces(t)
  {
    if s != [] {
      SamePiecesButCase(s[1..], t[1..]);
      assert Lower(s[0]) == Lower(t[0]);
    }
  }

  /** `Eth0` and `eth0` have one slug, as have any two texts that differ in case alone. */
  lemma CaseIsLost(s: seq<int>, t: seq<int>)
    requires SameButCase(s, t)
    ensures Slug(s) == Slug(t)
    ensures Slug([69, 116, 104, 48]) == Slug([101, 116, 104, 48])
  {
    SamePiecesButCase(s, t);
    SamePiecesButCase([69, 116, 104, 48], [101, 116, 104, 48]);
  }

  // ---- Bytes and code points ----------------------------------------------------------------------

  /** The same first piece and the same words after it. */
  ghost predicate SamePieces(a: seq<seq<int>>, b: seq<seq<int>>)
    requires a != [] && b != []
  {
    a[0] == b[0] && NonEmpty(a[1..]) == NonEmpty(b[1..])
  }

  lemma SamePiecesSameWords(a: seq<seq<int>>, b: seq<seq<int>>)
    requires a != [] && b != [] && SamePieces(a, b)
    ensures NonEmpty(a) == NonEmpty(b)
  {
    assert a == [a[0]] + a[1..] && b == [b[0]] + b[1..];
  }

  /** Separators in front of a text add only empty pieces. */
  lemma {:induction false} LeadingSeparators(bs: seq<int>, s: seq<int>)
    requires bs != [] && forall b | b in bs :: !IsWordChar(Lower(b))
    ensures Pieces(bs + s)[0] == [] && NonEmpty(Pieces(bs + s)[1..]) == NonEmpty(Pieces(s))
  {
    assert bs[0] in bs && (bs + s)[1..] == bs[1..] + s;
    if |bs| == 1 {
      assert bs[1..] + s == s;
      assert Pieces(bs + s) == [[]] + Pieces(s);
    } else {
      LeadingSeparators(bs[1..], s);
      var rest := Pieces(bs[1..] + s);
      assert Pieces(bs + s)[1..] == rest && rest == [[]] + rest[1..];
    }
  }

  /** One rune in front of texts that agree. */
  lemma AgreeAfterRune(front: seq<int>, rest: seq<int>, c: int, runes: seq<int>)
    requires SamePieces(Pieces(rest), Pieces(runes))
    requires front == [c] || (front != [] && !IsWordChar(Lower(c)) && forall b | b in front :: !IsWordChar(Lower(b)))
    ensures SamePieces(Pieces(front + rest), Pieces([c] + runes))
  {
    SamePiecesSameWords(Pieces(rest), Pieces(runes));
    assert ([c] + runes)[1..] == runes;
    if IsWordChar(Lower(c)) {
      assert (front + rest)[1..] == rest;
    } else {
      assert forall b | b in front :: !IsWordChar(Lower(b));
      LeadingSeparators(front, rest);
      LeadingSeparators([c], runes);
    }
  }

  lemma {:induction false} BytesAndRunesAgree(bs: Bytes)
    ensures SamePieces(Pieces(bs), Pieces(Runes(bs)))
  {
    hide Pieces, SamePieces, FirstRune, RuneLength;
    if bs == [] {
      NothingToCut();
    } else {
      var n := RuneLength(bs);
      BytesAndRunesAgree(bs[n..]);
      AsciiRune(bs);
      if bs[0] >= 0x80 {
        NoAsciiInLongRunes(bs);
      }
      AgreeAfterRune(bs[..n], bs[n..], FirstRune(bs), Runes(bs[n..]));
      assert bs == bs[..n] + bs[n..];
    }
  }

  lemma NothingToCut()
    ensures SamePieces(Pieces([]), Pieces([]))
  {
  }

  lemma AsciiRune(bs: Bytes)
    requires bs != []
    ensures bs[0] < 0x80 ==> bs[..RuneLength(bs)] == [FirstRune(bs)]
  {
  }

  /** The byte-wise pass is the rune-wise one on every input, ill-formed UTF-8 included: whatever
      starts no code point is a separator either way. */
  lemma SlugOfBytesIsSlugOfRunes(bs: Bytes)
    ensures Slug(bs) == Slug(Runes(bs))
  {
    BytesAndRunesAgree(bs);
    SamePiecesSameWords(Pieces(bs), Pieces(Runes(bs)));
  }

  /** On the UTF-8 form of a text it is the pass over its code points. */
  lemma SlugOfBytesIsSlugOfCodePoints(cs: seq<CodePoint>)
    ensures Slug(EncodeAll(cs)) == Slug(cs)
  {
    SlugOfBytesIsSlugOfRunes(EncodeAll(cs));
    RunesOfEncoding(cs);
  }

  // ---- The loop -----------------------------------------------------------------------------------

  function TrimRight(s: seq<int>): seq<int> {
    if s != [] && s[|s| - 1] == DASH then TrimRight(s[..|s| - 1]) else s
  }

  /** The buffer after a prefix: its words joined, and a dash once a separator follows a word. */
  ghost function Buffer(ps: seq<seq<int>>): seq<int>
    requires ps != []
  {
    Join(NonEmpty(ps)) + if ps[|ps| - 1] == [] && NonEmpty(ps) != [] then [DASH] else []
  }

  lemma EmptyBuffer()
    ensures Buffer(Pieces([])) == []
  {
    assert NonEmpty([[]]) == NonEmpty([[]][1..]);
  }

  lemma BufferAtSeparator(s: seq<int>, c: int)
    requires !IsWordChar(Lower(c))
    ensures var out := Buffer(Pieces(s));
            Buffer(Pieces(s + [c])) == if out != [] && out[|out| - 1] != DASH then out + [DASH] else out
  {
    var ps := Pieces(s);
    PiecesAtSeparator(s, c, []);
    assert s + [c] + [] == s + [c];
    NonEmptyAppend(ps, [[]]);
    assert NonEmpty([[]]) == NonEmpty([[]][1..]) && NonEmpty(ps) + [] == NonEmpty(ps);
    WordsAreGood(s);
    JoinIsWellFormed(NonEmpty(ps));
    hide Pieces, NonEmpty, Join;
    if ps[|ps| - 1] != [] {
      NonEmptyMeans(ps);
      assert ps[|ps| - 1] in NonEmpty(ps);
    }
  }

  /** Every word so far closed by a dash, then the piece still open. */
  lemma BufferIsClosedWordsAndOpenPiece(init: seq<seq<int>>, last: seq<int>)
    ensures var ws := NonEmpty(init);
            Buffer(init + [last]) == (if ws == [] then [] else Join(ws) + [DASH]) + last
  {
    var ws := NonEmpty(init);
    NonEmptyAppend(init, [last]);
    assert NonEmpty([last]) == (if last == [] then [] else [last]) + NonEmpty([last][1..]);
    assert ws + [] == ws;
    hide NonEmpty;
    if last != [] && ws != [] {
      JoinAppend(ws, [last]);
    }
  }

  lemma BufferAtWordChar(s: seq<int>, c: int)
    requires IsWordChar(Lower(c))
    ensures Buffer(Pieces(s + [c])) == Buffer(Pieces(s)) + [Lower(c)]
  {
    hide Pieces, Buffer, NonEmpty, Join;
    var ps := Pieces(s);
    var init, last := ps[..|ps| - 1], ps[|ps| - 1];
    PiecesAtWordChar(s, c);
    assert ps == init + [last];
    BufferIsClosedWordsAndOpenPiece(init, last);
    BufferIsClosedWordsAndOpenPiece(init, last + [Lower(c)]);
  }

  lemma TrimmedBuffer(s: seq<int>)
    ensures TrimRight(Buffer(Pieces(s))) == Slug(s)
  {
    WordsAreGood(s);
    JoinIsWellFormed(Words(s));
    var out := Buffer(Pieces(s));
    if out != Slug(s) {
      assert out[..|out| - 1] == Slug(s);
    }
  }

  method Slugify(s: seq<int>) returns (r: seq<int>)
    ensures r == Slug(s)
  {
    var out: seq<int> := [];
    EmptyBuffer();
    hide Pieces, Buffer, Words;
    for i := 0 to |s|
      invariant out == Buffer(Pieces(s[..i]))
    {
      assert s[..i + 1] == s[..i] + [s[i]];
      var c := s[i];
      if 65 <= c <= 90 {
        c := c + 32;
      }
      if IsWordChar(c) {
        BufferAtWordChar(s[..i], s[i]);
        out := out + [c];
      } else {
        BufferAtSeparator(s[..i], s[i]);
        if |out| > 0 && out[|out| - 1] != DASH {
          out := out + [DASH];
        }
      }
    }
    assert s[..|s|] == s;
    TrimmedBuffer(s);
    while |out| > 0 && out[|out| - 1] == DASH
      invariant TrimRight(out) == Slug(s)
    {
      out := out[..|out| - 1];
    }
    r := out;
  }
}
