/** `EventNote` of api/v1alpha1/events.go:170-194: fitting a message into the API server's byte limit
    without cutting a code point in two. */
module EventNotes {
  import opened Utf8

  const EVENT_NOTE_MAX := 1024

  /** " [truncated]" */
  const TRUNCATED: Bytes := [32, 91, 116, 114, 117, 110, 99, 97, 116, 101, 100, 93]

  lemma MarkerIs()
    ensures Spells(TRUNCATED, " [truncated]") && EVENT_NOTE_MAX == 1024
  {
  }

  const ROOM := EVENT_NOTE_MAX - |TRUNCATED|

  /** The last start byte at or before `cut`, or zero. */
  function StepBack(note: Bytes, cut: nat): (c: nat)
    requires cut < |note|
    ensures c <= cut && (c > 0 ==> RuneStart(note[c]))
    ensures forall i | c < i <= cut :: !RuneStart(note[i])
  {
    if cut == 0 || RuneStart(note[cut]) then cut else StepBack(note, cut - 1)
  }

  method EventNote(note: Bytes) returns (r: Bytes)
    ensures |r| <= EVENT_NOTE_MAX
    ensures |note| <= EVENT_NOTE_MAX ==> r == note
    ensures |note| > EVENT_NOTE_MAX ==> r == note[..StepBack(note, ROOM)] + TRUNCATED
  {
    if |note| <= EVENT_NOTE_MAX {
      return note;
    }
    var cut := EVENT_NOTE_MAX - |TRUNCATED|;
    while cut > 0 && !RuneStart(note[cut])
      invariant 0 <= cut <= ROOM && StepBack(note, cut) == StepBack(note, ROOM)
    {
      cut := cut - 1;
    }
    r := note[..cut] + TRUNCATED;
  }

  /** How many whole code points fit into n bytes. */
  function Fitting(cs: seq<CodePoint>, n: nat): (k: nat)
    ensures k <= |cs|
  {
    if cs == [] || |Encode(cs[0])| > n then 0 else 1 + Fitting(cs[1..], n - |Encode(cs[0])|)
  }

  /** Fitting is the longest whole prefix: it fits, and no longer one does. */
  lemma {:induction false} FittingIsLongest(cs: seq<CodePoint>, n: nat, m: nat)
    requires m <= |cs|
    ensures |EncodeAll(cs[..Fitting(cs, n)])| <= n
    ensures |EncodeAll(cs[..m])| <= n <==> m <= Fitting(cs, n)
  {
    if cs != [] {
      var k := Fitting(cs, n);
      if k > 0 {
        FittingIsLongest(cs[1..], n - |Encode(cs[0])|, if m > 0 then m - 1 else 0);
        assert cs[..k][1..] == cs[1..][..k - 1];
      }
      if m > 0 {
        assert cs[..m][1..] == cs[1..][..m - 1];
      }
    }
  }

  /** The bytes around the first code point that does not fit. */
  lemma BoundaryBytes(cs: seq<CodePoint>, k: nat)
    requires k < |cs|
    ensures var note, start, one := EncodeAll(cs), |EncodeAll(cs[..k])|, Encode(cs[k]);
            && |EncodeAll(cs[..k + 1])| == start + |one| <= |note|
            && note[..start] == EncodeAll(cs[..k]) && note[start..start + |one|] == one
  {
    hide Encode;
    var front, c, back := cs[..k], cs[k], cs[k + 1..];
    assert cs == front + ([c] + back) && cs[..k + 1] == front + [c];
    EncodeAppend(front, [c]);
    EncodeAppend(front, [c] + back);
    EncodeAppend([c], back);
    assert [c][1..] == [] && EncodeAll([]) == [];
    assert EncodeAll([c]) == Encode(c);
  }

  /** In well-formed UTF-8 the step back from n ends at the end of the longest whole prefix. */
  lemma StepBackToBoundary(cs: seq<CodePoint>, n: nat)
    requires n < |EncodeAll(cs)|
    ensures StepBack(EncodeAll(cs), n) == |EncodeAll(cs[..Fitting(cs, n)])|
    ensures n - StepBack(EncodeAll(cs), n) <= 3
  {
    hide Encode, EncodeAll, Fitting, StepBack, RuneStart;
    var note, k := EncodeAll(cs), Fitting(cs, n);
    assert cs[..|cs|] == cs;
    FittingIsLongest(cs, n, k);
    FittingIsLongest(cs, n, |cs|);
    FittingIsLongest(cs, n, k + 1);
    BoundaryBytes(cs, k);
    EncodeShape(cs[k]);
    var start, one := |EncodeAll(cs[..k])|, Encode(cs[k]);
    assert forall i | start <= i < start + |one| :: note[i] == note[start..start + |one|][i - start];
    assert RuneStart(note[start]) && forall i | start < i <= n :: !RuneStart(note[i]);
  }

  /** A long note keeps exactly the longest prefix of whole code points that fits before the marker,
      and gives up at most three bytes of the room for it. */
  lemma LongNoteKeepsWholeCodePoints(cs: seq<CodePoint>)
    requires |EncodeAll(cs)| > EVENT_NOTE_MAX
    ensures var note, k := EncodeAll(cs), Fitting(cs, ROOM); var kept := note[..StepBack(note, ROOM)];
            && kept == EncodeAll(cs[..k]) && kept + TRUNCATED == EncodeAll(cs[..k] + TRUNCATED)
            && ROOM - 3 <= |kept| <= ROOM
            && forall m | 0 <= m <= |cs| :: |EncodeAll(cs[..m])| <= ROOM <==> m <= k
  {
    hide Encode, EncodeAll, StepBack, Fitting, RuneStart;
    var note, k := EncodeAll(cs), Fitting(cs, ROOM);
    StepBackToBoundary(cs, ROOM);
    assert cs == cs[..k] + cs[k..];
    EncodeAppend(cs[..k], cs[k..]);
    EncodeAppend(cs[..k], TRUNCATED);
    AsciiIsItsEncoding(TRUNCATED);
    FittingIsLongest(cs, ROOM, k);
    forall m | 0 <= m <= |cs| ensures |EncodeAll(cs[..m])| <= ROOM <==> m <= k {
      FittingIsLongest(cs, ROOM, m);
    }
  }

  lemma {:induction false} AsciiIsItsEncoding(cs: seq<CodePoint>)
    requires forall i | 0 <= i < |cs| :: cs[i] < 0x80
    ensures EncodeAll(cs) == cs
  {
    if cs != [] {
      AsciiIsItsEncoding(cs[1..]);
    }
  }
}
