/** api/v1alpha1/ipam_iprangeclaim.go:207-257: the last address of a reserved range, computed on
    fixed-width big-endian bytes. */
module RangeClaims {
  import opened Options
  import opened Utf8

  /** A parsed `address/bits`; netip yields 4 or 16 bytes. */
  datatype Prefix = Prefix(addr: Bytes, bits: nat)

  type Int32 = x: int | -0x8000_0000 <= x <= 0x7fff_ffff

  ghost predicate IsAddr(a: Bytes) {
    |a| == 4 || |a| == 16
  }

  // ---- Big-endian numbers -----------------------------------------------------------------------------

  /** big.Int.SetBytes */
  function Value(bs: Bytes): nat {
    if bs == [] then 0 else 0x100 * Value(bs[..|bs| - 1]) + bs[|bs| - 1]
  }

  /** The numbers that fit `width` bytes. */
  function Limit(width: nat): nat {
    if width == 0 then 1 else 0x100 * Limit(width - 1)
  }

  /** big.Int.FillBytes */
  function Fill(v: nat, width: nat): (bs: Bytes)
    ensures |bs| == width
  {
    if width == 0 then [] else Fill(v / 0x100, width - 1) + [v % 0x100]
  }

  /** big.Int.BitLen */
  function BitLen(v: nat): nat {
    if v == 0 then 0 else 1 + BitLen(v / 2)
  }

  function Pow2(n: nat): (p: nat)
    ensures p > 0
  {
    if n == 0 then 1 else 2 * Pow2(n - 1)
  }

  lemma {:induction false} ValueBounded(bs: Bytes)
    ensures Value(bs) < Limit(|bs|)
  {
    if bs != [] {
      ValueBounded(bs[..|bs| - 1]);
    }
  }

  /** Filling and reading are inverse on what fits. */
  lemma {:induction false} FillThenValue(v: nat, width: nat)
    requires v < Limit(width)
    ensures Value(Fill(v, width)) == v
  {
    if width > 0 {
      FillThenValue(v / 0x100, width - 1);
      assert Fill(v, width)[..width - 1] == Fill(v / 0x100, width - 1);
    }
  }

  lemma {:induction false} ValueThenFill(bs: Bytes)
    ensures Fill(Value(bs), |bs|) == bs
  {
    if bs != [] {
      ValueThenFill(bs[..|bs| - 1]);
      assert bs == bs[..|bs| - 1] + [bs[|bs| - 1]];
    }
  }

  lemma {:induction false} BitLenBound(v: nat, n: nat)
    ensures BitLen(v) <= n <==> v < Pow2(n)
    decreases n
  {
    if v > 0 && n > 0 {
      BitLenBound(v / 2, n - 1);
    }
  }

  lemma {:induction false} LimitIsPow2(width: nat)
    ensures Limit(width) == Pow2(8 * width)
  {
    if width > 0 {
      LimitIsPow2(width - 1);
      var n := 8 * width;
      assert Pow2(n) == 2 * Pow2(n - 1) == 4 * Pow2(n - 2) == 8 * Pow2(n - 3) == 16 * Pow2(n - 4);
      assert Pow2(n - 4) == 2 * Pow2(n - 5) == 4 * Pow2(n - 6) == 8 * Pow2(n - 7) == 16 * Pow2(n - 8);
    }
  }

  // ---- endAddressOf -----------------------------------------------------------------------------------

  /** ::ffff:a.b.c.d, an IPv4 address in IPv6 clothes. */
  predicate IsMapped(a: Bytes) {
    |a| == 16 && a[..10] == [0, 0, 0, 0, 0, 0, 0, 0, 0, 0] && a[10] == 0xff && a[11] == 0xff
  }

  function Unmap(a: Bytes): (r: Bytes)
    ensures IsAddr(a) ==> IsAddr(r)
  {
    if IsMapped(a) then a[12..] else a
  }

  /** `start` is what netip made of the text, None when it did not parse. */
  method EndAddressOf(start: Option<Prefix>, size: Int32) returns (r: Option<Prefix>)
    requires start.Some? ==> IsAddr(start.value.addr)
    ensures r == EndAddress(start, size)
  {
    if size < 1 {
      return None;
    }
    if start.None? {
      return None;
    }
    var addr := Unmap(start.value.addr);
    var width := |addr|;
    var end := Value(addr);
    end := end + (size - 1);
    EndFits(addr, end);
    if BitLen(end) > 8 * width {
      return None;
    }
    return Some(Prefix(Fill(end, width), start.value.bits));
  }

  lemma EndFits(addr: Bytes, end: nat)
    ensures BitLen(end) <= 8 * |addr| <==> end < Limit(|addr|)
  {
    LimitIsPow2(|addr|);
    BitLenBound(end, 8 * |addr|);
  }

  /** The promise: the address size - 1 further on, of the same width and mask, if there is one. */
  ghost function EndAddress(start: Option<Prefix>, size: int): Option<Prefix> {
    if size < 1 || start.None? then None
    else
      var a := Unmap(start.value.addr);
      var end := Value(a) + size - 1;
      if end < Limit(|a|) then Some(Prefix(Fill(end, |a|), start.value.bits)) else None
  }

  /** The end address is numerically start + size - 1 with the start's mask, empty exactly when the
      size is not positive or that number does not fit. */
  lemma EndAddressIs(start: Prefix, size: int)
    requires IsAddr(start.addr)
    ensures var a := Unmap(start.addr); var r := EndAddress(Some(start), size);
            && (r.None? <==> size < 1 || Value(a) + size - 1 >= Limit(|a|))
            && (r.Some? ==> |r.value.addr| == |a| && r.value.bits == start.bits
                            && Value(r.value.addr) == Value(a) + size - 1)
  {
    var a := Unmap(start.addr);
    if size >= 1 && Value(a) + size - 1 < Limit(|a|) {
      FillThenValue(Value(a) + size - 1, |a|);
    }
  }

  /** Bytes of one width and one value are the same bytes. */
  lemma SameValueSameBytes(a: Bytes, b: Bytes)
    requires |a| == |b| && Value(a) == Value(b)
    ensures a == b
  {
    ValueThenFill(a);
    ValueThenFill(b);
  }

  /** So the end address is the one address of that width, mask and number. */
  lemma EndAddressIsTheOne(start: Prefix, size: int, p: Prefix)
    requires IsAddr(start.addr)
    ensures var a := Unmap(start.addr);
            EndAddress(Some(start), size) == Some(p) <==>
              size >= 1 && |p.addr| == |a| && p.bits == start.bits && Value(p.addr) == Value(a) + size - 1
  {
    EndAddressIs(start, size);
    ValueBounded(p.addr);
    var r := EndAddress(Some(start), size);
    if r.Some? && |p.addr| == |r.value.addr| && Value(p.addr) == Value(r.value.addr) {
      SameValueSameBytes(p.addr, r.value.addr);
    }
  }

  const ZEROS10: Bytes := [0, 0, 0, 0, 0, 0, 0, 0, 0, 0]

  /** `::ffff:10.0.0.1/96`, one address: its end is `10.0.0.1/96`, four bytes with a mask of ninety-six. */
  lemma MappedStartLosesItsWidth()
    ensures var start := Prefix(ZEROS10 + [0xff, 0xff, 10, 0, 0, 1], 96);
            IsMapped(start.addr) && EndAddress(Some(start), 1) == Some(Prefix([10, 0, 0, 1], 96))
  {
    var start := Prefix(ZEROS10 + [0xff, 0xff, 10, 0, 0, 1], 96);
    assert start.addr[12..] == [10, 0, 0, 1];
    EndAddressIsTheOne(start, 1, Prefix([10, 0, 0, 1], 96));
  }

  /** It keeps the width the start was written in exactly when the start is no mapped address. */
  lemma EndAddressKeepsWidthIff(start: Prefix, size: int)
    requires IsAddr(start.addr) && EndAddress(Some(start), size).Some?
    ensures |EndAddress(Some(start), size).value.addr| == |start.addr| <==> !IsMapped(start.addr)
  {
  }

  /** The address after a, of the same width and mask, if there is one. */
  ghost function Successor(p: Prefix): Option<Prefix> {
    if Value(p.addr) + 1 < Limit(|p.addr|) then Some(Prefix(Fill(Value(p.addr) + 1, |p.addr|), p.bits)) else None
  }

  ghost function AfterEnd(start: Option<Prefix>, size: int): Option<Prefix> {
    var e := EndAddress(start, size);
    if e.None? then None else Successor(e.value)
  }

  lemma {:induction false} LeadingZeros(bs: Bytes, n: nat)
    requires n <= |bs| && forall i | 0 <= i < n :: bs[i] == 0
    ensures Value(bs) == Value(bs[n..]) < Limit(|bs| - n)
    decreases |bs|
  {
    if n < |bs| {
      var front := bs[..|bs| - 1];
      LeadingZeros(front, n);
      assert bs[n..][..|bs| - n - 1] == front[n..];
      ValueBounded(bs[n..]);
    } else if bs != [] {
      LeadingZeros(bs[..|bs| - 1], n - 1);
      assert bs[n..] == [] && bs[..|bs| - 1][n - 1..] == [];
    } else {
      assert bs[n..] == [];
    }
  }

  /** A mapped address is a small number: nothing an int32 adds to it leaves sixteen bytes. */
  lemma MappedIsSmall(a: Bytes)
    requires IsMapped(a)
    ensures Value(a) + 0x1_0000_0000 < Limit(16)
  {
    assert forall i | 0 <= i < 10 :: a[i] == a[..10][i];
    LeadingZeros(a, 10);
    LimitIsPow2(6);
    assert Limit(7) == 0x100 * Limit(6) && Limit(8) == 0x100 * Limit(7) && Limit(9) == 0x100 * Limit(8);
    assert Limit(10) == 0x100 * Limit(9) && Limit(11) == 0x100 * Limit(10);
    LimitGrows(11, 16);
  }

  lemma {:induction false} LimitGrows(m: nat, n: nat)
    requires m <= n
    ensures Limit(m) <= Limit(n) && Limit(m) > 0
    decreases n
  {
    if m < n {
      LimitGrows(m, n - 1);
    } else if m > 0 {
      LimitGrows(m - 1, n - 1);
    }
  }

  lemma ValueAppend(bs: Bytes, b: Byte)
    ensures Value(bs + [b]) == 0x100 * Value(bs) + b
  {
    assert (bs + [b])[..|bs|] == bs;
  }

  /** Four bytes read after a prefix. */
  lemma ValueOfFour(front: Bytes, low: Bytes)
    requires |low| == 4
    ensures Value(front + low) == 0x1_0000_0000 * Value(front) + Value(low)
  {
    var a, b, c, d := low[0], low[1], low[2], low[3];
    assert front + low == front + [a] + [b] + [c] + [d] && low == [] + [a] + [b] + [c] + [d];
    ValueAppend(front, a);
    ValueAppend(front + [a], b);
    ValueAppend(front + [a] + [b], c);
    ValueAppend(front + [a] + [b] + [c], d);
    ValueAppend([], a);
    ValueAppend([] + [a], b);
    ValueAppend([] + [a] + [b], c);
    ValueAppend([] + [a] + [b] + [c], d);
  }

  lemma MappedFront(front: Bytes)
    requires front == ZEROS10 + [0xff] + [0xff]
    ensures Value(front) == 0xffff
  {
    LeadingZeros(ZEROS10, 10);
    assert ZEROS10[10..] == [] && Value(ZEROS10) == 0;
    ValueAppend(ZEROS10, 0xff);
    ValueAppend(ZEROS10 + [0xff], 0xff);
  }

  /** The mapped addresses are the sixteen-byte numbers from 0xffff * 2^32 up to 2^48. */
  lemma MappedIsANumber(a: Bytes)
    requires |a| == 16
    ensures IsMapped(a) <==> 0xffff * 0x1_0000_0000 <= Value(a) < 0x1_0000_0000_0000
    ensures IsMapped(a) ==> Value(Unmap(a)) == Value(a) - 0xffff * 0x1_0000_0000
  {
    var front := ZEROS10 + [0xff] + [0xff];
    MappedFront(front);
    FourByteLimit();
    assert IsMapped(a) <==> a[..12] == front;
    hide Value, Limit;
    if a[..12] == front {
      assert a == front + a[12..];
      ValueOfFour(front, a[12..]);
      ValueBounded(a[12..]);
    }
    if 0xffff * 0x1_0000_0000 <= Value(a) < 0x1_0000_0000_0000 {
      NumberInBlock(a, front, Value(a) - 0xffff * 0x1_0000_0000);
    }
  }

  lemma NumberInBlock(a: Bytes, front: Bytes, rest: nat)
    requires |a| == 16 && |front| == 12 && Value(front) == 0xffff && rest < Limit(4)
    requires Value(a) == 0xffff * 0x1_0000_0000 + rest
    ensures a[..12] == front
  {
    hide Value, Fill, Limit;
    FillThenValue(rest, 4);
    ValueOfFour(front, Fill(rest, 4));
    SameValueSameBytes(a, front + Fill(rest, 4));
  }

  lemma FourByteLimit()
    ensures Limit(4) == 0x1_0000_0000
  {
    assert Limit(1) == 0x100 && Limit(2) == 0x1_0000 && Limit(3) == 0x100_0000;
  }

  /** So an end keeps the width of its start unless the start is a number in that block. */
  lemma EndKeepsWidthUnlessInBlock(start: Prefix, size: int)
    requires IsAddr(start.addr) && EndAddress(Some(start), size).Some?
    ensures |EndAddress(Some(start), size).value.addr| == |start.addr| <==>
      |start.addr| == 4 || !(0xffff * 0x1_0000_0000 <= Value(start.addr) < 0x1_0000_0000_0000)
  {
    if |start.addr| == 16 {
      MappedIsANumber(start.addr);
    }
  }

  lemma AfterEndIs(start: Prefix, a: int)
    requires IsAddr(start.addr) && a >= 1
    ensures var s := Unmap(start.addr); var next := AfterEnd(Some(start), a);
            && (next.Some? <==> Value(s) + a < Limit(|s|))
            && (next.Some? ==> |next.value.addr| == |s| && next.value.bits == start.bits
                               && Value(next.value.addr) == Value(s) + a)
  {
    EndAddressIs(start, a);
    var s := Unmap(start.addr);
    if Value(s) + a < Limit(|s|) {
      FillThenValue(Value(s) + a, |s|);
    }
  }

  /** Adjacent ranges compose, on overflow too: the end of a + b addresses is the end of the b that
      begin right after the first a. It fails exactly where counting runs into the mapped block. */
  lemma AdjacentRangesComposeIff(start: Prefix, a: Int32, b: Int32)
    requires IsAddr(start.addr) && a >= 1 && b >= 1
    ensures var next := AfterEnd(Some(start), a);
            EndAddress(Some(start), a + b) == EndAddress(next, b) <==> next.None? || !IsMapped(next.value.addr)
  {
    AfterEndIs(start, a);
    hide Value, Fill, Limit, AfterEnd;
    var next := AfterEnd(Some(start), a);
    if next.Some? && IsMapped(next.value.addr) {
      MappedIsSmall(next.value.addr);
      assert EndAddress(Some(start), a + b).Some?;
    }
  }

  /** Adding one to a run of full bytes carries into the byte before it. */
  lemma {:induction false} Carry(bs: Bytes, b: Byte, fulls: Bytes, zeros: Bytes)
    requires b < 0xff && |fulls| == |zeros|
    requires forall i | 0 <= i < |fulls| :: fulls[i] == 0xff && zeros[i] == 0
    ensures Value(bs + [b] + fulls) + 1 == Value(bs + [b + 1] + zeros)
    decreases |fulls|
  {
    var n := |fulls|;
    if n == 0 {
      assert bs + [b] + fulls == bs + [b] && bs + [b + 1] + zeros == bs + [b + 1];
      ValueAppend(bs, b);
      ValueAppend(bs, b + 1);
    } else {
      assert bs + [b] + fulls == bs + [b] + fulls[..n - 1] + [0xff];
      assert bs + [b + 1] + zeros == bs + [b + 1] + zeros[..n - 1] + [0];
      Carry(bs, b, fulls[..n - 1], zeros[..n - 1]);
      ValueAppend(bs + [b] + fulls[..n - 1], 0xff);
      ValueAppend(bs + [b + 1] + zeros[..n - 1], 0);
    }
  }

  /** One address from just below the mapped block: the next one is `::ffff:0:0`, and the end of one
      more is read as `0.0.0.0`. */
  lemma CompositionBreaksAtMappedBlock()
    ensures var start := Prefix(ZEROS10 + [0xff, 0xfe, 0xff, 0xff, 0xff, 0xff], 128);
            var block := Prefix(ZEROS10 + [0xff, 0xff, 0, 0, 0, 0], 128);
            && AfterEnd(Some(start), 1) == Some(block) && IsMapped(block.addr)
            && EndAddress(Some(start), 1 + 1) == Some(block)
            && EndAddress(Some(block), 1) == Some(Prefix([0, 0, 0, 0], 128))
  {
    var start := Prefix(ZEROS10 + [0xff, 0xfe, 0xff, 0xff, 0xff, 0xff], 128);
    var block := Prefix(ZEROS10 + [0xff, 0xff, 0, 0, 0, 0], 128);
    hide Value, Fill, Limit;
    Carry(ZEROS10 + [0xff], 0xfe, [0xff, 0xff, 0xff, 0xff], [0, 0, 0, 0]);
    assert start.addr == ZEROS10 + [0xff] + [0xfe] + [0xff, 0xff, 0xff, 0xff];
    assert block.addr == ZEROS10 + [0xff] + [0xff] + [0, 0, 0, 0] && block.addr[12..] == [0, 0, 0, 0];
    EndAddressIsTheOne(start, 2, block);
    EndAddressIsTheOne(block, 1, Prefix([0, 0, 0, 0], 128));
    AfterEndIs(start, 1);
    ValueBounded(block.addr);
    SameValueSameBytes(AfterEnd(Some(start), 1).value.addr, block.addr);
  }

  // ---- SetAllocated -----------------------------------------------------------------------------------

  class Claim {
    const size: Int32
    var startAddress: string
    var endAddress: Option<Prefix>
    var statusSize: Int32

    constructor (size: Int32)
      ensures this.size == size && startAddress == "" && endAddress == None && statusSize == 0
    {
      this.size, startAddress, endAddress, statusSize := size, "", None, 0;
    }

    /** Records a reserved range; `parsed` is what netip makes of `value`. */
    method SetAllocated(value: string, parsed: Option<Prefix>)
      requires parsed.Some? ==> IsAddr(parsed.value.addr)
      modifies this
      ensures startAddress == value && statusSize == size
      ensures endAddress == EndAddress(parsed, size)
      ensures endAddress.Some? ==>
        Value(endAddress.value.addr) - Value(Unmap(parsed.value.addr)) + 1 == statusSize
        && endAddress.value.bits == parsed.value.bits
    {
      startAddress := value;
      statusSize := size;
      endAddress := EndAddressOf(parsed, size);
      if endAddress.Some? {
        EndAddressIs(parsed.value, size);
      }
    }
  }
}
