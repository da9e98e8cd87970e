/** Bytes and bits as numbers. */
module Bytes {

  function Pow2(n: nat): nat {
    if n == 0 then 1 else 2 * Pow2(n - 1)
  }

  /** A byte shifted up by one place, with a new lowest bit. */
  function ShiftIn(b: bv8, low: bool): bv8 {
    (b << 1) | (if low then 1 else 0)
  }

  lemma ShiftInValue(b: bv8, low: bool)
    requires b < 0x80
    ensures ShiftIn(b, low) as nat == 2 * (b as nat) + (if low then 1 else 0)
  {
  }

  lemma SmallByte(b: bv8)
    requires b as nat < 128
    ensures b < 0x80
  {
  }

  /** The byte of a number below 256, bit by bit. */
  function ByteOf(n: nat): bv8 {
    if n == 0 then 0 else ShiftIn(ByteOf(n / 2), n % 2 == 1)
  }

  /** A number below 256 is the value of its byte. */
  lemma {:induction false} ByteValue(n: nat)
    requires n < 256
    ensures ByteOf(n) as nat == n
  {
    if n > 0 {
      ByteValue(n / 2);
      SmallByte(ByteOf(n / 2));
      ShiftInValue(ByteOf(n / 2), n % 2 == 1);
    }
  }
}

/** ASCII case folding: block-plus-tail vector loops against the scalar definition. */
module Simd {
  import opened Text
  import opened Bytes

  type Byte = bv8

  /** The instruction sets with a hand-written path. */
  datatype Isa = Neon | Sse2 | Avx2

  // ----- the scalar twin -------------------------------------------------------

  function FoldByte(b: Byte): Byte {
    if 0x41 <= b <= 0x5A then b | 0x20 else b
  }

  function Fold(s: seq<Byte>): (r: seq<Byte>)
    ensures |r| == |s| && forall i :: 0 <= i < |s| ==> r[i] == FoldByte(s[i])
  {
    seq(|s|, i requires 0 <= i < |s| => FoldByte(s[i]))
  }

  /** Equal lengths and equal bytes after folding. */
  predicate EqScalar(a: seq<Byte>, b: seq<Byte>) {
    |a| == |b| && forall i :: 0 <= i < |a| ==> FoldByte(a[i]) == FoldByte(b[i])
  }

  // ----- one lane ----------------------------------------------------------------

  function Mask(p: bool): Byte {
    if p then 0xFF else 0
  }

  /** Greater-than on bytes read as two's complement, as `cmpgt_epi8` compares. */
  predicate SignedGt(x: Byte, y: Byte) {
    if x < 0x80 then y >= 0x80 || x > y else y >= 0x80 && x > y
  }

  /** NEON compares unsigned; SSE2 and AVX2 compare signed after flipping the top bit. */
  function UpperMask(isa: Isa, v: Byte): Byte {
    match isa
    case Neon => Mask(v >= 0x41) & Mask(v <= 0x5A)
    case _ =>
      var s, lo, hi := v ^ 0x80, (0x41 ^ 0x80) - 1, (0x5A ^ 0x80) + 1;
      Mask(SignedGt(s, lo)) & Mask(SignedGt(hi, s))
  }

  function FoldLane(isa: Isa, v: Byte): Byte {
    v | (UpperMask(isa, v) & 0x20)
  }

  /** The biased signed range test selects exactly the upper-case letters. */
  lemma LaneIsScalar(isa: Isa, v: Byte)
    ensures FoldLane(isa, v) == FoldByte(v)
  {
  }

  // ----- one block ---------------------------------------------------------------

  function Width(isa: Isa): nat {
    if isa == Avx2 then 32 else 16
  }

  function EqLanes(isa: Isa, a: seq<Byte>, b: seq<Byte>): (r: seq<Byte>)
    requires |a| == |b|
    ensures |r| == |a|
  {
    seq(|a|, i requires 0 <= i < |a| => Mask(FoldLane(isa, a[i]) == FoldLane(isa, b[i])))
  }

  /** Horizontal minimum of a non-empty vector. */
  function MinLane(v: seq<Byte>): Byte
    requires |v| > 0
  {
    if |v| == 1 then v[0]
    else
      var m := MinLane(v[1..]);
      if v[0] < m then v[0] else m
  }

  /** One bit per lane: its top bit, lane 0 lowest. */
  function MoveMask(v: seq<Byte>): nat {
    if v == [] then 0 else (if v[0] >= 0x80 then 1 else 0) + 2 * MoveMask(v[1..])
  }

  /** The 32-lane mask comes back as a signed 32-bit integer. */
  function AsI32(m: nat): int {
    if m < 0x8000_0000 then m else m - 0x1_0000_0000
  }

  /** The test each path uses to see that no lane differs. */
  predicate BlockEqual(isa: Isa, eq: seq<Byte>)
    requires |eq| == Width(isa)
  {
    match isa
    case Neon => MinLane(eq) == 0xFF
    case Sse2 => MoveMask(eq) == 0xFFFF
    case Avx2 => AsI32(MoveMask(eq)) == -1
  }

  ghost predicate LaneMasks(v: seq<Byte>) {
    forall i :: 0 <= i < |v| ==> v[i] == 0 || v[i] == 0xFF
  }

  ghost predicate AllSet(v: seq<Byte>) {
    forall i :: 0 <= i < |v| ==> v[i] == 0xFF
  }

  lemma {:induction false} MinLaneAll(v: seq<Byte>)
    requires |v| > 0
    ensures MinLane(v) == 0xFF <==> AllSet(v)
  {
    if |v| > 1 {
      MinLaneAll(v[1..]);
      assert AllSet(v) <==> v[0] == 0xFF && AllSet(v[1..]) by {
        if v[0] == 0xFF && AllSet(v[1..]) {
          forall i | 0 <= i < |v| ensures v[i] == 0xFF { if i > 0 { assert v[i] == v[1..][i - 1]; } }
        }
      }
    }
  }

  lemma {:induction false} MoveMaskAll(v: seq<Byte>)
    requires LaneMasks(v)
    ensures MoveMask(v) < Pow2(|v|)
    ensures MoveMask(v) == Pow2(|v|) - 1 <==> AllSet(v)
  {
    if v != [] {
      MoveMaskAll(v[1..]);
      assert AllSet(v) <==> v[0] == 0xFF && AllSet(v[1..]) by {
        if v[0] == 0xFF && AllSet(v[1..]) {
          forall i | 0 <= i < |v| ensures v[i] == 0xFF { if i > 0 { assert v[i] == v[1..][i - 1]; } }
        }
      }
    }
  }

  lemma PowersOfTwo()
    ensures Pow2(16) == 0x1_0000 && Pow2(32) == 0x1_0000_0000
  {
    assert Pow2(4) == 16 && Pow2(8) == 256;
    assert Pow2(12) == 4096;
    assert Pow2(16) == 65536;
    assert Pow2(20) == 0x10_0000;
    assert Pow2(24) == 0x100_0000;
    assert Pow2(28) == 0x1000_0000;
  }

  /** Each path's horizontal test says exactly that the folded blocks are equal. */
  lemma BlockTest(isa: Isa, a: seq<Byte>, b: seq<Byte>)
    requires |a| == |b| == Width(isa)
    ensures BlockEqual(isa, EqLanes(isa, a, b)) <==> EqScalar(a, b)
  {
    var eq := EqLanes(isa, a, b);
    MinLaneAll(eq);
    MoveMaskAll(eq);
    PowersOfTwo();
    assert AllSet(eq) <==> EqScalar(a, b) by {
      forall i | 0 <= i < |a| ensures eq[i] == 0xFF <==> FoldByte(a[i]) == FoldByte(b[i]) {
        LaneIsScalar(isa, a[i]);
        LaneIsScalar(isa, b[i]);
      }
    }
  }

  // ----- whole buffers -------------------------------------------------------------

  lemma EqSplit(a: seq<Byte>, b: seq<Byte>, i: nat)
    requires |a| == |b| && i <= |a|
    ensures EqScalar(a, b) <==> EqScalar(a[..i], b[..i]) && EqScalar(a[i..], b[i..])
  {
    if EqScalar(a[..i], b[..i]) && EqScalar(a[i..], b[i..]) {
      forall j | 0 <= j < |a| ensures FoldByte(a[j]) == FoldByte(b[j]) {
        if j < i { assert a[..i][j] == a[j] && b[..i][j] == b[j]; }
        else { assert a[i..][j - i] == a[j] && b[i..][j - i] == b[j]; }
      }
    }
  }

  /** The vector comparison loop with its scalar tail, for every length. */
  method EqIgnoreAsciiCase(isa: Isa, a: seq<Byte>, b: seq<Byte>) returns (r: bool)
    ensures r == EqScalar(a, b)
  {
    if |a| != |b| {
      return false;
    }
    var w, i := Width(isa), 0;
    while i + w <= |a|
      invariant 0 <= i <= |a|
      invariant EqScalar(a, b) <==> EqScalar(a[i..], b[i..])
    {
      var va, vb := a[i..i + w], b[i..i + w];
      BlockTest(isa, va, vb);
      EqSplit(a[i..], b[i..], w);
      assert a[i..][..w] == va && b[i..][..w] == vb;
      assert a[i..][w..] == a[i + w..] && b[i..][w..] == b[i + w..];
      if !BlockEqual(isa, EqLanes(isa, va, vb)) {
        return false;
      }
      i := i + w;
    }
    r := EqScalar(a[i..], b[i..]);
  }

  /** In-place lowering of `buf[..n]`: whole blocks, then the tail byte by byte. */
  method LowercaseBlocks(isa: Isa, buf: array<Byte>, n: nat)
    requires n <= buf.Length
    modifies buf
    ensures buf[..] == Fold(old(buf[..n])) + old(buf[n..])
  {
    var w, i := Width(isa), 0;
    while i + w <= n
      invariant 0 <= i <= n
      invariant forall j :: 0 <= j < i ==> buf[j] == FoldByte(old(buf[j]))
      invariant forall j :: i <= j < buf.Length ==> buf[j] == old(buf[j])
    {
      StoreBlock(isa, buf, i, i + w);
      i := i + w;
    }
    while i < n
      invariant 0 <= i <= n
      invariant forall j :: 0 <= j < i ==> buf[j] == FoldByte(old(buf[j]))
      invariant forall j :: i <= j < buf.Length ==> buf[j] == old(buf[j])
    {
      buf[i] := FoldByte(buf[i]);
      i := i + 1;
    }
  }

  /** Load, fold and store one vector. */
  method StoreBlock(isa: Isa, buf: array<Byte>, lo: nat, hi: nat)
    requires lo <= hi <= buf.Length
    modifies buf
    ensures forall j :: lo <= j < hi ==> buf[j] == FoldByte(old(buf[j]))
    ensures forall j :: 0 <= j < lo || hi <= j < buf.Length ==> buf[j] == old(buf[j])
  {
    forall v: Byte ensures FoldLane(isa, v) == FoldByte(v) { LaneIsScalar(isa, v); }
    forall j | lo <= j < hi {
      buf[j] := FoldLane(isa, buf[j]);
    }
  }

  /** Lower `src` into the front of `dst`, or decline when it does not fit. */
  method LowercaseInto(isa: Isa, src: seq<Byte>, dst: array<Byte>) returns (ok: bool)
    modifies dst
    ensures ok <==> |src| <= dst.Length
    ensures ok ==> dst[..] == Fold(src) + old(dst[|src|..])
    ensures !ok ==> dst[..] == old(dst[..])
  {
    if dst.Length < |src| {
      return false;
    }
    forall i | 0 <= i < |src| {
      dst[i] := src[i];
    }
    assert dst[..|src|] == src && dst[|src|..] == old(dst[|src|..]);
    LowercaseBlocks(isa, dst, |src|);
    ok := true;
  }

  // ----- the same folding on text ----------------------------------------------------

  function TextOf(s: seq<Byte>): (r: string)
    ensures |r| == |s|
  {
    seq(|s|, i requires 0 <= i < |s| => s[i] as char)
  }

  function BytesOf(s: string): (r: seq<Byte>)
    requires Octets(s)
    ensures |r| == |s|
  {
    seq(|s|, i requires 0 <= i < |s| => ByteOf(s[i] as int))
  }

  lemma ByteChar(c: char)
    requires c as int < 256
    ensures ByteOf(c as int) as char == c
  {
    ByteValue(c as int);
  }

  lemma BytesBack(s: string)
    requires Octets(s)
    ensures TextOf(BytesOf(s)) == s
  {
    forall i | 0 <= i < |s| ensures TextOf(BytesOf(s))[i] == s[i] { ByteChar(s[i]); }
  }

  lemma FoldIsLower(b: Byte)
    ensures FoldByte(b) as char == LowerChar(b as char)
  {
  }

  /** Byte folding is the text folding that route lookup normalizes hosts with. */
  lemma FoldText(s: seq<Byte>)
    ensures TextOf(Fold(s)) == Lower(TextOf(s))
  {
    forall i | 0 <= i < |s| ensures TextOf(Fold(s))[i] == Lower(TextOf(s))[i] { FoldIsLower(s[i]); }
  }

  lemma CharInjective(a: Byte, b: Byte)
    requires a as char == b as char
    ensures a == b
  {
  }

  lemma TextInjective(x: seq<Byte>, y: seq<Byte>)
    requires TextOf(x) == TextOf(y)
    ensures x == y
  {
    assert |TextOf(x)| == |TextOf(y)|;
    forall i | 0 <= i < |x| ensures x[i] == y[i] {
      assert TextOf(x)[i] == TextOf(y)[i];
      CharInjective(x[i], y[i]);
    }
  }

  lemma FoldEqual(x: seq<Byte>, y: seq<Byte>)
    ensures Fold(x) == Fold(y) <==> EqScalar(x, y)
  {
    if Fold(x) == Fold(y) {
      assert |Fold(x)| == |Fold(y)|;
      forall i | 0 <= i < |x| ensures FoldByte(x[i]) == FoldByte(y[i]) { assert Fold(x)[i] == Fold(y)[i]; }
    }
  }

  lemma EqBytes(x: seq<Byte>, y: seq<Byte>)
    ensures EqScalar(x, y) <==> EqCi(TextOf(x), TextOf(y))
  {
    FoldText(x);
    FoldText(y);
    FoldEqual(x, y);
    if TextOf(Fold(x)) == TextOf(Fold(y)) { TextInjective(Fold(x), Fold(y)); }
  }

  /** The byte comparison decides whether two texts agree up to ASCII case. */
  lemma EqTexts(a: string, b: string)
    requires Octets(a) && Octets(b)
    ensures EqScalar(BytesOf(a), BytesOf(b)) <==> EqCi(a, b)
  {
    BytesBack(a);
    BytesBack(b);
    EqBytes(BytesOf(a), BytesOf(b));
  }
}
