/** The multiply-rotate hasher of the routing hot path. */
module FxHash {
  import opened Bytes

  /** 64-bit words and bytes as integers; wrap-around is written out. */
  const WORD_RANGE: nat := 0x1_0000_0000_0000_0000
  type Word = n: nat | n < WORD_RANGE
  type Byte = n: nat | n < 256

  const SEED: Word := 0x517c_c1b7_2722_0a95
  /** The multiplicative inverse of SEED modulo the word range. */
  const SEED_INVERSE: Word := 0x2040_003d_7809_70bd

  /** Byte order of `from_ne_bytes` on the target. */
  datatype Order = Little | Big

  /** Exclusive or of the lowest `bits` bits. */
  function XorBits(a: nat, b: nat, bits: nat): (r: nat)
    ensures r < Pow2(bits)
  {
    if bits == 0 then 0 else (a % 2 + b % 2) % 2 + 2 * XorBits(a / 2, b / 2, bits - 1)
  }

  lemma Pow2Of64()
    ensures Pow2(64) == WORD_RANGE
  {
    assert Pow2(8) == 0x100;
    assert Pow2(16) == 0x1_0000;
    assert Pow2(24) == 0x100_0000;
    assert Pow2(32) == 0x1_0000_0000;
    assert Pow2(40) == 0x100_0000_0000;
    assert Pow2(48) == 0x1_0000_0000_0000;
    assert Pow2(56) == 0x100_0000_0000_0000;
  }

  function Xor(a: Word, b: Word): Word {
    Pow2Of64();
    XorBits(a, b, 64)
  }

  function RotateLeft5(h: Word): Word {
    (h * 32) % WORD_RANGE + h / 0x800_0000_0000_0000
  }

  function RotateRight5(h: Word): Word {
    h / 32 + (h % 32) * 0x800_0000_0000_0000
  }

  function WrappingMul(a: Word, b: Word): Word {
    (a * b) % WORD_RANGE
  }

  function Mix(hash: Word, word: Word): Word {
    WrappingMul(Xor(RotateLeft5(hash), word), SEED)
  }

  // ----- chunks and words --------------------------------------------------------

  /** What is left after the eights: at most a four, a two and a one. */
  function Tail(bytes: seq<Byte>): seq<seq<Byte>>
    requires |bytes| < 8
  {
    if bytes == [] then []
    else
      var n := TailSize(bytes);
      [bytes[..n]] + Tail(bytes[n..])
  }

  function TailSize(bytes: seq<Byte>): (n: nat)
    requires 0 < |bytes| < 8
    ensures 1 <= n <= |bytes| && (n == 4 || n == 2 || n == 1)
  {
    if |bytes| >= 4 then 4 else if |bytes| >= 2 then 2 else 1
  }

  /** The chunks `write` consumes. */
  function Chunks(bytes: seq<Byte>): seq<seq<Byte>> {
    if |bytes| >= 8 then [bytes[..8]] + Chunks(bytes[8..]) else Tail(bytes)
  }

  /** Little-endian value of a few bytes. */
  function LittleValue(c: seq<Byte>): (w: nat)
    ensures w < Pow2(8 * |c|)
  {
    if c == [] then 0
    else
      Pow2Step(|c| - 1);
      c[0] + 256 * LittleValue(c[1..])
  }

  lemma Pow2Step(n: nat)
    ensures Pow2(8 * (n + 1)) == 256 * Pow2(8 * n)
  {
    Pow2Four(8 * n);
    Pow2Four(8 * n + 4);
  }

  lemma Pow2Four(k: nat)
    ensures Pow2(k + 4) == 16 * Pow2(k)
  {
    assert Pow2(k + 1) == 2 * Pow2(k);
    assert Pow2(k + 2) == 2 * Pow2(k + 1);
    assert Pow2(k + 3) == 2 * Pow2(k + 2);
  }

  function Reverse(c: seq<Byte>): (r: seq<Byte>)
    ensures |r| == |c| && forall i :: 0 <= i < |c| ==> r[i] == c[|c| - 1 - i]
  {
    seq(|c|, i requires 0 <= i < |c| => c[|c| - 1 - i])
  }

  /** The native-endian integer of a chunk, widened to 64 bits. */
  function WordOf(chunk: seq<Byte>, order: Order): Word
    requires |chunk| <= 8
  {
    var c := if order == Little then chunk else Reverse(chunk);
    Pow2Of64();
    Pow2Monotone(8 * |c|, 64);
    LittleValue(c)
  }

  lemma {:induction false} Pow2Monotone(a: nat, b: nat)
    requires a <= b
    ensures Pow2(a) <= Pow2(b)
    decreases b
  {
    if a < b { Pow2Monotone(a, b - 1); }
  }

  lemma {:induction false} LittleInjective(a: seq<Byte>, b: seq<Byte>)
    requires |a| == |b| && LittleValue(a) == LittleValue(b)
    ensures a == b
  {
    if a != [] {
      LittleInjective(a[1..], b[1..]);
      assert a == [a[0]] + a[1..] && b == [b[0]] + b[1..];
    }
  }

  lemma ReverseInjective(a: seq<Byte>, b: seq<Byte>)
    requires |a| == |b| && Reverse(a) == Reverse(b)
    ensures a == b
  {
    forall i | 0 <= i < |a| ensures a[i] == b[i] {
      assert Reverse(a)[|a| - 1 - i] == a[i] && Reverse(b)[|a| - 1 - i] == b[i];
    }
  }

  /** Different chunks of one size become different words, in either byte order. */
  lemma WordInjective(a: seq<Byte>, b: seq<Byte>, order: Order)
    requires |a| == |b| <= 8 && WordOf(a, order) == WordOf(b, order)
    ensures a == b
  {
    if order == Little {
      LittleInjective(a, b);
    } else {
      LittleInjective(Reverse(a), Reverse(b));
      ReverseInjective(a, b);
    }
  }

  function Join(cs: seq<seq<Byte>>): seq<Byte> {
    if cs == [] then [] else cs[0] + Join(cs[1..])
  }

  lemma {:induction false} TailShape(bytes: seq<Byte>)
    requires |bytes| < 8
    ensures Short(Tail(bytes)) && Join(Tail(bytes)) == bytes
  {
    if bytes != [] {
      var n := TailSize(bytes);
      TailShape(bytes[n..]);
      assert Tail(bytes)[1..] == Tail(bytes[n..]);
      assert bytes[..n] + bytes[n..] == bytes;
    }
  }

  /** The chunks are short and put together again are the input. */
  lemma {:induction false} ChunkShape(bytes: seq<Byte>)
    ensures Short(Chunks(bytes)) && Join(Chunks(bytes)) == bytes
  {
    if |bytes| >= 8 {
      ChunkShape(bytes[8..]);
      assert Chunks(bytes)[1..] == Chunks(bytes[8..]);
      assert bytes[..8] + bytes[8..] == bytes;
    } else {
      TailShape(bytes);
    }
  }

  lemma {:induction false} SameTails(a: seq<Byte>, b: seq<Byte>)
    requires |a| == |b| < 8
    ensures |Tail(a)| == |Tail(b)|
    ensures forall k :: 0 <= k < |Tail(a)| ==> |Tail(a)[k]| == |Tail(b)[k]|
  {
    if a != [] { SameTails(a[TailSize(a)..], b[TailSize(b)..]); }
  }

  /** Equal-length strings are cut at the same places. */
  lemma {:induction false} SameCuts(a: seq<Byte>, b: seq<Byte>)
    requires |a| == |b|
    ensures |Chunks(a)| == |Chunks(b)|
    ensures forall k :: 0 <= k < |Chunks(a)| ==> |Chunks(a)[k]| == |Chunks(b)[k]|
  {
    if |a| >= 8 { SameCuts(a[8..], b[8..]); } else { SameTails(a, b); }
  }

  ghost predicate Short(cs: seq<seq<Byte>>) {
    forall k :: 0 <= k < |cs| ==> |cs[k]| <= 8
  }

  function WordsOf(cs: seq<seq<Byte>>, order: Order): (ws: seq<Word>)
    requires Short(cs)
    ensures |ws| == |cs|
  {
    seq(|cs|, k requires 0 <= k < |cs| => WordOf(cs[k], order))
  }

  /** Everything `write` absorbs: the length, then one word per chunk. */
  function Words(bytes: seq<Byte>, order: Order): (ws: seq<Word>)
    ensures |ws| == 1 + |Chunks(bytes)|
  {
    ChunkShape(bytes);
    [|bytes| % WORD_RANGE] + WordsOf(Chunks(bytes), order)
  }

  function Absorb(hash: Word, ws: seq<Word>): Word
    decreases |ws|
  {
    if ws == [] then hash else Absorb(Mix(hash, ws[0]), ws[1..])
  }

  function HashOf(bytes: seq<Byte>, order: Order): Word {
    Absorb(SEED, Words(bytes, order))
  }

  class FxHasher {
    var hash: Word

    constructor ()
      ensures hash == SEED
    {
      hash := SEED;
    }

    method AddToHash(word: Word)
      modifies this
      ensures hash == Mix(old(hash), word)
    {
      hash := WrappingMul(Xor(RotateLeft5(hash), word), SEED);
    }

    /** Absorb the chunk at the front of `rest`. */
    method AddChunk(rest: seq<Byte>, n: nat, order: Order, ghost cs: seq<seq<Byte>>)
      requires n <= |rest| && n <= 8 && Short(cs) && |cs| > 0 && cs[0] == rest[..n]
      modifies this
      ensures Short(cs[1..]) && Absorb(hash, WordsOf(cs[1..], order)) == Absorb(old(hash), WordsOf(cs, order))
    {
      AddToHash(WordOf(rest[..n], order));
      assert WordsOf(cs, order)[1..] == WordsOf(cs[1..], order);
    }

    /** The length, then eight bytes per step, then the tail in a four, a two and a one. */
    method Write(bytes: seq<Byte>, order: Order)
      modifies this
      ensures hash == Absorb(old(hash), Words(bytes, order))
    {
      ChunkShape(bytes);
      ghost var goal := Absorb(hash, Words(bytes, order));
      assert Words(bytes, order)[1..] == WordsOf(Chunks(bytes), order);
      AddToHash(|bytes| % WORD_RANGE);
      var rest := bytes;
      while |rest| >= 8
        invariant Short(Chunks(rest)) && Absorb(hash, WordsOf(Chunks(rest), order)) == goal
        decreases |rest|
      {
        assert Chunks(rest)[1..] == Chunks(rest[8..]);
        AddChunk(rest, 8, order, Chunks(rest));
        rest := rest[8..];
      }
      if |rest| >= 4 {
        assert Tail(rest)[1..] == Tail(rest[4..]);
        AddChunk(rest, 4, order, Tail(rest));
        rest := rest[4..];
      }
      if |rest| >= 2 {
        assert Tail(rest)[1..] == Tail(rest[2..]);
        AddChunk(rest, 2, order, Tail(rest));
        rest := rest[2..];
      }
      if |rest| >= 1 {
        assert Tail(rest)[1..] == Tail(rest[1..]);
        AddChunk(rest, 1, order, Tail(rest));
        rest := rest[1..];
      }
      assert WordsOf(Tail(rest), order) == [];
    }

    method Finish() returns (h: Word)
      ensures h == hash
    {
      h := hash;
    }
  }

  // ----- mixing is a bijection -----------------------------------------------------

  /** Exclusive or acts bit by bit. */
  lemma XorHalves(a: nat, b: nat, bits: nat)
    requires bits > 0
    ensures XorBits(a, b, bits) % 2 == (a % 2 + b % 2) % 2
    ensures XorBits(a, b, bits) / 2 == XorBits(a / 2, b / 2, bits - 1)
  {
    Halves((a % 2 + b % 2) % 2, XorBits(a / 2, b / 2, bits - 1));
  }

  lemma Halves(low: nat, high: nat)
    requires low < 2
    ensures (low + 2 * high) % 2 == low && (low + 2 * high) / 2 == high
  {
  }

  lemma BitCancel(x: nat, y: nat)
    requires x < 2 && y < 2
    ensures ((x + y) % 2 + y) % 2 == x
  {
  }

  lemma {:induction false} XorCancel(a: nat, b: nat, bits: nat)
    requires a < Pow2(bits)
    ensures XorBits(XorBits(a, b, bits), b, bits) == a
  {
    if bits > 0 {
      XorCancel(a / 2, b / 2, bits - 1);
      XorHalves(a, b, bits);
      BitCancel(a % 2, b % 2);
    }
  }

  lemma {:induction false} XorSymmetric(a: nat, b: nat, bits: nat)
    ensures XorBits(a, b, bits) == XorBits(b, a, bits)
  {
    if bits > 0 { XorSymmetric(a / 2, b / 2, bits - 1); }
  }

  lemma RotateInverse(h: Word)
    ensures RotateRight5(RotateLeft5(h)) == h && RotateLeft5(RotateRight5(h)) == h
  {
    RightAfterLeft(h);
    LeftAfterRight(h);
  }

  lemma RightAfterLeft(h: Word)
    ensures RotateRight5(RotateLeft5(h)) == h
  {
    var q, r := h / 0x800_0000_0000_0000, h % 0x800_0000_0000_0000;
    assert h * 32 == q * WORD_RANGE + 32 * r;
    assert r < 0x800_0000_0000_0000 && 32 * r < WORD_RANGE;
    RemainderOf(h * 32, q, 32 * r);
    assert RotateLeft5(h) == 32 * r + q;
  }

  lemma LeftAfterRight(h: Word)
    ensures RotateLeft5(RotateRight5(h)) == h
  {
    var x: nat := RotateRight5(h);
    assert x * 32 == (h % 32) * WORD_RANGE + 32 * (h / 32);
    assert h / 32 < 0x800_0000_0000_0000 && 32 * (h / 32) < WORD_RANGE;
    RemainderOf(x * 32, h % 32, 32 * (h / 32));
    assert x / 0x800_0000_0000_0000 == h % 32;
  }

  /** Multiplication by the odd seed can be undone. */
  lemma SeedInverse(x: Word)
    ensures WrappingMul(WrappingMul(x, SEED), SEED_INVERSE) == x
    ensures WrappingMul(WrappingMul(x, SEED_INVERSE), SEED) == x
  {
    InverseOf(x, SEED, SEED_INVERSE, 0xa43f77ae39dae8d);
    InverseOf(x, SEED_INVERSE, SEED, 0xa43f77ae39dae8d);
  }

  lemma InverseOf(x: Word, s: Word, t: Word, k: nat)
    requires s * t == k * WORD_RANGE + 1
    ensures WrappingMul(WrappingMul(x, s), t) == x
  {
    var q, r := (x * s) / WORD_RANGE, (x * s) % WORD_RANGE;
    Regroup(x, s, t, q, r, k);
    RemainderOf(r * t, k * x - q * t, x);
  }

  lemma Regroup(x: int, s: int, t: int, q: int, r: int, k: int)
    requires x * s == WORD_RANGE * q + r && s * t == k * WORD_RANGE + 1
    ensures r * t == (k * x - q * t) * WORD_RANGE + x
  {
    calc {
      r * t;
      (x * s - WORD_RANGE * q) * t;
      x * (s * t) - WORD_RANGE * (q * t);
      x * (k * WORD_RANGE + 1) - WORD_RANGE * (q * t);
      (k * x - q * t) * WORD_RANGE + x;
    }
  }

  lemma RemainderOf(n: int, k: int, x: Word)
    requires n == k * WORD_RANGE + x
    ensures n % WORD_RANGE == x
  {
  }

  /** The state before a step, from the state after it. */
  function Unmix(hash: Word, word: Word): Word {
    RotateRight5(Xor(WrappingMul(hash, SEED_INVERSE), word))
  }

  /** The word that takes one state to another. */
  function Bridge(from: Word, to: Word): Word {
    Xor(WrappingMul(to, SEED_INVERSE), RotateLeft5(from))
  }

  lemma XorInverse(a: Word, b: Word)
    ensures Xor(Xor(a, b), b) == a && Xor(Xor(a, b), a) == b && Xor(a, Xor(b, a)) == b
  {
    Pow2Of64();
    XorCancel(a, b, 64);
    XorCancel(b, a, 64);
    XorSymmetric(a, b, 64);
    XorSymmetric(a, Xor(b, a), 64);
  }

  /** Each step is a bijection in the state and in the word. */
  lemma MixBijective(hash: Word, word: Word, target: Word)
    ensures Unmix(Mix(hash, word), word) == hash && Mix(Unmix(target, word), word) == target
    ensures Bridge(hash, Mix(hash, word)) == word && Mix(hash, Bridge(hash, target)) == target
  {
    var r, m := RotateLeft5(hash), WrappingMul(target, SEED_INVERSE);
    RotateInverse(hash);
    RotateInverse(Xor(m, word));
    SeedInverse(Xor(r, word));
    SeedInverse(target);
    XorInverse(r, word);
    XorInverse(m, word);
    XorInverse(r, m);
  }

  lemma {:induction false} AbsorbInjective(h1: Word, h2: Word, ws: seq<Word>)
    requires Absorb(h1, ws) == Absorb(h2, ws)
    ensures h1 == h2
    decreases |ws|
  {
    if ws != [] {
      AbsorbInjective(Mix(h1, ws[0]), Mix(h2, ws[0]), ws[1..]);
      MixBijective(h1, ws[0], 0);
      MixBijective(h2, ws[0], 0);
    }
  }

  ghost predicate DifferOnlyAt<T>(a: seq<T>, b: seq<T>, p: nat) {
    && |a| == |b| && p < |a| && a[p] != b[p]
    && forall k :: 0 <= k < |a| && k != p ==> a[k] == b[k]
  }

  /** Two word sequences that differ in exactly one word never meet again. */
  lemma {:induction false} OneWordDiffers(h: Word, ws: seq<Word>, vs: seq<Word>, p: nat)
    requires DifferOnlyAt(ws, vs, p)
    ensures Absorb(h, ws) != Absorb(h, vs)
    decreases p
  {
    if p > 0 {
      OneWordDiffers(Mix(h, ws[0]), ws[1..], vs[1..], p - 1);
    } else {
      assert ws[1..] == vs[1..];
      MixBijective(h, ws[0], 0);
      MixBijective(h, vs[0], 0);
      if Absorb(h, ws) == Absorb(h, vs) {
        AbsorbInjective(Mix(h, ws[0]), Mix(h, vs[0]), ws[1..]);
      }
    }
  }

  lemma WordsDiffer(a: seq<seq<Byte>>, b: seq<seq<Byte>>, order: Order, p: nat)
    requires Short(a) && Short(b) && DifferOnlyAt(a, b, p) && |a[p]| == |b[p]|
    ensures DifferOnlyAt(WordsOf(a, order), WordsOf(b, order), p)
  {
    if WordsOf(a, order)[p] == WordsOf(b, order)[p] { WordInjective(a[p], b[p], order); }
  }

  lemma PrependSame<T>(x: T, a: seq<T>, b: seq<T>, p: nat)
    requires DifferOnlyAt(a, b, p)
    ensures DifferOnlyAt([x] + a, [x] + b, p + 1)
  {
    assert ([x] + a)[p + 1] == a[p] && ([x] + b)[p + 1] == b[p];
  }

  /**
   * Equal-length byte strings that differ inside exactly one chunk never
   * collide, whatever their length, in either byte order.
   */
  lemma OneChunkNeverCollides(a: seq<Byte>, b: seq<Byte>, order: Order, p: nat)
    requires |a| == |b| && DifferOnlyAt(Chunks(a), Chunks(b), p)
    ensures HashOf(a, order) != HashOf(b, order)
  {
    ChunkShape(a);
    ChunkShape(b);
    SameCuts(a, b);
    WordsDiffer(Chunks(a), Chunks(b), order, p);
    PrependSame(|a| % WORD_RANGE, WordsOf(Chunks(a), order), WordsOf(Chunks(b), order), p);
    OneWordDiffers(SEED, Words(a, order), Words(b, order), p + 1);
  }

  /** Strings of different lengths whose chunk words all agree are kept apart by the length word alone. */
  lemma LengthKeepsApart(a: seq<Byte>, b: seq<Byte>, order: Order)
    requires |a| != |b| && |a| < WORD_RANGE && |b| < WORD_RANGE
    requires |Chunks(a)| == |Chunks(b)| && Short(Chunks(a)) && Short(Chunks(b))
    requires WordsOf(Chunks(a), order) == WordsOf(Chunks(b), order)
    ensures HashOf(a, order) != HashOf(b, order)
  {
    FirstWordDiffers(|a|, |b|, WordsOf(Chunks(a), order));
    WordsInRange(a, order);
    WordsInRange(b, order);
  }

  lemma WordsInRange(a: seq<Byte>, order: Order)
    requires |a| < WORD_RANGE && Short(Chunks(a))
    ensures Words(a, order) == [|a|] + WordsOf(Chunks(a), order)
  {
    RemainderOf(|a|, 0, |a|);
  }

  lemma FirstWordDiffers(x: Word, y: Word, ws: seq<Word>)
    requires x != y
    ensures Absorb(SEED, [x] + ws) != Absorb(SEED, [y] + ws)
  {
    assert DifferOnlyAt([x] + ws, [y] + ws, 0);
    OneWordDiffers(SEED, [x] + ws, [y] + ws, 0);
  }

  lemma {:induction false} XorZero(bits: nat)
    ensures XorBits(0, 0, bits) == 0
  {
    if bits > 0 { XorZero(bits - 1); }
  }

  /** Absorbing a zero leads to zero from zero only. */
  lemma ZeroFromZero(h: Word)
    requires Mix(h, 0) == 0
    ensures h == 0
  {
    MixBijective(h, 0, 0);
    UnmixZero();
  }

  lemma MulZero(b: Word)
    ensures WrappingMul(0, b) == 0
  {
  }

  lemma UnmixZero()
    ensures Unmix(0, 0) == 0
  {
    MulZero(SEED_INVERSE);
    XorZero(64);
    assert Xor(0, 0) == 0;
  }

  /** The empty input does not hash to zero. */
  lemma EmptyNotZero(order: Order)
    ensures HashOf([], order) != 0
  {
    assert Words([], order) == [0];
    assert [0][1..] == [];
    if Mix(SEED, 0) == 0 { ZeroFromZero(SEED); }
  }
}
