/** Validity of UTF-8 (section 3 of RFC 3629), by the encoding of scalar values. */
module Utf8 {
  import opened Text
  import opened Http1

  /** Unicode scalar values: code points without the surrogates. */
  predicate IsScalar(cp: nat) {
    cp < 0xD800 || 0xE000 <= cp < 0x11_0000
  }

  function Byte(n: nat): char
    requires n < 256
  {
    n as char
  }

  /** A continuation byte holds six bits. */
  function Tail(n: nat): char {
    Byte(0x80 + n % 64)
  }

  function Encode(cp: nat): string
    requires IsScalar(cp)
  {
    if cp < 0x80 then [Byte(cp)]
    else if cp < 0x800 then [Byte(0xC0 + cp / 64), Tail(cp)]
    else if cp < 0x1_0000 then [Byte(0xE0 + cp / 4096), Tail(cp / 64), Tail(cp)]
    else [Byte(0xF0 + cp / 262144), Tail(cp / 4096), Tail(cp / 64), Tail(cp)]
  }

  lemma Two(cp: nat, a: nat, l: nat)
    requires cp == 64 * a + l && l < 64
    ensures cp / 64 == a && cp % 64 == l
  {
  }

  lemma Three(cp: nat, a: nat, m: nat, l: nat)
    requires cp == 4096 * a + 64 * m + l && m < 64 && l < 64
    ensures cp / 4096 == a && cp / 64 % 64 == m && cp % 64 == l
  {
    Two(cp, 64 * a + m, l);
    Two(64 * a + m, a, m);
  }

  lemma Four(cp: nat, a: nat, h: nat, m: nat, l: nat)
    requires cp == 262144 * a + 4096 * h + 64 * m + l && h < 64 && m < 64 && l < 64
    ensures cp / 262144 == a && cp / 4096 % 64 == h && cp / 64 % 64 == m && cp % 64 == l
  {
    Three(cp, 64 * a + h, m, l);
    Two(64 * a + h, a, h);
  }

  lemma TwoInFront(cp: nat, rest: string)
    requires 0x80 <= cp < 0x800
    ensures ValidUtf8(Encode(cp) + rest) <==> ValidUtf8(rest)
  {
    assert (Encode(cp) + rest)[2..] == rest;
  }

  lemma ThreeInFront(cp: nat, rest: string)
    requires 0x800 <= cp < 0x1_0000 && IsScalar(cp)
    ensures ValidUtf8(Encode(cp) + rest) <==> ValidUtf8(rest)
  {
    var s := Encode(cp) + rest;
    var a, m := cp / 4096, cp / 64 % 64;
    Three(cp, a, m, cp % 64);
    assert s[0] as int == 0xE0 + a && s[1] as int == 0x80 + m && IsCont(s[1]) && IsCont(s[2]);
    assert a == 0 ==> m >= 32;
    assert a == 13 ==> m < 32;
    assert s[3..] == rest;
  }

  lemma FourRange(cp: nat, a: nat, h: nat)
    requires 0x1_0000 <= cp < 0x11_0000 && a == cp / 262144 && h == cp / 4096 % 64
    ensures a <= 4 && (a == 0 ==> h >= 16) && (a == 4 ==> h < 16)
  {
    var q := cp / 4096;
    assert 16 <= q < 272 && q / 64 == a;
  }

  lemma FourInFront(cp: nat, rest: string)
    requires 0x1_0000 <= cp < 0x11_0000
    ensures ValidUtf8(Encode(cp) + rest) <==> ValidUtf8(rest)
  {
    var s := Encode(cp) + rest;
    var a, h := cp / 262144, cp / 4096 % 64;
    FourRange(cp, a, h);
    assert s[0] as int == 0xF0 + a && s[1] as int == 0x80 + h && IsCont(s[1]) && IsCont(s[2]) && IsCont(s[3]);
    assert s[4..] == rest;
  }

  /** Putting the encoding of a scalar value in front keeps a text valid or invalid. */
  lemma EncodingInFront(cp: nat, rest: string)
    requires IsScalar(cp)
    ensures ValidUtf8(Encode(cp) + rest) <==> ValidUtf8(rest)
  {
    if cp < 0x80 {
      assert (Encode(cp) + rest)[1..] == rest;
    } else if cp < 0x800 {
      TwoInFront(cp, rest);
    } else if cp < 0x1_0000 {
      ThreeInFront(cp, rest);
    } else {
      FourInFront(cp, rest);
    }
  }

  /** A valid text starts with the encoding of a scalar value. */
  lemma StartsWithEncoding(s: string) returns (cp: nat)
    requires ValidUtf8(s) && s != ""
    ensures IsScalar(cp) && Encode(cp) <= s
  {
    var b := s[0] as int;
    if b < 0x80 {
      cp := b;
      assert s[..1] == Encode(cp);
    } else if b <= 0xDF {
      var a, l := b - 0xC0, s[1] as int - 0x80;
      cp := 64 * a + l;
      Two(cp, a, l);
      assert s[..2] == Encode(cp);
    } else if b <= 0xEF {
      var a, m, l := b - 0xE0, s[1] as int - 0x80, s[2] as int - 0x80;
      cp := 4096 * a + 64 * m + l;
      Three(cp, a, m, l);
      assert s[..3] == Encode(cp);
    } else {
      var a, h, m, l := b - 0xF0, s[1] as int - 0x80, s[2] as int - 0x80, s[3] as int - 0x80;
      cp := 262144 * a + 4096 * h + 64 * m + l;
      Four(cp, a, h, m, l);
      assert s[..4] == Encode(cp);
    }
  }

  function EncodeAll(cps: seq<nat>): string
    requires forall i :: 0 <= i < |cps| ==> IsScalar(cps[i])
  {
    if cps == [] then "" else Encode(cps[0]) + EncodeAll(cps[1..])
  }

  lemma {:induction false} EncodingsValid(cps: seq<nat>)
    requires forall i :: 0 <= i < |cps| ==> IsScalar(cps[i])
    ensures ValidUtf8(EncodeAll(cps))
  {
    if cps != [] {
      EncodingsValid(cps[1..]);
      EncodingInFront(cps[0], EncodeAll(cps[1..]));
    }
  }

  /** A text is valid exactly if it is the encoding of some scalar values. */
  lemma {:induction false} ValidIsEncoded(s: string) returns (cps: seq<nat>)
    requires ValidUtf8(s)
    ensures (forall i :: 0 <= i < |cps| ==> IsScalar(cps[i])) && EncodeAll(cps) == s
    decreases |s|
  {
    if s == "" {
      cps := [];
    } else {
      var cp := StartsWithEncoding(s);
      var rest := s[|Encode(cp)|..];
      assert s == Encode(cp) + rest;
      EncodingInFront(cp, rest);
      var more := ValidIsEncoded(rest);
      cps := [cp] + more;
      assert cps[1..] == more;
    }
  }

  // ----- white space ---------------------------------------------------------------

  /** The property White_Space of the Unicode character database. */
  predicate White(cp: nat) {
    || 9 <= cp <= 13 || cp == 32 || cp == 0x85 || cp == 0xA0 || cp == 0x1680 || 0x2000 <= cp <= 0x200A
    || cp == 0x2028 || cp == 0x2029 || cp == 0x202F || cp == 0x205F || cp == 0x3000
  }

  ghost predicate Scalars(cps: seq<nat>) {
    forall i :: 0 <= i < |cps| ==> IsScalar(cps[i])
  }

  ghost predicate AllWhite(cps: seq<nat>) {
    forall i :: 0 <= i < |cps| ==> White(cps[i])
  }

  lemma LeadingShort(cp: nat, rest: string)
    requires cp < 0x800
    ensures LeadingSpace(Encode(cp) + rest) == if White(cp) then |Encode(cp)| else 0
  {
  }

  lemma LeadingLong(cp: nat, rest: string)
    requires IsScalar(cp) && cp >= 0x800
    ensures LeadingSpace(Encode(cp) + rest) == if White(cp) then |Encode(cp)| else 0
  {
  }

  /** Byte by byte, a scalar value in front is white space or it is not. */
  lemma LeadingIs(cp: nat, rest: string)
    requires IsScalar(cp)
    ensures LeadingSpace(Encode(cp) + rest) == if White(cp) then |Encode(cp)| else 0
  {
    if cp < 0x800 { LeadingShort(cp, rest); } else { LeadingLong(cp, rest); }
  }

  lemma TrailingIs(cp: nat, before: string)
    requires IsScalar(cp)
    ensures TrailingSpace(before + Encode(cp)) == if White(cp) then |Encode(cp)| else 0
  {
  }

  lemma Regroup(a: string, b: string, c: string)
    ensures a + (b + c) == (a + b) + c
  {
  }

  lemma {:induction false} EncodeSnoc(cps: seq<nat>)
    requires cps != [] && Scalars(cps)
    ensures EncodeAll(cps) == EncodeAll(cps[..|cps| - 1]) + Encode(cps[|cps| - 1])
  {
    var e := |cps| - 1;
    if e == 0 {
      assert cps[..0] == [] && cps[1..] == [];
    } else {
      var rest := cps[1..];
      EncodeSnoc(rest);
      assert rest[..e - 1] == cps[..e][1..] && rest[e - 1] == cps[e];
      assert EncodeAll(cps[..e]) == Encode(cps[0]) + EncodeAll(rest[..e - 1]);
      Regroup(Encode(cps[0]), EncodeAll(rest[..e - 1]), Encode(cps[e]));
    }
  }

  lemma TrimOneFront(cp: nat, rest: string)
    requires IsScalar(cp) && White(cp)
    ensures TrimText(Encode(cp) + rest) == TrimText(rest)
  {
    LeadingIs(cp, rest);
    assert (Encode(cp) + rest)[|Encode(cp)|..] == rest;
  }

  lemma TrimOneBack(first: nat, before: string, cp: nat, s: string)
    requires IsScalar(first) && !White(first) && IsScalar(cp) && White(cp)
    requires Encode(first) <= s && s == before + Encode(cp)
    ensures TrimText(s) == TrimText(before)
  {
    LeadingIs(first, s[|Encode(first)|..]);
    assert s == Encode(first) + s[|Encode(first)|..];
    TrailingIs(cp, before);
    assert s[..|s| - |Encode(cp)|] == before;
  }

  lemma TrimNothing(first: nat, before: string, cp: nat, s: string)
    requires IsScalar(first) && !White(first) && IsScalar(cp) && !White(cp)
    requires Encode(first) <= s && s == before + Encode(cp)
    ensures TrimText(s) == s
  {
    LeadingIs(first, s[|Encode(first)|..]);
    assert s == Encode(first) + s[|Encode(first)|..];
    TrailingIs(cp, before);
  }

  /** `cps[i..j]` is `cps` without the white space at both ends. */
  ghost predicate Trims(cps: seq<nat>, i: nat, j: nat) {
    && i <= j <= |cps| && AllWhite(cps[..i]) && AllWhite(cps[j..])
    && (i < j ==> !White(cps[i]) && !White(cps[j - 1]))
  }

  lemma SliceOfRest(cps: seq<nat>, i: nat, j: nat)
    requires i <= j < |cps|
    ensures cps[i + 1..j + 1] == cps[1..][i..j]
  {
    var a, b := cps[i + 1..j + 1], cps[1..][i..j];
    assert |a| == |b|;
    forall k | 0 <= k < |a| ensures a[k] == b[k] { assert a[k] == cps[i + 1 + k]; }
  }

  lemma TrimsCons(cps: seq<nat>, i: nat, j: nat)
    requires cps != [] && White(cps[0]) && Trims(cps[1..], i, j)
    ensures Trims(cps, i + 1, j + 1) && cps[i + 1..j + 1] == cps[1..][i..j]
  {
    assert cps[..i + 1] == [cps[0]] + cps[1..][..i];
    assert cps[j + 1..] == cps[1..][j..];
    if i < j { assert cps[i + 1] == cps[1..][i] && cps[j] == cps[1..][j - 1]; }
    SliceOfRest(cps, i, j);
  }

  lemma TrimsSnoc(cps: seq<nat>, i: nat, j: nat)
    requires cps != [] && White(cps[|cps| - 1]) && Trims(cps[..|cps| - 1], i, j)
    ensures Trims(cps, i, j) && cps[i..j] == cps[..|cps| - 1][i..j]
  {
    var e := |cps| - 1;
    assert cps[..i] == cps[..e][..i];
    assert cps[j..] == cps[..e][j..] + [cps[e]];
  }

  lemma DropLast(cps: seq<nat>)
    requires cps != [] && Scalars(cps) && !White(cps[0]) && White(cps[|cps| - 1])
    ensures TrimText(EncodeAll(cps)) == TrimText(EncodeAll(cps[..|cps| - 1]))
  {
    var e := |cps| - 1;
    EncodeSnoc(cps);
    TrimOneBack(cps[0], EncodeAll(cps[..e]), cps[e], EncodeAll(cps));
  }

  lemma KeepAll(cps: seq<nat>)
    requires Scalars(cps) && (cps != [] ==> !White(cps[0]) && !White(cps[|cps| - 1]))
    ensures TrimText(EncodeAll(cps)) == EncodeAll(cps)
  {
    if cps != [] {
      var e := |cps| - 1;
      EncodeSnoc(cps);
      TrimNothing(cps[0], EncodeAll(cps[..e]), cps[e], EncodeAll(cps));
    }
  }

  /** Trimming the bytes of a text removes exactly the white space characters at both ends. */
  lemma {:induction false} TrimTextIs(cps: seq<nat>) returns (i: nat, j: nat)
    requires Scalars(cps)
    ensures Trims(cps, i, j) && TrimText(EncodeAll(cps)) == EncodeAll(cps[i..j])
    decreases |cps|
  {
    if cps != [] && White(cps[0]) {
      i, j := TrimTextIs(cps[1..]);
      TrimOneFront(cps[0], EncodeAll(cps[1..]));
      TrimsCons(cps, i, j);
      i, j := i + 1, j + 1;
    } else if cps != [] && White(cps[|cps| - 1]) {
      i, j := TrimTextIs(cps[..|cps| - 1]);
      DropLast(cps);
      TrimsSnoc(cps, i, j);
    } else {
      i, j := 0, |cps|;
      KeepAll(cps);
      assert cps[0..|cps|] == cps && cps[..0] == [] && cps[|cps|..] == [];
    }
  }
}
