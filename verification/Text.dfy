/** Byte strings: one `char` stands for one byte of the wire or of a Rust string. */
module Text {

  datatype Option<+T> = None | Some(value: T)

  function LowerChar(c: char): char {
    if 'A' <= c <= 'Z' then (c as int + 32) as char else c
  }

  /** ASCII lowercase, byte by byte. */
  function Lower(s: string): (r: string)
    ensures |r| == |s|
    ensures forall i :: 0 <= i < |s| ==> r[i] == LowerChar(s[i])
  {
    seq(|s|, i requires 0 <= i < |s| => LowerChar(s[i]))
  }

  /** A string whose characters are bytes. */
  predicate Octets(s: string) {
    forall i :: 0 <= i < |s| ==> s[i] as int < 256
  }

  /** `eq_ignore_ascii_case`. */
  predicate EqCi(a: string, b: string) {
    Lower(a) == Lower(b)
  }

  /** Position of the first `c`, or `|s|` when there is none (`memchr`). */
  function IndexOf(s: string, c: char): (i: nat)
    ensures i <= |s|
    ensures i < |s| ==> s[i] == c
    ensures forall j :: 0 <= j < i ==> s[j] != c
  {
    if s == [] then 0
    else if s[0] == c then 0
    else 1 + IndexOf(s[1..], c)
  }

  predicate EndsWith(s: string, suffix: string) {
    |suffix| <= |s| && s[|s| - |suffix|..] == suffix
  }

  /** `trim_end_matches`. */
  function TrimEnd(s: string, c: char): (r: string)
    ensures r <= s
    ensures r != [] ==> r[|r| - 1] != c
    ensures forall i :: |r| <= i < |s| ==> s[i] == c
  {
    if s != [] && s[|s| - 1] == c then TrimEnd(s[..|s| - 1], c) else s
  }

  /** The decimal text of a number. */
  function Decimal(n: int): string
    decreases n < 0, if n < 0 then -n else n
  {
    if n < 0 then "-" + Decimal(-n)
    else if n < 10 then [('0' as int + n) as char]
    else Decimal(n / 10) + Decimal(n % 10)
  }

  /** Optional whitespace of a header field, or ASCII whitespace as `trim_ascii` has it. */
  datatype Blank = Ows | AsciiSpace

  predicate IsOws(c: char) {
    c == ' ' || c == '\t'
  }

  predicate IsAsciiSpace(c: char) {
    IsOws(c) || c == '\n' || c == '\r' || c == 12 as char
  }

  predicate IsBlank(c: char, k: Blank) {
    if k == Ows then IsOws(c) else IsAsciiSpace(c)
  }

  function DropLeading(s: string, k: Blank): (r: string)
    ensures |r| <= |s|
  {
    if s != [] && IsBlank(s[0], k) then DropLeading(s[1..], k) else s
  }

  function DropTrailing(s: string, k: Blank): (r: string)
    ensures |r| <= |s|
  {
    if s != [] && IsBlank(s[|s| - 1], k) then DropTrailing(s[..|s| - 1], k) else s
  }

  /** What is dropped is blank, what is left is the rest and does not start with a blank. */
  lemma {:induction false} DropLeadingShape(s: string, k: Blank)
    ensures var r := DropLeading(s, k);
            && r == s[|s| - |r|..]
            && (r != [] ==> !IsBlank(r[0], k))
            && forall i :: 0 <= i < |s| - |r| ==> IsBlank(s[i], k)
  {
    if s != [] && IsBlank(s[0], k) {
      DropLeadingShape(s[1..], k);
      var r := DropLeading(s, k);
      forall i | 0 <= i < |s| - |r| ensures IsBlank(s[i], k) { if i > 0 { assert s[i] == s[1..][i - 1]; } }
    }
  }

  lemma {:induction false} DropTrailingShape(s: string, k: Blank)
    ensures var r := DropTrailing(s, k);
            && r <= s
            && (r != [] ==> !IsBlank(r[|r| - 1], k))
            && forall i :: |r| <= i < |s| ==> IsBlank(s[i], k)
  {
    if s != [] && IsBlank(s[|s| - 1], k) {
      DropTrailingShape(s[..|s| - 1], k);
      var r := DropTrailing(s, k);
      forall i | |r| <= i < |s| ensures IsBlank(s[i], k) { if i < |s| - 1 { assert s[i] == s[..|s| - 1][i]; } }
    }
  }

  function Trim(s: string, k: Blank): string {
    DropTrailing(DropLeading(s, k), k)
  }

  /** The pieces between occurrences of `c`; always at least one. */
  function Split(s: string, c: char): (r: seq<string>)
    ensures |r| >= 1
  {
    var i := IndexOf(s, c);
    if i == |s| then [s] else [s[..i]] + Split(s[i + 1..], c)
  }

  function FlatMap(ts: seq<string>, f: string -> seq<string>): seq<string> {
    if ts == [] then [] else f(ts[0]) + FlatMap(ts[1..], f)
  }
}
