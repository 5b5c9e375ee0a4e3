/** Bytes, ASCII literals, decimal rendering and UTF-8 well-formedness: the
    vocabulary every other module of the firmware model is written in. */
module ByteText {

  /** One octet of a `&str`, a `heapless::String` or a received chunk. */
  type Byte = b: int | 0 <= b < 256

  /** A `u16` and a `u32` of the firmware. */
  type U16 = x: int | 0 <= x < 0x1_0000
  type U32 = x: int | 0 <= x < 0x1_0000_0000

  const U32Modulus: int := 0x1_0000_0000

  datatype Option<T> = None | Some(value: T)

  const CR: Byte := 0x0D
  const LF: Byte := 0x0A

  function Min(a: int, b: int): int { if a <= b then a else b }

  /** The bytes of a string literal of the source; every literal used in the
      model is ASCII, for which this is its UTF-8 encoding. */
  function Ascii(s: string): (r: seq<Byte>)
    ensures |r| == |s|
  {
    seq(|s|, i requires 0 <= i < |s| => (s[i] as int) % 256)
  }

  /** The newline `writeln!` appends. */
  const Newline: seq<Byte> := Ascii("\n")

  predicate IsAscii(s: seq<Byte>)
  {
    forall i :: 0 <= i < |s| ==> s[i] < 0x80
  }

  /** The concatenation of a sequence of byte strings. */
  function Flatten(pieces: seq<seq<Byte>>): (r: seq<Byte>)
    decreases |pieces|
  {
    if pieces == [] then [] else pieces[0] + Flatten(pieces[1..])
  }

  lemma {:induction false} FlattenAppend(a: seq<seq<Byte>>, b: seq<seq<Byte>>)
    ensures Flatten(a + b) == Flatten(a) + Flatten(b)
    decreases |a|
  {
    if a == [] {
      assert a + b == b;
    } else {
      assert (a + b)[1..] == a[1..] + b;
      FlattenAppend(a[1..], b);
    }
  }

  lemma FlattenFrom(p: seq<seq<Byte>>, i: nat)
    requires i < |p|
    ensures Flatten(p[i..]) == p[i] + Flatten(p[i + 1..])
  {
    assert p[i..][1..] == p[i + 1..];
  }

  lemma FlattenTwo(a: seq<Byte>, b: seq<Byte>)
    ensures Flatten([a, b]) == a + b
  {
    var p := [a, b];
    var none: seq<seq<Byte>> := [];
    assert p[2..] == none;
    FlattenFrom(p, 1);
    FlattenFrom(p, 0);
    assert p[0..] == p;
  }

  lemma FlattenThree(a: seq<Byte>, b: seq<Byte>, c: seq<Byte>)
    ensures Flatten([a, b, c]) == a + b + c
  {
    var p := [a, b, c];
    var none: seq<seq<Byte>> := [];
    assert p[3..] == none;
    FlattenFrom(p, 2);
    FlattenFrom(p, 1);
    FlattenFrom(p, 0);
    assert p[0..] == p;
  }

  lemma FlattenFive(a: seq<Byte>, b: seq<Byte>, c: seq<Byte>, d: seq<Byte>, e: seq<Byte>)
    ensures Flatten([a, b, c, d, e]) == a + b + c + d + e
  {
    var p := [a, b, c, d, e];
    var none: seq<seq<Byte>> := [];
    assert p[5..] == none;
    FlattenFrom(p, 4);
    FlattenFrom(p, 3);
    FlattenFrom(p, 2);
    FlattenFrom(p, 1);
    FlattenFrom(p, 0);
    assert p[0..] == p;
  }

  lemma FlattenNine(a: seq<Byte>, b: seq<Byte>, c: seq<Byte>, d: seq<Byte>, e: seq<Byte>,
                    f: seq<Byte>, g: seq<Byte>, h: seq<Byte>, i: seq<Byte>)
    ensures Flatten([a, b, c, d, e, f, g, h, i]) == a + b + c + d + e + f + g + h + i
  {
    var p := [a, b, c, d, e, f, g, h, i];
    FlattenAppend([a, b, c, d, e], [f, g, h, i]);
    assert p == [a, b, c, d, e] + [f, g, h, i];
    FlattenFive(a, b, c, d, e);
    var q := [f, g, h, i];
    var none: seq<seq<Byte>> := [];
    assert q[4..] == none;
    FlattenFrom(q, 3);
    FlattenFrom(q, 2);
    FlattenFrom(q, 1);
    FlattenFrom(q, 0);
    assert q[0..] == q;
  }

  /** One more piece on the right. */
  lemma FlattenSnoc(p: seq<seq<Byte>>, k: nat)
    requires k < |p|
    ensures Flatten(p[..k + 1]) == Flatten(p[..k]) + p[k]
  {
    FlattenAppend(p[..k], [p[k]]);
    assert p[..k + 1] == p[..k] + [p[k]];
    var none: seq<seq<Byte>> := [];
    assert [p[k]][1..] == none;
  }

  lemma FlattenSplit(p: seq<seq<Byte>>, k: nat)
    requires k <= |p|
    ensures Flatten(p) == Flatten(p[..k]) + Flatten(p[k..])
  {
    FlattenAppend(p[..k], p[k..]);
    assert p[..k] + p[k..] == p;
  }

  lemma PrefixOfAppend(a: seq<Byte>, b: seq<Byte>)
    ensures a <= a + b
  {
    assert (a + b)[..|a|] == a;
  }

  /** The pieces before the `k`-th, and the `k`-th itself, begin the whole. */
  lemma FlattenPrefix(p: seq<seq<Byte>>, k: nat)
    requires k < |p|
    ensures Flatten(p[..k]) + p[k] <= Flatten(p)
  {
    var done, rest := Flatten(p[..k]), Flatten(p[k + 1..]);
    FlattenSplit(p, k);
    FlattenFrom(p, k);
    assert Flatten(p) == done + (p[k] + rest) == (done + p[k]) + rest;
    PrefixOfAppend(done + p[k], rest);
  }

  predicate IsDigit(b: Byte) { 0x30 <= b <= 0x39 }

  /** The decimal rendering `{}` of an unsigned integer: no sign, no leading
      zero, at least one digit. */
  function Decimal(n: nat): (r: seq<Byte>)
    ensures 1 <= |r|
    ensures forall i :: 0 <= i < |r| ==> IsDigit(r[i])
    ensures n < 10 <==> |r| == 1
    ensures |r| > 1 ==> r[0] != 0x30
    decreases n
  {
    if n < 10 then [0x30 + n] else Decimal(n / 10) + [0x30 + n % 10]
  }

  // ---------------------------------------------------------------------
  // UTF-8, as `String::from_utf8` accepts it (Unicode table 3-7: no overlong
  // forms, no surrogates, nothing above U+10FFFF).

  predicate IsContinuation(b: Byte) { 0x80 <= b <= 0xBF }

  predicate InRange(b: Byte, lo: int, hi: int) { lo <= b <= hi }

  /** The length of the well-formed UTF-8 sequence that starts `s`, or 0 when
      `s` does not start with one. */
  function LeadLength(s: seq<Byte>): (n: nat)
    requires s != []
    ensures n <= 4 && n <= |s|
    ensures n == 1 <==> s[0] < 0x80
  {
    var b := s[0];
    if b < 0x80 then 1
    else if InRange(b, 0xC2, 0xDF) then
      (if |s| >= 2 && IsContinuation(s[1]) then 2 else 0)
    else if b == 0xE0 then
      (if |s| >= 3 && InRange(s[1], 0xA0, 0xBF) && IsContinuation(s[2]) then 3 else 0)
    else if InRange(b, 0xE1, 0xEC) || InRange(b, 0xEE, 0xEF) then
      (if |s| >= 3 && IsContinuation(s[1]) && IsContinuation(s[2]) then 3 else 0)
    else if b == 0xED then
      (if |s| >= 3 && InRange(s[1], 0x80, 0x9F) && IsContinuation(s[2]) then 3 else 0)
    else if b == 0xF0 then
      (if |s| >= 4 && InRange(s[1], 0x90, 0xBF) && IsContinuation(s[2]) && IsContinuation(s[3]) then 4 else 0)
    else if InRange(b, 0xF1, 0xF3) then
      (if |s| >= 4 && IsContinuation(s[1]) && IsContinuation(s[2]) && IsContinuation(s[3]) then 4 else 0)
    else if b == 0xF4 then
      (if |s| >= 4 && InRange(s[1], 0x80, 0x8F) && IsContinuation(s[2]) && IsContinuation(s[3]) then 4 else 0)
    else 0
  }

  predicate ValidUtf8(s: seq<Byte>)
    decreases |s|
  {
    s == [] || (LeadLength(s) > 0 && ValidUtf8(s[LeadLength(s)..]))
  }

  /** A well-formed sequence at the start of `a` is still read the same way
      once more bytes follow it. */
  lemma LeadLengthExtends(a: seq<Byte>, b: seq<Byte>)
    requires a != [] && LeadLength(a) > 0
    ensures LeadLength(a + b) == LeadLength(a)
  {
    var n := LeadLength(a);
    assert forall i :: 0 <= i < n ==> (a + b)[i] == a[i];
  }

  /** Appending valid UTF-8 to valid UTF-8 gives valid UTF-8 (the invariant
      `push_str` keeps on a `heapless::String`). */
  lemma {:induction false} ValidUtf8Concat(a: seq<Byte>, b: seq<Byte>)
    requires ValidUtf8(a) && ValidUtf8(b)
    ensures ValidUtf8(a + b)
    decreases |a|
  {
    if a == [] {
      assert a + b == b;
    } else {
      var n := LeadLength(a);
      LeadLengthExtends(a, b);
      assert (a + b)[n..] == a[n..] + b;
      ValidUtf8Concat(a[n..], b);
    }
  }

  /** Every ASCII byte string is valid UTF-8. */
  lemma {:induction false} AsciiIsUtf8(s: seq<Byte>)
    requires IsAscii(s)
    ensures ValidUtf8(s)
    decreases |s|
  {
    if s != [] {
      assert IsAscii(s[1..]);
      AsciiIsUtf8(s[1..]);
    }
  }

  /** `str::is_char_boundary` for the indices `0 ..= |s|`. */
  predicate IsCharBoundary(s: seq<Byte>, k: nat)
  {
    k == 0 || k == |s| || (k < |s| && !IsContinuation(s[k]))
  }

  lemma AsciiBoundaries(s: seq<Byte>, k: nat)
    requires IsAscii(s) && k <= |s|
    ensures IsCharBoundary(s, k)
  {
  }
}
