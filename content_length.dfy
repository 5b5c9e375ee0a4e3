/** `find_content_length`: the byte-level scanner that pulls the declared body
    length out of the response text accumulated so far. */
module ContentLength {
  import opened ByteText

  /** The literal the scanner looks for, `content-length:`, lower case only. */
  const Pattern: seq<Byte> :=
    [0x63, 0x6F, 0x6E, 0x74, 0x65, 0x6E, 0x74, 0x2D, 0x6C, 0x65, 0x6E, 0x67, 0x74, 0x68, 0x3A]

  lemma PatternShape()
    ensures Pattern == Ascii("content-length:")
    ensures |Pattern| == 15
    ensures Pattern[0] == 0x63
    ensures forall m :: 1 <= m < 15 ==> Pattern[m] != 0x63
  {
  }

  /** The bytes `text[k..e]` are the first `e - k` bytes of the pattern. */
  ghost predicate Partial(text: seq<Byte>, k: nat, e: nat)
    requires k <= e <= |text| && e - k <= 15
  {
    forall m :: k <= m < e ==> text[m] == Pattern[m - k]
  }

  ghost predicate OccursAt(text: seq<Byte>, k: nat)
  {
    k + 15 <= |text| && Partial(text, k, k + 15)
  }

  /** The first occurrence of the pattern at or after `k`. */
  ghost function FirstOccurrenceFrom(text: seq<Byte>, k: nat): (r: Option<nat>)
    ensures r.Some? ==> k <= r.value && r.value + 15 <= |text|
    decreases |text| - k
  {
    if k + 15 > |text| then None
    else if OccursAt(text, k) then Some(k)
    else FirstOccurrenceFrom(text, k + 1)
  }

  /** The search finds the first occurrence at or after `k`, and finds none
      only when there is none. */
  lemma {:induction false} FirstOccurrenceIsFirst(text: seq<Byte>, k: nat)
    ensures var r := FirstOccurrenceFrom(text, k);
            && (r.Some? ==> k <= r.value && OccursAt(text, r.value))
            && (r.Some? ==> forall k' :: k <= k' < r.value ==> !OccursAt(text, k'))
            && (r.None? ==> forall k' :: k <= k' ==> !OccursAt(text, k'))
    decreases |text| - k
  {
    if k + 15 > |text| {
      assert FirstOccurrenceFrom(text, k) == None;
      forall k' | k <= k' ensures !OccursAt(text, k') {
      }
    } else if !OccursAt(text, k) {
      var r := FirstOccurrenceFrom(text, k + 1);
      assert FirstOccurrenceFrom(text, k) == r;
      FirstOccurrenceIsFirst(text, k + 1);
      if r.Some? {
        forall k' | k <= k' < r.value ensures !OccursAt(text, k') {
          if k' != k {
            assert k + 1 <= k' < r.value;
          }
        }
      } else {
        forall k' | k <= k' ensures !OccursAt(text, k') {
          if k' != k {
            assert k + 1 <= k';
          }
        }
      }
    }
  }

  predicate IsLineBreak(b: Byte) { b == CR || b == LF }

  /** The first CR or LF at or after `i`. */
  ghost function LineEndFrom(text: seq<Byte>, i: nat): (r: Option<nat>)
    ensures r.Some? ==> i <= r.value < |text|
    decreases |text| - i
  {
    if i >= |text| then None
    else if IsLineBreak(text[i]) then Some(i)
    else LineEndFrom(text, i + 1)
  }

  lemma {:induction false} LineEndIsFirst(text: seq<Byte>, i: nat)
    ensures var r := LineEndFrom(text, i);
            && (r.Some? ==> i <= r.value < |text| && IsLineBreak(text[r.value]))
            && (r.Some? ==> forall m :: i <= m < r.value ==> !IsLineBreak(text[m]))
            && (r.None? ==> forall m :: i <= m < |text| ==> !IsLineBreak(text[m]))
    decreases |text| - i
  {
    if i < |text| && !IsLineBreak(text[i]) {
      LineEndIsFirst(text, i + 1);
    }
  }

  /** The number written by the decimal digits of `s`, read left to right;
      every other byte is skipped. */
  function DigitsValue(s: seq<Byte>): nat
    decreases |s|
  {
    if s == [] then 0
    else if IsDigit(s[|s| - 1]) then DigitsValue(s[..|s| - 1]) * 10 + (s[|s| - 1] - 0x30)
    else DigitsValue(s[..|s| - 1])
  }

  function DigitCount(s: seq<Byte>): nat
    decreases |s|
  {
    if s == [] then 0
    else DigitCount(s[..|s| - 1]) + (if IsDigit(s[|s| - 1]) then 1 else 0)
  }

  function Pow10(e: nat): (r: nat)
    ensures r >= 1
  {
    if e == 0 then 1 else 10 * Pow10(e - 1)
  }

  /** The bytes between the pattern and the first CR/LF after it; empty when
      no CR/LF follows (`p_end` then stays 0, before `p_start`). */
  ghost function DigitField(text: seq<Byte>, start: nat): (f: seq<Byte>)
    requires start <= |text|
  {
    match LineEndFrom(text, start)
    case Some(e) => text[start..e]
    case None => []
  }

  /** What the scanner returns: `None` (the source's `Err(())`) when the
      pattern never occurs, otherwise the digits of the field after its first
      occurrence, accumulated in `u32` arithmetic (which wraps). */
  ghost function ContentLengthOf(text: seq<Byte>): Option<U32>
  {
    match FirstOccurrenceFrom(text, 0)
    case None => None
    case Some(k) => Some(DigitsValue(DigitField(text, k + 15)) % U32Modulus)
  }

  // ---------------------------------------------------------------------
  // The scanner itself.

  /** The pattern-index update of the search loop. */
  ghost function NextIndex(j: nat, b: Byte): nat
    requires j < 15
  {
    if b == Pattern[j] then j + 1 else if b == Pattern[0] then 1 else 0
  }

  /** The search loop's invariant after `i` bytes: the last `j` bytes read are
      the start of the pattern, no occurrence ends within the bytes read, and
      no earlier start that could still be completed is a partial match. */
  ghost predicate SearchState(text: seq<Byte>, i: nat, j: nat)
  {
    && i <= |text|
    && j < 15 && j <= i
    && Partial(text, i - j, i)
    && NoOccurrenceBefore(text, i)
    && NoLivePartial(text, i, j)
  }

  /** No occurrence lies within the first `i` bytes. */
  ghost predicate NoOccurrenceBefore(text: seq<Byte>, i: nat)
  {
    forall k :: 0 <= k && k + 15 <= i ==> !OccursAt(text, k)
  }

  /** Every start before `i - j` that could still be completed after `i`
      bytes is already a mismatch. */
  ghost predicate NoLivePartial(text: seq<Byte>, i: nat, j: nat)
    requires j <= i <= |text|
  {
    forall k :: 0 <= k < i - j && i < k + 15 ==> !Partial(text, k, i)
  }

  /** One step of the search. Because the pattern holds `c` only at its first
      byte, falling back to 1 (on `c`) or 0 (otherwise) never skips an
      occurrence. */
  lemma SearchStep(text: seq<Byte>, i: nat, j: nat)
    requires SearchState(text, i, j) && i < |text|
    ensures NextIndex(j, text[i]) == 15 ==>
              OccursAt(text, i - 14) && forall k :: 0 <= k < i - 14 ==> !OccursAt(text, k)
    ensures NextIndex(j, text[i]) < 15 ==> SearchState(text, i + 1, NextIndex(j, text[i]))
  {
    if NextIndex(j, text[i]) == 15 {
      StepCompletes(text, i, j);
    } else {
      StepContinues(text, i, j);
    }
  }

  lemma StepCompletes(text: seq<Byte>, i: nat, j: nat)
    requires SearchState(text, i, j) && i < |text| && NextIndex(j, text[i]) == 15
    ensures OccursAt(text, i - 14) && forall k :: 0 <= k < i - 14 ==> !OccursAt(text, k)
  {
    assert Partial(text, i - 14, i + 1);
  }

  lemma StepContinues(text: seq<Byte>, i: nat, j: nat)
    requires SearchState(text, i, j) && i < |text| && NextIndex(j, text[i]) < 15
    ensures SearchState(text, i + 1, NextIndex(j, text[i]))
  {
    var j' := NextIndex(j, text[i]);
    StepKeepsMismatches(text, i, j);
    StepKeepsNoOccurrence(text, i, j);
    assert Partial(text, i + 1 - j', i + 1);
  }

  lemma StepKeepsMismatches(text: seq<Byte>, i: nat, j: nat)
    requires SearchState(text, i, j) && i < |text| && NextIndex(j, text[i]) < 15
    ensures NextIndex(j, text[i]) <= i + 1 && NoLivePartial(text, i + 1, NextIndex(j, text[i]))
  {
    var j' := NextIndex(j, text[i]);
    var i1 := i + 1;
    forall k | 0 <= k < i1 - j' && i1 < k + 15
      ensures !Partial(text, k, i1)
    {
      if k < i - j {
        OldMismatch(text, i, j, k);
      } else if k == i - j {
        assert text[i] != Pattern[i - k];
      } else {
        NotAStart(text, i, j, k);
      }
    }
  }

  lemma OldMismatch(text: seq<Byte>, i: nat, j: nat, k: nat)
    requires SearchState(text, i, j) && i < |text| && k < i - j && i < k + 15
    ensures i + 1 - k <= 15 ==> !Partial(text, k, i + 1)
  {
    assert !Partial(text, k, i);
    var m :| k <= m < i && text[m] != Pattern[m - k];
  }

  /** A position inside the current partial match, or the byte just read when
      it is not `c`, cannot start an occurrence. */
  lemma NotAStart(text: seq<Byte>, i: nat, j: nat, k: nat)
    requires SearchState(text, i, j) && i < |text|
    requires i - j < k < i + 1 - NextIndex(j, text[i]) && i + 1 < k + 15
    ensures !Partial(text, k, i + 1)
  {
    PatternShape();
    if k < i {
      assert text[k] == Pattern[k - (i - j)];
    }
    assert text[k] != Pattern[k - k];
  }

  lemma StepKeepsNoOccurrence(text: seq<Byte>, i: nat, j: nat)
    requires SearchState(text, i, j) && i < |text| && NextIndex(j, text[i]) < 15
    ensures NoOccurrenceBefore(text, i + 1)
  {
    if i >= 14 {
      var k := i - 14;
      if k < i - j {
        OldMismatch(text, i, j, k);
      } else {
        assert j == 14 && text[i] != Pattern[i - k];
      }
    }
  }

  lemma ModShift(a: int, q: int)
    ensures (a + U32Modulus * q) % U32Modulus == a % U32Modulus
  {
  }

  lemma MulMod(y: int, d: nat)
    requires y >= 0
    ensures ((y % U32Modulus) * d) % U32Modulus == (y * d) % U32Modulus
  {
    var qy, ry := y / U32Modulus, y % U32Modulus;
    assert y * d == ry * d + U32Modulus * (qy * d) by {
      assert y == ry + U32Modulus * qy;
    }
    ModShift(ry * d, qy * d);
  }

  /** The modular step of the digit loop: the wrapping `ret += n * d` keeps
      `ret` congruent to the exact value. */
  lemma WrapStep(x: int, y: int, d: nat)
    requires x >= 0 && y >= 0
    ensures ((x % U32Modulus) + ((y % U32Modulus) * d) % U32Modulus) % U32Modulus
            == (x + y * d) % U32Modulus
  {
    var M := U32Modulus;
    MulMod(y, d);
    var p := y * d;
    ModShift(x % M + p % M, x / M + p / M);
    assert x % M + p % M + M * (x / M + p / M) == x + p;
  }

  lemma {:induction false} DigitCountPrepend(b: Byte, s: seq<Byte>)
    ensures DigitCount([b] + s) == DigitCount(s) + (if IsDigit(b) then 1 else 0)
    decreases |s|
  {
    var t := [b] + s;
    if s == [] {
      assert t[..0] == [];
    } else {
      assert t[..|s|] == [b] + s[..|s| - 1];
      assert t[|s|] == s[|s| - 1];
      DigitCountPrepend(b, s[..|s| - 1]);
    }
  }

  lemma ShiftDigit(lead: int, p: int, v: int, d: int)
    ensures (lead * p + v) * 10 + d == lead * (10 * p) + (v * 10 + d)
  {
  }

  lemma {:induction false} DigitsPrepend(b: Byte, s: seq<Byte>)
    ensures DigitsValue([b] + s)
            == (if IsDigit(b) then (b - 0x30) * Pow10(DigitCount(s)) else 0) + DigitsValue(s)
    ensures DigitCount([b] + s) == DigitCount(s) + (if IsDigit(b) then 1 else 0)
    decreases |s|
  {
    DigitCountPrepend(b, s);
    var t := [b] + s;
    if s == [] {
      assert t[..0] == [];
    } else {
      var s', last := s[..|s| - 1], s[|s| - 1];
      assert t[..|s|] == [b] + s';
      assert t[|s|] == last;
      DigitsPrepend(b, s');
      var lead := if IsDigit(b) then b - 0x30 else 0;
      var p, v := Pow10(DigitCount(s')), DigitsValue(s');
      if IsDigit(last) {
        assert Pow10(DigitCount(s)) == 10 * p;
        ShiftDigit(lead, p, v, last - 0x30);
      }
    }
  }

  /** One step of the right-to-left digit loop over `[b] + s`. */
  lemma DigitLoopStep(b: Byte, s: seq<Byte>, ret: int, n: int)
    requires ret == DigitsValue(s) % U32Modulus && n == Pow10(DigitCount(s)) % U32Modulus
    ensures IsDigit(b) ==>
              && (ret + (n * (b - 0x30)) % U32Modulus) % U32Modulus == DigitsValue([b] + s) % U32Modulus
              && (n * 10) % U32Modulus == Pow10(DigitCount([b] + s)) % U32Modulus
    ensures !IsDigit(b) ==>
              ret == DigitsValue([b] + s) % U32Modulus && n == Pow10(DigitCount([b] + s)) % U32Modulus
  {
    DigitsPrepend(b, s);
    if IsDigit(b) {
      var x, y, d := DigitsValue(s), Pow10(DigitCount(s)), b - 0x30;
      WrapStep(x, y, d);
      assert DigitsValue([b] + s) == x + y * d;
      MulMod(y, 10);
      assert Pow10(DigitCount([b] + s)) == y * 10;
    }
  }

  /** The first loop of `find_content_length`: `p_start`, one past the `:`
      of the first occurrence of the pattern, or `None`. */
  method SearchPattern(text: seq<Byte>) returns (p: Option<nat>)
    ensures p.None? <==> FirstOccurrenceFrom(text, 0).None?
    ensures p.Some? ==> p.value == FirstOccurrenceFrom(text, 0).value + 15
  {
    var j := 0;
    p := None;
    var i := 0;
    while i < |text|
      invariant p.None? && SearchState(text, i, j)
    {
      SearchStep(text, i, j);
      ghost var next := NextIndex(j, text[i]);
      if text[i] == Pattern[j] {
        j := j + 1;
      } else if text[i] == Pattern[0] {
        j := 1;
      } else {
        j := 0;
      }
      assert j == next;
      if j == |Pattern| {
        FirstOccurrenceIsFirst(text, 0);
        p := Some(i + 1);
        break;
      }
      i := i + 1;
    }
    if p.None? {
      FirstOccurrenceIsFirst(text, 0);
    }
  }

  /** The second loop: `p_end`, the first CR or LF from `p_start` on, left at
      0 when there is none. */
  method FindLineEnd(text: seq<Byte>, pStart: nat) returns (pEnd: nat)
    ensures LineEndFrom(text, pStart).Some? ==> pEnd == LineEndFrom(text, pStart).value
    ensures LineEndFrom(text, pStart).None? ==> pEnd == 0
    ensures pEnd <= |text|
  {
    pEnd := 0;
    var i := pStart;
    while i < |text|
      invariant pStart <= i
      invariant LineEndFrom(text, pStart) == LineEndFrom(text, i)
    {
      if text[i] == CR || text[i] == LF {
        pEnd := i;
        break;
      }
      i := i + 1;
    }
  }

  /** The third loop: the digits of `[p_start, p_end)` taken right to left,
      each weighted by the next power of ten, in wrapping `u32` arithmetic (a
      release build; a debug build panics on overflow). */
  method ParseDigits(text: seq<Byte>, pStart: nat, pEnd: nat) returns (ret: U32)
    requires pEnd <= |text|
    ensures ret == DigitsValue(if pStart <= pEnd then text[pStart..pEnd] else []) % U32Modulus
  {
    var n: U32 := 1;
    ret := 0;
    var i := pEnd;
    while i > pStart
      invariant pEnd < pStart ==> i == pEnd
      invariant pEnd >= pStart ==> pStart <= i <= pEnd
      invariant ret == DigitsValue(text[i..pEnd]) % U32Modulus
      invariant n == Pow10(DigitCount(text[i..pEnd])) % U32Modulus
    {
      i := i - 1;
      var t := text[i];
      assert text[i..pEnd] == [t] + text[i + 1..pEnd];
      DigitLoopStep(t, text[i + 1..pEnd], ret, n);
      if 0x30 <= t && t <= 0x39 {
        ret := (ret + (n * (t - 0x30)) % U32Modulus) % U32Modulus;
        n := (n * 10) % U32Modulus;
      }
    }
    if pEnd < pStart {
      assert text[i..pEnd] == [];
    }
  }

  /** `find_content_length`: the search for the pattern, the search for the
      end of its line, and the digit accumulation. The text is only read. */
  method FindContentLength(text: seq<Byte>) returns (r: Option<U32>)
    ensures r == ContentLengthOf(text)
  {
    var p := SearchPattern(text);
    if p == None {
      return None;
    }
    var pStart := p.value;
    var pEnd := FindLineEnd(text, pStart);
    var ret := ParseDigits(text, pStart, pEnd);
    r := Some(ret);
  }

  // ---------------------------------------------------------------------
  // Properties of the scanner's result.

  /** `Err` exactly when the pattern occurs nowhere in the text. */
  lemma ErrIffNoPattern(text: seq<Byte>)
    ensures ContentLengthOf(text).None? <==> forall k :: !OccursAt(text, k)
  {
    FirstOccurrenceIsFirst(text, 0);
  }

  /** An occurrence is exactly the fifteen lower-case bytes at that
      position. */
  lemma OccursAtIsSlice(text: seq<Byte>, k: nat)
    ensures OccursAt(text, k) <==> k + 15 <= |text| && text[k..k + 15] == Ascii("content-length:")
  {
    PatternShape();
    if k + 15 <= |text| {
      if OccursAt(text, k) {
        forall m | 0 <= m < 15 ensures text[k..k + 15][m] == Pattern[m] {
          assert text[k + m] == Pattern[k + m - k];
        }
        assert text[k..k + 15] == Pattern;
      } else {
        var m :| k <= m < k + 15 && text[m] != Pattern[m - k];
        assert text[k..k + 15][m - k] != Pattern[m - k];
      }
    }
  }

  predicate HasNoLowerC(s: seq<Byte>)
  {
    forall i :: 0 <= i < |s| ==> s[i] != 0x63
  }

  /** Text without a lower-case `c` never holds the pattern; this covers a
      response that only says `Content-Length:` with a capital `C`. */
  lemma {:induction false} NoLowerCMeansErr(text: seq<Byte>)
    requires HasNoLowerC(text)
    ensures ContentLengthOf(text) == None
  {
    ErrIffNoPattern(text);
    PatternShape();
    forall k: nat ensures !OccursAt(text, k) {
      if k + 15 <= |text| {
        assert text[k] != Pattern[0];
        assert text[k] != Pattern[k - k];
      }
    }
  }

  /** No occurrence of the pattern lies wholly inside `s`. */
  ghost predicate PatternFree(s: seq<Byte>)
  {
    forall k: nat :: !OccursAt(s, k)
  }

  /** An occurrence right after a prefix that holds none is the first one,
      and the bytes after it are the tail. */
  lemma FirstAfterPatternFreePrefix(pre: seq<Byte>, tail: seq<Byte>)
    requires PatternFree(pre)
    ensures FirstOccurrenceFrom(pre + Pattern + tail, 0) == Some(|pre|)
    ensures (pre + Pattern + tail)[|pre| + 15..] == tail
  {
    var text := pre + Pattern + tail;
    forall m | |pre| <= m < |pre| + 15 ensures text[m] == Pattern[m - |pre|] {
    }
    forall k': nat | k' < |pre| ensures !OccursAt(text, k') {
      NoStraddle(pre, tail, k');
    }
    OnlyOccurrenceBefore(text, |pre|);
  }

  /** No occurrence begins inside a pattern-free prefix: one wholly inside it
      is excluded, and one that crosses into the pattern after it would need
      a second `c`, which the pattern holds only in its first byte. */
  lemma NoStraddle(pre: seq<Byte>, tail: seq<Byte>, k: nat)
    requires PatternFree(pre) && k < |pre|
    ensures !OccursAt(pre + Pattern + tail, k)
  {
    var text := pre + Pattern + tail;
    PatternShape();
    if k + 15 <= |pre| {
      assert !OccursAt(pre, k);
      var m :| k <= m < k + 15 && pre[m] != Pattern[m - k];
      assert text[m] == pre[m];
    } else {
      var m := |pre|;
      assert text[m] == Pattern[0];
      assert text[m] != Pattern[m - k];
    }
  }

  /** An occurrence with none before it is the first one. */
  lemma OnlyOccurrenceBefore(text: seq<Byte>, k: nat)
    requires OccursAt(text, k)
    requires forall k': nat :: k' < k ==> !OccursAt(text, k')
    ensures FirstOccurrenceFrom(text, 0) == Some(k)
  {
    FirstOccurrenceIsFirst(text, 0);
  }

  /** A line break with none before it, from `i` on, is the one found. */
  lemma {:induction false} LineEndAt(text: seq<Byte>, i: nat, e: nat)
    requires i <= e < |text| && IsLineBreak(text[e])
    requires forall m :: i <= m < e ==> !IsLineBreak(text[m])
    ensures LineEndFrom(text, i) == Some(e)
    decreases e - i
  {
    if i < e {
      LineEndAt(text, i + 1, e);
    }
  }

  /** A `content-length:` line after a prefix that holds no complete
      `content-length:` of its own (any other header may precede it): the
      result is the number formed by the bytes between the `:` and the line
      break. */
  lemma HeaderLine(pre: seq<Byte>, field: seq<Byte>, rest: seq<Byte>)
    requires PatternFree(pre)
    requires forall i :: 0 <= i < |field| ==> !IsLineBreak(field[i])
    requires rest != [] && IsLineBreak(rest[0])
    ensures ContentLengthOf(pre + Pattern + field + rest) == Some(DigitsValue(field) % U32Modulus)
  {
    var text := pre + Pattern + field + rest;
    Regroup(pre + Pattern, field, rest);
    FirstAfterPatternFreePrefix(pre, field + rest);
    BreakAfterField(text, |pre| + 15, field, rest);
  }

  lemma Regroup(a: seq<Byte>, b: seq<Byte>, c: seq<Byte>)
    ensures a + b + c == a + (b + c)
  {
  }

  /** A field without line breaks followed by one ends at that break. */
  lemma BreakAfterField(text: seq<Byte>, a: nat, field: seq<Byte>, rest: seq<Byte>)
    requires a <= |text| && text[a..] == field + rest
    requires forall i :: 0 <= i < |field| ==> !IsLineBreak(field[i])
    requires rest != [] && IsLineBreak(rest[0])
    ensures DigitField(text, a) == field
  {
    var e := a + |field|;
    assert text[e] == (field + rest)[|field|];
    forall m | a <= m < e ensures !IsLineBreak(text[m]) {
      assert text[m] == (field + rest)[m - a];
    }
    LineEndAt(text, a, e);
    assert text[a..e] == (field + rest)[..|field|];
  }

  /** When no CR or LF follows the first occurrence of the pattern, the digit
      range is empty and the result is 0, whatever bytes follow. */
  lemma NoLineBreakGivesZero(text: seq<Byte>, k: nat)
    requires FirstOccurrenceFrom(text, 0) == Some(k)
    requires forall m :: k + 15 <= m < |text| ==> !IsLineBreak(text[m])
    ensures ContentLengthOf(text) == Some(0)
  {
    LineEndIsFirst(text, k + 15);
  }

  /** The same for a text laid out as a pattern-free prefix, the pattern and
      a tail without line breaks. */
  lemma TailWithoutLineBreak(pre: seq<Byte>, tail: seq<Byte>)
    requires PatternFree(pre)
    requires forall i :: 0 <= i < |tail| ==> !IsLineBreak(tail[i])
    ensures ContentLengthOf(pre + Pattern + tail) == Some(0)
  {
    var text := pre + Pattern + tail;
    var k := |pre|;
    FirstAfterPatternFreePrefix(pre, tail);
    forall m | k + 15 <= m < |text| ensures !IsLineBreak(text[m]) {
      assert text[m] == text[k + 15..][m - k - 15];
    }
    NoLineBreakGivesZero(text, k);
  }

  lemma {:induction false} DigitsBound(s: seq<Byte>)
    ensures DigitsValue(s) < Pow10(DigitCount(s))
    decreases |s|
  {
    if s != [] {
      DigitsBound(s[..|s| - 1]);
    }
  }

  lemma {:induction false} Pow10Monotone(a: nat, b: nat)
    requires a <= b
    ensures Pow10(a) <= Pow10(b)
    decreases b
  {
    if a < b {
      Pow10Monotone(a, b - 1);
    }
  }

  /** With at most nine digits in the field nothing wraps: the result is the
      exact decimal value. */
  lemma ShortFieldIsExact(s: seq<Byte>)
    requires DigitCount(s) <= 9
    ensures DigitsValue(s) % U32Modulus == DigitsValue(s)
  {
    DigitsBound(s);
    Pow10Monotone(DigitCount(s), 9);
    assert Pow10(9) == 1000000000;
  }

  /** Reading back the decimal rendering of a number gives the number. */
  lemma {:induction false} DecimalRoundTrip(n: nat)
    ensures DigitsValue(Decimal(n)) == n
    ensures DigitCount(Decimal(n)) == |Decimal(n)|
    decreases n
  {
    var d := Decimal(n);
    if n >= 10 {
      DecimalRoundTrip(n / 10);
      assert d[..|d| - 1] == Decimal(n / 10);
    } else {
      assert d[..0] == [];
    }
  }

  /** A number below `10^k` renders in at most `k` digits. */
  lemma {:induction false} DecimalLength(n: nat, k: nat)
    requires 1 <= k && n < Pow10(k)
    ensures |Decimal(n)| <= k
    decreases k
  {
    if n >= 10 {
      DecimalLength(n / 10, k - 1);
    }
  }

  // Worked examples on concrete responses.

  lemma ExampleSeventeen()
    ensures ContentLengthOf(Ascii("HTTP/1.1 200 OK\r\n") + Pattern + Ascii(" 17")
                            + Ascii("\r\n\r\n{\"ok\":true}")) == Some(17)
  {
    StatusLineHasNoC();
    NoLowerCMeansErr(Ascii("HTTP/1.1 200 OK\r\n"));
    ErrIffNoPattern(Ascii("HTTP/1.1 200 OK\r\n"));
    SeventeenLine();
    HeaderLine(Ascii("HTTP/1.1 200 OK\r\n"), Ascii(" 17"), Ascii("\r\n\r\n{\"ok\":true}"));
    SpaceSeventeen();
    assert DigitsValue(Ascii(" 17")) == 17;
    assert 17 % U32Modulus == 17;
  }

  lemma StatusLineHasNoC()
    ensures HasNoLowerC(Ascii("HTTP/1.1 200 OK\r\n"))
  {
    var s := Ascii("HTTP/1.1 200 OK\r\n");
    assert s == [0x48, 0x54, 0x54, 0x50, 0x2F, 0x31, 0x2E, 0x31, 0x20, 0x32, 0x30, 0x30, 0x20, 0x4F, 0x4B, 0x0D, 0x0A];
  }

  lemma SeventeenLine()
    ensures forall i :: 0 <= i < 3 ==> !IsLineBreak(Ascii(" 17")[i])
    ensures IsLineBreak(Ascii("\r\n\r\n{\"ok\":true}")[0])
  {
    assert Ascii(" 17") == [0x20, 0x31, 0x37];
  }

  /** The space before the digits is skipped, not read as a digit. */
  lemma SpaceSeventeen()
    ensures DigitsValue(Ascii(" 17")) == 17
  {
    var f := Ascii(" 17");
    assert f == [0x20, 0x31, 0x37];
    assert f[..2] == [0x20, 0x31] && f[..2][..1] == [0x20] && [0x20][..0] == [];
    assert DigitsValue([0x20]) == 0;
    assert DigitsValue([0x20, 0x31]) == 1;
  }

  lemma ExampleZero()
    ensures ContentLengthOf(Pattern + Ascii("0") + Ascii("\r\n")) == Some(0)
  {
    HeaderLine([], Ascii("0"), Ascii("\r\n"));
    assert [] + Pattern == Pattern;
    assert Ascii("0")[..0] == [];
  }

  lemma ExampleNoHeader()
    ensures ContentLengthOf(Ascii("HTTP/1.1 200 OK\r\n\r\nhi")) == None
  {
    NoLowerCMeansErr(Ascii("HTTP/1.1 200 OK\r\n\r\nhi"));
  }

  lemma ExampleCapitalised()
    ensures ContentLengthOf(Ascii("Content-Length: 2\r\n")) == None
  {
    NoLowerCMeansErr(Ascii("Content-Length: 2\r\n"));
  }
}
