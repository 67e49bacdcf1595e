/**
 The printf conversions that a format string may hold (hiredis/hiredis.c:273-352): the scanner that finds
 the end of one, proved against the grammar flags, width, precision, size, conversion letter.
 */
module Conversions {
  import opened ByteStrings

  const PERCENT: Byte := Code('%')
  const POINT: Byte := Code('.')
  const H: Byte := Code('h')
  const L: Byte := Code('l')

  /** One of `#0-+ `. */
  predicate IsFlag(b: Byte) {
    b == Code('#') || b == Code('0') || b == Code('-') || b == Code('+') || b == Code(' ')
  }

  /** One of `diouxX`. */
  predicate IsInteger(b: Byte) {
    || b == Code('d') || b == Code('i') || b == Code('o')
    || b == Code('u') || b == Code('x') || b == Code('X')
  }

  /** One of `eEfFgGaA`. */
  predicate IsDouble(b: Byte) {
    || b == Code('e') || b == Code('E') || b == Code('f') || b == Code('F')
    || b == Code('g') || b == Code('G') || b == Code('a') || b == Code('A')
  }

  // ---- the grammar, without looking ahead ----

  /** A conversion letter, an integer's with `hh`, `h`, `ll` or `l` before it if need be. */
  predicate Letter(text: seq<Byte>) {
    || (|text| == 1 && (IsInteger(text[0]) || IsDouble(text[0])))
    || (|text| == 2 && text[0] in {H, L} && IsInteger(text[1]))
    || (|text| == 3 && text[0] == text[1] && text[0] in {H, L} && IsInteger(text[2]))
  }

  predicate Precise(text: seq<Byte>) {
    Letter(text) || (text != [] && IsDigit(text[0]) && Precise(text[1..]))
  }

  predicate Wide(text: seq<Byte>) {
    || Letter(text)
    || (text != [] && text[0] == POINT && Precise(text[1..]))
    || (text != [] && IsDigit(text[0]) && Wide(text[1..]))
  }

  /** What may stand behind the `%` of a conversion. */
  predicate Conversion(text: seq<Byte>) {
    Wide(text) || (text != [] && IsFlag(text[0]) && Conversion(text[1..]))
  }

  // ---- how many bytes the scanner takes; the end of the string passes for a letter ----

  function More(n: nat, o: Option<nat>): Option<nat> {
    if o.Some? then Some(n + o.value) else None
  }

  function LetterEnd(f: seq<Byte>): Option<nat> {
    if f == [] || IsInteger(f[0]) || IsDouble(f[0]) then Some(1)
    else if f[0] !in {H, L} then None
    else
      var size := if |f| > 1 && f[1] == f[0] then 2 else 1;
      if size < |f| && IsInteger(f[size]) then Some(size + 1) else None
  }

  function PreciseEnd(f: seq<Byte>): Option<nat> {
    if f != [] && IsDigit(f[0]) then More(1, PreciseEnd(f[1..])) else LetterEnd(f)
  }

  function WideEnd(f: seq<Byte>): Option<nat> {
    if f != [] && IsDigit(f[0]) then More(1, WideEnd(f[1..]))
    else if f != [] && f[0] == POINT then More(1, PreciseEnd(f[1..]))
    else LetterEnd(f)
  }

  function ConversionEnd(f: seq<Byte>): (r: Option<nat>) {
    if f != [] && IsFlag(f[0]) then More(1, ConversionEnd(f[1..])) else WideEnd(f)
  }

  // ---- the scanner takes exactly what the grammar allows ----

  lemma LetterExact(f: seq<Byte>, n: nat)
    requires n <= |f|
    ensures LetterEnd(f) == Some(n) <==> Letter(f[..n])
  {
  }

  lemma {:induction false} PreciseExact(f: seq<Byte>, n: nat)
    requires n <= |f|
    ensures PreciseEnd(f) == Some(n) <==> Precise(f[..n])
    decreases |f|
  {
    LetterExact(f, n);
    if n > 0 && IsDigit(f[0]) {
      assert f[..n][1..] == f[1..][..n - 1];
      PreciseExact(f[1..], n - 1);
    }
  }

  lemma {:induction false} WideExact(f: seq<Byte>, n: nat)
    requires n <= |f|
    ensures WideEnd(f) == Some(n) <==> Wide(f[..n])
    decreases |f|
  {
    LetterExact(f, n);
    if n > 0 {
      assert f[..n][1..] == f[1..][..n - 1];
      PreciseExact(f[1..], n - 1);
      WideExact(f[1..], n - 1);
    }
  }

  lemma WideIsConversion(text: seq<Byte>)
    requires text != [] && IsFlag(text[0]) && Wide(text)
    ensures Conversion(text[1..])
  {
  }

  /**
   The scanner, which takes every flag it can before it looks for a width, finds the text of length `n` iff
   the grammar allows that text; so at most one prefix of a string is a conversion.
   */
  lemma {:induction false} ConversionExact(f: seq<Byte>, n: nat)
    requires n <= |f|
    ensures ConversionEnd(f) == Some(n) <==> Conversion(f[..n])
    decreases |f|
  {
    WideExact(f, n);
    if n > 0 && IsFlag(f[0]) {
      assert f[..n][1..] == f[1..][..n - 1];
      ConversionExact(f[1..], n - 1);
      if Wide(f[..n]) {
        WideIsConversion(f[..n]);
      }
    }
  }

  lemma {:induction false} EndInside(f: seq<Byte>)
    ensures ConversionEnd(f).Some? ==> 0 < ConversionEnd(f).value <= |f| + 1
  {
    if f != [] {
      EndInside(f[1..]);
      WideInside(f);
    }
  }

  lemma {:induction false} WideInside(f: seq<Byte>)
    ensures WideEnd(f).Some? ==> 0 < WideEnd(f).value <= |f| + 1
  {
    if f != [] {
      WideInside(f[1..]);
      PreciseInside(f[1..]);
    }
  }

  lemma {:induction false} PreciseInside(f: seq<Byte>)
    ensures PreciseEnd(f).Some? ==> 0 < PreciseEnd(f).value <= |f| + 1
  {
    if f != [] {
      PreciseInside(f[1..]);
    }
  }

  /** What one more byte does to the three loops of the scanner. */
  lemma ScanStep(f: seq<Byte>, p: nat)
    requires p <= |f|
    ensures var on := p < |f| && IsFlag(f[p]);
            ConversionEnd(f[p..]) == if on then More(1, ConversionEnd(f[p + 1..])) else WideEnd(f[p..])
    ensures var on := p < |f| && IsDigit(f[p]);
            PreciseEnd(f[p..]) == if on then More(1, PreciseEnd(f[p + 1..])) else LetterEnd(f[p..])
    ensures p < |f| && IsDigit(f[p]) ==> WideEnd(f[p..]) == More(1, WideEnd(f[p + 1..]))
    ensures p == |f| || !IsDigit(f[p]) ==>
              WideEnd(f[p..])
              == if p < |f| && f[p] == POINT then More(1, PreciseEnd(f[p + 1..])) else LetterEnd(f[p..])
  {
    if p < |f| {
      assert f[p..][1..] == f[p + 1..];
    }
  }

  /**
   The scan of one conversion from the byte behind its `%`: `ok` and the position of the letter, or that there
   is none.  A letter at the very end means that the string ended first.
   */
  method ScanConversion(format: seq<Byte>, start: nat) returns (ok: bool, letter: nat)
    requires start <= |format|
    ensures ok == ConversionEnd(format[start..]).Some?
    ensures ok ==> letter + 1 == start + ConversionEnd(format[start..]).value
  {
    hide IsFlag, IsDigit, ConversionEnd, WideEnd, PreciseEnd, LetterEnd;
    var p := start;
    while p < |format| && IsFlag(format[p])
      invariant start <= p <= |format|
      invariant ConversionEnd(format[start..]) == More(p - start, ConversionEnd(format[p..]))
    {
      ScanStep(format, p);
      p := p + 1;
    }
    ScanStep(format, p);
    while p < |format| && IsDigit(format[p])
      invariant start <= p <= |format|
      invariant ConversionEnd(format[start..]) == More(p - start, WideEnd(format[p..]))
    {
      ScanStep(format, p);
      p := p + 1;
    }
    ScanStep(format, p);
    if p < |format| && format[p] == POINT {
      p := p + 1;
      while p < |format| && IsDigit(format[p])
        invariant start <= p <= |format|
        invariant ConversionEnd(format[start..]) == More(p - start, PreciseEnd(format[p..]))
      {
        ScanStep(format, p);
        p := p + 1;
      }
      ScanStep(format, p);
    }
    ok, letter := ScanLetter(format, p);
  }

  /** The letter of a conversion, with its size. */
  method ScanLetter(format: seq<Byte>, start: nat) returns (ok: bool, letter: nat)
    requires start <= |format|
    ensures ok == LetterEnd(format[start..]).Some?
    ensures ok ==> letter + 1 == start + LetterEnd(format[start..]).value
  {
    var p := start;
    if p == |format| || IsInteger(format[p]) || IsDouble(format[p]) {
      return true, p;
    }
    if format[p] == H && p + 1 < |format| && format[p + 1] == H {
      p := p + 2;
      return p < |format| && IsInteger(format[p]), p;
    }
    if format[p] == H {
      p := p + 1;
      return p < |format| && IsInteger(format[p]), p;
    }
    if format[p] == L && p + 1 < |format| && format[p + 1] == L {
      p := p + 2;
      return p < |format| && IsInteger(format[p]), p;
    }
    if format[p] == L {
      p := p + 1;
      return p < |format| && IsInteger(format[p]), p;
    }
    return false, p;
  }
}
