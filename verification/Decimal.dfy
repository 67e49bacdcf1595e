/**
 Decimal text of machine integers: the strict reader `string2ll` (hiredis/read.c), the
 printer `sdsll2str` (hiredis/sds.c) and the digit counter `countDigits` (hiredis/hiredis.c),
 all three specified by one definition of the canonical decimal.
 */
module Decimals {
  import opened ByteStrings

  const LLONG_MAX: int := 0x7FFF_FFFF_FFFF_FFFF
  const LLONG_MIN: int := -0x8000_0000_0000_0000
  const ULLONG_MAX: int := 0xFFFF_FFFF_FFFF_FFFF
  const INT_MAX: int := 0x7FFF_FFFF

  const MINUS: Byte := Code('-')

  predicate IsLongLong(v: int) { LLONG_MIN <= v <= LLONG_MAX }

  /** The digits of `n` without leading zeros. */
  function Digits(n: nat): (r: seq<Byte>)
    ensures |r| > 0
    ensures n > 0 ==> r[0] != ZERO
    ensures forall i | 0 <= i < |r| :: IsDigit(r[i])
  {
    if n < 10 then [ZERO + n] else Digits(n / 10) + [ZERO + n % 10]
  }

  /** The canonical decimal of `v`. */
  function Decimal(v: int): (r: seq<Byte>)
    ensures |r| > 0
  {
    if v < 0 then [MINUS] + Digits(-v) else Digits(v)
  }

  /** What a string of decimal digits stands for. */
  function Denoted(text: seq<Byte>): int {
    if text == [] then 0 else 10 * Denoted(text[..|text| - 1]) + (text[|text| - 1] - Code('0'))
  }

  lemma {:induction false} DigitsDenote(n: nat)
    ensures Denoted(Digits(n)) == n
  {
    if n >= 10 {
      DigitsDenote(n / 10);
      assert Digits(n)[..|Digits(n)| - 1] == Digits(n / 10);
    } else {
      assert Digits(n)[..0] == [];
    }
  }

  lemma {:induction false} DigitsInjective(m: nat, n: nat)
    requires Digits(m) == Digits(n)
    ensures m == n
  {
    var a, b := Digits(m), Digits(n);
    if m >= 10 && n >= 10 {
      assert a[..|a| - 1] == Digits(m / 10) && b[..|b| - 1] == Digits(n / 10);
      assert a[|a| - 1] == ZERO + m % 10 && b[|b| - 1] == ZERO + n % 10;
      DigitsInjective(m / 10, n / 10);
    }
  }

  lemma DecimalInjective(v: int, w: int)
    requires Decimal(v) == Decimal(w)
    ensures v == w
  {
    if v < 0 && w < 0 {
      assert Decimal(v)[1..] == Digits(-v) && Decimal(w)[1..] == Digits(-w);
      DigitsInjective(-v, -w);
    } else if v >= 0 && w >= 0 {
      DigitsInjective(v, w);
    }
  }

  /** The number a strict decimal denotes; it has one only when the text is canonical and in range. */
  ghost function ParseLongLong(s: seq<Byte>): (r: Option<int>)
    ensures r.Some? ==> IsLongLong(r.value) && Decimal(r.value) == s
  {
    if exists v :: IsLongLong(v) && Decimal(v) == s
    then var v :| IsLongLong(v) && Decimal(v) == s; Some(v)
    else None
  }

  lemma ParseDecimal(v: int)
    requires IsLongLong(v)
    ensures ParseLongLong(Decimal(v)) == Some(v)
  {
    DecimalInjective(v, ParseLongLong(Decimal(v)).value);
  }

  lemma NoParse(s: seq<Byte>)
    requires forall v | IsLongLong(v) :: Decimal(v) != s
    ensures ParseLongLong(s) == None
  {}

  // ---- how a decimal grows digit by digit ----

  lemma DigitsPush(n: nat, d: Byte)
    requires n > 0 && IsDigit(d)
    ensures Digits(10 * n + (d - ZERO)) == Digits(n) + [d]
  {
    var m := 10 * n + (d - ZERO);
    assert m / 10 == n && m % 10 == d - ZERO;
  }

  /** A prefix of a decimal is the decimal of a number ten times smaller. */
  lemma {:induction false} DigitsPrefix(n: nat, k: nat) returns (m: nat)
    requires 0 < k < |Digits(n)|
    ensures Digits(m) == Digits(n)[..k] && 10 * m <= n
  {
    assert n >= 10 && |Digits(n / 10)| == |Digits(n)| - 1;
    assert Digits(n)[..|Digits(n)| - 1] == Digits(n / 10);
    if k == |Digits(n)| - 1 {
      m := n / 10;
    } else {
      m := DigitsPrefix(n / 10, k);
      assert Digits(n)[..k] == Digits(n / 10)[..k];
    }
  }

  /** Text whose first digits already denote a number above `bound` denotes only larger numbers. */
  lemma PrefixOverflow(n: nat, m: nat, k: nat, bound: nat)
    requires 0 < k <= |Digits(n)| && Digits(n)[..k] == Digits(m)
    requires if k == |Digits(n)| then m > bound else 10 * m > bound
    ensures n > bound
  {
    if k == |Digits(n)| {
      assert Digits(n)[..k] == Digits(n);
      DigitsInjective(n, m);
    } else {
      var m' := DigitsPrefix(n, k);
      DigitsInjective(m, m');
    }
  }

  /** What every decimal of sign `negative` looks like behind its sign. */
  lemma DecimalMagnitude(v: int, s: seq<Byte>, negative: bool, start: nat)
    requires s == Decimal(v)
    requires negative == (s[0] == MINUS) && start == (if negative then 1 else 0)
    ensures negative == (v < 0)
    ensures s[start..] == Digits(if v < 0 then -v else v)
  {}

  /** Text that is no sign and digits denotes nothing. */
  lemma NotDigits(s: seq<Byte>, negative: bool, start: nat, at: nat)
    requires |s| > 0 && negative == (s[0] == MINUS) && start == (if negative then 1 else 0)
    requires start <= at < |s|
    requires !IsDigit(s[at]) || (at == start && s[at] == ZERO && (negative || |s| > 1))
    ensures ParseLongLong(s) == None
  {
    hide Digits;
    forall w | IsLongLong(w) ensures Decimal(w) != s {
      if Decimal(w) == s {
        DecimalMagnitude(w, s, negative, start);
        assert s[start..][at - start] == s[at];
        ZeroDigits(if w < 0 then -w else w);
      }
    }
    NoParse(s);
  }

  lemma ZeroDigits(n: nat)
    ensures Digits(n)[0] == ZERO ==> n == 0 && |Digits(n)| == 1
    ensures forall i | 0 <= i < |Digits(n)| :: IsDigit(Digits(n)[i])
  {
  }

  /** The digits of `string2ll`, from `start` on: an unsigned long long, or None for text it refuses. */
  method ReadMagnitude(s: seq<Byte>, ghost negative: bool, start: nat) returns (value: Option<nat>)
    requires |s| > 0 && negative == (s[0] == MINUS) && start == (if negative then 1 else 0) && start < |s|
    requires !negative && |s| == 1 ==> s[0] != ZERO
    ensures value.None? ==> ParseLongLong(s) == None
    ensures value.Some? ==> value.value <= ULLONG_MAX && s[start..] == Digits(value.value) && value.value > 0
  {
    hide Digits, ParseLongLong;
    var plen, v := start, 0;
    if ZERO + 1 <= s[plen] <= ZERO + 9 {
      v := s[plen] - ZERO;
      plen := plen + 1;
      OneDigit(v);
      assert s[start..plen] == Digits(v);
    } else {
      NotDigits(s, negative, start, plen);
      return None;
    }
    while plen < |s| && ZERO <= s[plen] <= ZERO + 9
      invariant start < plen <= |s| && 0 < v <= ULLONG_MAX
      invariant s[start..plen] == Digits(v)
    {
      if v > ULLONG_MAX / 10 {
        TooBig(s, negative, start, plen, v, ULLONG_MAX);
        return None;
      }
      DigitsPush(v, s[plen]);
      assert s[start..plen + 1] == s[start..plen] + [s[plen]];
      v := v * 10;
      if v > ULLONG_MAX - (s[plen] - ZERO) {
        TooBig(s, negative, start, plen + 1, v + (s[plen] - ZERO), ULLONG_MAX);
        return None;
      }
      v := v + (s[plen] - ZERO);
      plen := plen + 1;
    }
    if plen < |s| {
      NotDigits(s, negative, start, plen);
      return None;
    }
    assert s[start..plen] == s[start..];
    return Some(v);
  }

  lemma OneDigit(d: nat)
    requires d < 10
    ensures Digits(d) == [ZERO + d]
  {
  }

  /** Reads a strict decimal with the unsigned accumulator and the overflow guards of the source. */
  method String2ll(s: seq<Byte>) returns (value: Option<int>)
    ensures value == ParseLongLong(s)
  {
    hide Digits, ParseLongLong;
    var slen := |s|;
    var negative := false;
    if slen == 0 {
      NoParse(s);
      return None;
    }
    if slen == 1 && s[0] == ZERO {
      OneDigit(0);
      assert s == Decimal(0);
      ParseDecimal(0);
      return Some(0);
    }
    if s[0] == MINUS {
      negative := true;
      if slen == 1 {
        LoneSign(s);
        return None;
      }
    }
    var magnitude := ReadMagnitude(s, negative, if negative then 1 else 0);
    if magnitude.None? {
      return None;
    }
    var v := magnitude.value;
    if negative {
      if v > -(LLONG_MIN + 1) + 1 {
        assert s[1..|s|] == s[1..];
        TooBig(s, negative, 1, |s|, v, -LLONG_MIN);
        return None;
      }
      assert s == [MINUS] + s[1..] == Decimal(-v);
      ParseDecimal(-v);
      value := Some(-v);
    } else {
      assert s[0..|s|] == s[0..] == s;
      if v > LLONG_MAX {
        TooBig(s, negative, 0, |s|, v, LLONG_MAX);
        return None;
      }
      ParseDecimal(v);
      value := Some(v);
    }
  }

  lemma LoneSign(s: seq<Byte>)
    requires s == [MINUS]
    ensures ParseLongLong(s) == None
  {
    assert forall v :: |Decimal(v)| == 1 ==> Decimal(v)[0] != MINUS;
    NoParse(s);
  }

  lemma TooBig(s: seq<Byte>, negative: bool, start: nat, k: nat, m: nat, bound: nat)
    requires |s| > 0 && negative == (s[0] == MINUS) && start == (if negative then 1 else 0)
    requires start < k <= |s| && s[start..k] == Digits(m)
    requires if k == |s| then m > bound else 10 * m > bound
    requires bound >= LLONG_MAX && (negative ==> bound >= -LLONG_MIN)
    ensures ParseLongLong(s) == None
  {
    forall w | IsLongLong(w) ensures Decimal(w) != s {
      if Decimal(w) == s {
        DecimalMagnitude(w, s, negative, start);
        assert s[start..][..k - start] == s[start..k];
        PrefixOverflow(if w < 0 then -w else w, m, k - start, bound);
      }
    }
    NoParse(s);
  }

  // ---- printing ----

  function Pow10(k: nat): (r: nat)
    ensures r > 0
  {
    if k == 0 then 1 else 10 * Pow10(k - 1)
  }

  /** The digit count is the decimal logarithm. */
  lemma {:induction false} DigitsLength(n: nat, k: nat)
    requires k > 0
    ensures |Digits(n)| <= k <==> n < Pow10(k)
  {
    if k == 1 {
      assert Pow10(1) == 10 * Pow10(0) == 10;
      assert n >= 10 ==> |Digits(n)| == |Digits(n / 10)| + 1;
    } else if n < 10 {
      assert Pow10(k) == 10 * Pow10(k - 1);
    } else {
      DigitsLength(n / 10, k - 1);
      assert n / 10 < Pow10(k - 1) <==> n < 10 * Pow10(k - 1);
    }
  }

  lemma LongLongLength(n: nat)
    requires n <= -LLONG_MIN
    ensures |Digits(n)| <= 19
  {
    assert Pow10(19) == 10_000_000_000_000_000_000 by {
      assert Pow10(4) == 10_000;
      assert Pow10(8) == 100_000_000;
      assert Pow10(12) == 1_000_000_000_000;
      assert Pow10(16) == 10_000_000_000_000_000;
    }
    DigitsLength(n, 19);
  }

  function Reverse(s: seq<Byte>): (r: seq<Byte>)
    ensures |r| == |s| && forall i | 0 <= i < |s| :: r[i] == s[|s| - 1 - i]
  {
    if s == [] then [] else Reverse(s[1..]) + [s[0]]
  }

  /** The two-pointer reversal that ends both printers. */
  method ReverseInPlace(s: array<Byte>, l: nat)
    requires 0 < l <= s.Length
    modifies s
    ensures s[..l] == Reverse(old(s[..l]))
    ensures forall i | l <= i < s.Length :: s[i] == old(s[i])
  {
    var i, j := 0, l - 1;
    while i < j
      invariant 0 <= i <= j + 1 <= l && i + j == l - 1
      invariant forall k | 0 <= k < i || j < k < l :: s[k] == old(s[l - 1 - k])
      invariant forall k | i <= k <= j || l <= k < s.Length :: s[k] == old(s[k])
    {
      s[i], s[j] := s[j], s[i];
      i := i + 1;
      j := j - 1;
    }
  }

  /** The digits of `n`, least significant first, `rest` still to come. */
  ghost predicate Reversed(n: nat, rest: nat, out: seq<Byte>) {
    Digits(n) == (if rest > 0 then Digits(rest) else []) + Reverse(out)
  }

  lemma ReverseSnoc(s: seq<Byte>, b: Byte)
    ensures Reverse(s + [b]) == [b] + Reverse(s)
  {
    assert Reverse(s + [b]) == [b] + Reverse(s);
  }

  lemma PrintStep(n: nat, rest: nat, out: seq<Byte>)
    requires rest > 0 && Reversed(n, rest, out)
    ensures Reversed(n, rest / 10, out + [ZERO + rest % 10])
  {
    var d: Byte := ZERO + rest % 10;
    ReverseSnoc(out, d);
    assert Digits(rest) == (if rest / 10 > 0 then Digits(rest / 10) else []) + [d];
  }

  lemma ReversedRoom(n: nat, rest: nat, out: seq<Byte>)
    requires rest > 0 && Reversed(n, rest, out)
    ensures |out| < |Digits(n)|
  {}

  /** The printers' loop: the digits of `value`, backwards. */
  method PrintBackwards(s: array<Byte>, value: nat) returns (p: nat)
    requires |Digits(value)| <= s.Length
    modifies s
    ensures p == |Digits(value)| && Reverse(s[..p]) == Digits(value)
    ensures forall i | p <= i < s.Length :: s[i] == old(s[i])
  {
    s[0] := ZERO + value % 10;
    p := 1;
    assert s[..p] == [ZERO + value % 10];
    var v: nat := value / 10;
    assert Reversed(value, v, s[..p]);
    while v != 0
      invariant 1 <= p <= |Digits(value)| && Reversed(value, v, s[..p])
      invariant forall i | p <= i < s.Length :: s[i] == old(s[i])
    {
      ghost var before := s[..p];
      PrintStep(value, v, before);
      ReversedRoom(value, v, before);
      s[p] := ZERO + v % 10;
      p := p + 1;
      assert s[..p] == before + [ZERO + v % 10];
      v := v / 10;
    }
  }

  /** Prints into a caller's buffer of `SDS_LLSTR_SIZE` bytes: digits backwards, then reversed in place. */
  method Sdsll2str(s: array<Byte>, value: int) returns (l: nat)
    requires s.Length >= 21 && IsLongLong(value)
    modifies s
    ensures l <= 20 && s[..l] == Decimal(value) && s[l] == 0
    ensures forall i | 21 <= i < s.Length :: s[i] == old(s[i])
  {
    hide Digits, Reverse;
    LongLongLength(if value < 0 then -value else value);
    l := PrintBackwards(s, if value < 0 then -value else value);
    if value < 0 {
      ghost var before := s[..l];
      ReverseSnoc(before, MINUS);
      s[l] := MINUS;
      l := l + 1;
      assert s[..l] == before + [MINUS];
    }
    s[l] := 0;
    ghost var backwards := s[..l];
    ReverseInPlace(s, l);
    assert s[..l] == Reverse(backwards);
  }

  lemma UnsignedLength(n: nat)
    requires n <= ULLONG_MAX
    ensures |Digits(n)| <= 20
  {
    assert Pow10(20) == 100_000_000_000_000_000_000 by {
      assert Pow10(4) == 10_000;
      assert Pow10(8) == 100_000_000;
      assert Pow10(12) == 1_000_000_000_000;
      assert Pow10(16) == 10_000_000_000_000_000;
    }
    DigitsLength(n, 20);
  }

  /** The unsigned printer. */
  method Sdsull2str(s: array<Byte>, value: nat) returns (l: nat)
    requires s.Length >= 21 && value <= ULLONG_MAX
    modifies s
    ensures l <= 20 && s[..l] == Digits(value) && s[l] == 0
    ensures forall i | 21 <= i < s.Length :: s[i] == old(s[i])
  {
    UnsignedLength(value);
    l := PrintBackwards(s, value);
    s[l] := 0;
    ghost var backwards := s[..l];
    ReverseInPlace(s, l);
    assert s[..l] == Reverse(backwards);
  }

  /** The printer and the strict reader are inverse on every long long. */
  method PrintThenRead(value: int) returns (back: Option<int>)
    requires IsLongLong(value)
    ensures back == Some(value)
  {
    var buf := new Byte[21](_ => 0);
    var l := Sdsll2str(buf, value);
    ParseDecimal(value);
    back := String2ll(buf[..l]);
  }

  /** Counts decimal digits four at a time. */
  method CountDigits(value: nat) returns (result: nat)
    ensures result == |Digits(value)|
  {
    result := 1;
    var v := value;
    while true
      invariant |Digits(value)| == |Digits(v)| + result - 1
      decreases v
    {
      ThousandsLength(v);
      if v < 10 { return; }
      if v < 100 { result := result + 1; return; }
      if v < 1000 { result := result + 2; return; }
      if v < 10000 { result := result + 3; return; }
      v := v / 10000;
      result := result + 4;
    }
  }

  lemma TenthLength(v: nat)
    ensures |Digits(v)| == if v < 10 then 1 else 1 + |Digits(v / 10)|
  {
  }

  lemma ThousandsLength(v: nat)
    ensures v < 10 ==> |Digits(v)| == 1
    ensures 10 <= v < 100 ==> |Digits(v)| == 2
    ensures 100 <= v < 1000 ==> |Digits(v)| == 3
    ensures 1000 <= v < 10000 ==> |Digits(v)| == 4
    ensures v >= 10000 ==> |Digits(v)| == |Digits(v / 10000)| + 4
  {
    hide Digits;
    TenthLength(v);
    TenthLength(v / 10);
    TenthLength(v / 10 / 10);
    TenthLength(v / 10 / 10 / 10);
    assert v / 10 / 10 / 10 / 10 == v / 10000;
  }
}
