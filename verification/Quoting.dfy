/**
 The quoting printer and the argument splitter of hiredis/sds.c. A line is a C string: it ends at its first NUL
 byte or at its end, and reading there yields 0.
 */
module Quoting {
  import opened ByteStrings

  const NUL: Byte := 0
  const TAB: Byte := Code('\t')
  const SPACE: Byte := Code(' ')
  const DQUOTE: Byte := Code('"')
  const SQUOTE: Byte := Code('\'')
  const BACKSLASH: Byte := Code('\\')
  const LOWER_X: Byte := Code('x')

  // ---------- printing ----------

  /** `isprint` in the C locale. */
  predicate Printable(b: Byte) {
    32 <= b < 127
  }

  function HexDigit(d: nat): (r: Byte)
    requires d < 16
  {
    if d < 10 then 48 + d else 87 + d
  }

  /** How one byte is written between double quotes. */
  function Escape(b: Byte): (r: seq<Byte>)
    ensures r != []
  {
    if b == BACKSLASH || b == DQUOTE then [BACKSLASH, b]
    else if b == LF then [BACKSLASH, Code('n')]
    else if b == CR then [BACKSLASH, Code('r')]
    else if b == TAB then [BACKSLASH, Code('t')]
    else if b == 7 then [BACKSLASH, Code('a')]
    else if b == 8 then [BACKSLASH, Code('b')]
    else if Printable(b) then [b]
    else [BACKSLASH, LOWER_X, HexDigit(b / 16), HexDigit(b % 16)]
  }

  function Escaped(s: seq<Byte>): seq<Byte> {
    if s == [] then [] else Escape(s[0]) + Escaped(s[1..])
  }

  /** The quoted representation of a byte string. */
  function Quoted(s: seq<Byte>): seq<Byte> {
    [DQUOTE] + Escaped(s) + [DQUOTE]
  }

  /** `sdscatrepr`: appends the quoted representation of `p` to `s`. */
  method CatRepr(s: seq<Byte>, p: seq<Byte>) returns (r: seq<Byte>)
    ensures r == s + Quoted(p)
  {
    r := s + [DQUOTE];
    assert p[0..] == p;
    Associate(s, [DQUOTE], Escaped(p) + [DQUOTE]);
    Associate([DQUOTE], Escaped(p), [DQUOTE]);
    var i := 0;
    while i < |p|
      invariant 0 <= i <= |p|
      invariant r + (Escaped(p[i..]) + [DQUOTE]) == s + Quoted(p)
    {
      var c := p[i];
      assert Escaped(p[i..]) == Escape(c) + Escaped(p[i + 1..]) by {
        assert p[i..][0] == c && p[i..][1..] == p[i + 1..];
      }
      hide Escaped, Escape;
      ghost var before := r;
      r := EscapeOne(r, c);
      Associate(before, Escape(c), Escaped(p[i + 1..]) + [DQUOTE]);
      Associate(Escape(c), Escaped(p[i + 1..]), [DQUOTE]);
      i := i + 1;
    }
    assert Escaped(p[i..]) + [DQUOTE] == [DQUOTE];
    r := r + [DQUOTE];
  }

  /** The switch of `sdscatrepr`. */
  method EscapeOne(s: seq<Byte>, c: Byte) returns (r: seq<Byte>)
    ensures r == s + Escape(c)
  {
    if c == BACKSLASH || c == DQUOTE {
      r := s + [BACKSLASH, c];
    } else if c == LF {
      r := s + [BACKSLASH, Code('n')];
    } else if c == CR {
      r := s + [BACKSLASH, Code('r')];
    } else if c == TAB {
      r := s + [BACKSLASH, Code('t')];
    } else if c == 7 {
      r := s + [BACKSLASH, Code('a')];
    } else if c == 8 {
      r := s + [BACKSLASH, Code('b')];
    } else if 32 <= c < 127 {
      r := s + [c];
    } else {
      r := s + [BACKSLASH, LOWER_X, HexDigit(c / 16), HexDigit(c % 16)];
    }
  }

  // ---------- splitting ----------

  /** `isspace` in the C locale. */
  predicate Blank(b: Byte) {
    b == SPACE || TAB <= b <= CR
  }

  /** The blanks that end a bare word. */
  predicate EndsWord(b: Byte) {
    b == SPACE || b == LF || b == CR || b == TAB
  }

  function At(line: seq<Byte>, p: nat): Byte {
    if p < |line| then line[p] else NUL
  }

  predicate IsHexDigit(c: Byte) {
    48 <= c <= 57 || 97 <= c <= 102 || 65 <= c <= 70
  }

  function HexValue(c: Byte): (r: nat)
    ensures r < 16
    ensures forall d: nat | d < 16 && c == HexDigit(d) :: r == d
  {
    if 48 <= c <= 57 then c - 48
    else if 97 <= c <= 102 then c - 87
    else if 65 <= c <= 70 then c - 55
    else 0
  }

  /** What a backslash followed by `c` stands for between double quotes. */
  function Unescape(c: Byte): Byte {
    if c == Code('n') then LF
    else if c == Code('r') then CR
    else if c == Code('t') then TAB
    else if c == Code('b') then 8
    else if c == Code('a') then 7
    else c
  }

  function SkipBlanks(line: seq<Byte>, p: nat): (r: nat)
    requires p <= |line|
    ensures p <= r <= |line| && !Blank(At(line, r))
    decreases |line| - p
  {
    if Blank(At(line, p)) then SkipBlanks(line, p + 1) else p
  }

  datatype Mode = Bare | Double | Single
  datatype Scan = Failed | Done(token: seq<Byte>, next: nat)

  predicate ClosesWell(c: Byte) {
    c == NUL || Blank(c)
  }

  /** Reads on from `p` in a token of which `current` is known: what the token is and where reading stops. */
  function Token(line: seq<Byte>, p: nat, mode: Mode, current: seq<Byte>): (r: Scan)
    requires p <= |line|
    ensures r.Done? ==> p <= r.next <= |line|
    ensures r.Done? && At(line, p) != NUL ==> p < r.next
    decreases |line| - p
  {
    var c := At(line, p);
    match mode
    case Double =>
      if c == BACKSLASH && At(line, p + 1) == LOWER_X && IsHexDigit(At(line, p + 2)) && IsHexDigit(At(line, p + 3)) then
        Token(line, p + 4, Double, current + [HexValue(At(line, p + 2)) * 16 + HexValue(At(line, p + 3))])
      else if c == BACKSLASH && At(line, p + 1) != NUL then
        Token(line, p + 2, Double, current + [Unescape(At(line, p + 1))])
      else if c == DQUOTE then if ClosesWell(At(line, p + 1)) then Done(current, p + 1) else Failed
      else if c == NUL then Failed
      else Token(line, p + 1, Double, current + [c])
    case Single =>
      if c == BACKSLASH && At(line, p + 1) == SQUOTE then Token(line, p + 2, Single, current + [SQUOTE])
      else if c == SQUOTE then if ClosesWell(At(line, p + 1)) then Done(current, p + 1) else Failed
      else if c == NUL then Failed
      else Token(line, p + 1, Single, current + [c])
    case Bare =>
      if EndsWord(c) then Done(current, p + 1)
      else if c == NUL then Done(current, p)
      else if c == DQUOTE then Token(line, p + 1, Double, current)
      else if c == SQUOTE then Token(line, p + 1, Single, current)
      else Token(line, p + 1, Bare, current + [c])
  }

  /** The arguments from `p` on, after those in `known`; `None` for unbalanced quotes or text after a closing quote. */
  function Split(line: seq<Byte>, p: nat, known: seq<seq<Byte>>): Option<seq<seq<Byte>>>
    requires p <= |line|
    decreases |line| - p
  {
    var q := SkipBlanks(line, p);
    if At(line, q) == NUL then Some(known)
    else match Token(line, q, Bare, [])
      case Failed => None
      case Done(token, next) => Split(line, next, known + [token])
  }

  /** `sdssplitargs`. */
  method SplitArgs(line: seq<Byte>) returns (args: Option<seq<seq<Byte>>>)
    ensures args == Split(line, 0, [])
  {
    hide Token;
    var p := 0;
    var vector: seq<seq<Byte>> := [];
    while true
      invariant 0 <= p <= |line|
      invariant Split(line, p, vector) == Split(line, 0, [])
      decreases |line| - p
    {
      ghost var start := p;
      while At(line, p) != NUL && Blank(At(line, p))
        invariant start <= p <= |line| && SkipBlanks(line, p) == SkipBlanks(line, start)
        decreases |line| - p
      {
        p := p + 1;
      }
      if At(line, p) == NUL {
        return Some(vector);
      }
      var scan := GetToken(line, p);
      if scan.Failed? {
        return None;
      }
      vector := vector + [scan.token];
      p := scan.next;
    }
  }

  /** The inner loop of `sdssplitargs`: one token, or wrong quotes. */
  method GetToken(line: seq<Byte>, start: nat) returns (scan: Scan)
    requires start <= |line|
    ensures scan == Token(line, start, Bare, [])
  {
    hide Unescape, HexValue, IsHexDigit;
    var p := start;
    var inq, insq, done := false, false, false;
    var current: seq<Byte> := [];
    while !done
      invariant start <= p <= |line| && !(inq && insq)
      invariant !done ==> Token(line, p, ModeOf(inq, insq), current) == Token(line, start, Bare, [])
      invariant done ==> Token(line, start, Bare, []) == Done(current, p)
      decreases !done, |line| - p
    {
      var c := At(line, p);
      if inq {
        if c == BACKSLASH && At(line, p + 1) == LOWER_X && IsHexDigit(At(line, p + 2)) && IsHexDigit(At(line, p + 3)) {
          HexDigitIsByte(At(line, p + 2));
          HexDigitIsByte(At(line, p + 3));
          current := current + [HexValue(At(line, p + 2)) * 16 + HexValue(At(line, p + 3))];
          p := p + 3;
        } else if c == BACKSLASH && At(line, p + 1) != NUL {
          p := p + 1;
          current := current + [Unescape(At(line, p))];
        } else if c == DQUOTE {
          if At(line, p + 1) != NUL && !Blank(At(line, p + 1)) {
            return Failed;
          }
          done := true;
        } else if c == NUL {
          return Failed;
        } else {
          current := current + [c];
        }
      } else if insq {
        if c == BACKSLASH && At(line, p + 1) == SQUOTE {
          p := p + 1;
          current := current + [SQUOTE];
        } else if c == SQUOTE {
          if At(line, p + 1) != NUL && !Blank(At(line, p + 1)) {
            return Failed;
          }
          done := true;
        } else if c == NUL {
          return Failed;
        } else {
          current := current + [c];
        }
      } else {
        if c == SPACE || c == LF || c == CR || c == TAB || c == NUL {
          done := true;
        } else if c == DQUOTE {
          inq := true;
        } else if c == SQUOTE {
          insq := true;
        } else {
          current := current + [c];
        }
      }
      if At(line, p) != NUL {
        p := p + 1;
      }
    }
    return Done(current, p);
  }

  lemma HexDigitIsByte(c: Byte)
    ensures IsHexDigit(c) ==> c != NUL
  {
  }

  function ModeOf(inq: bool, insq: bool): Mode {
    if inq then Double else if insq then Single else Bare
  }

  // ---------- the round trip ----------

  /** Words that stand for themselves. */
  predicate BareWord(arg: seq<Byte>) {
    && arg != [] && !Blank(arg[0])
    && forall i | 0 <= i < |arg| :: arg[i] != NUL && !EndsWord(arg[i]) && arg[i] != DQUOTE && arg[i] != SQUOTE
  }

  /** How a byte string is written between single quotes: only the quote itself is escaped. */
  function SingleEscaped(s: seq<Byte>): seq<Byte> {
    if s == [] then []
    else SingleOne(s[0]) + SingleEscaped(s[1..])
  }

  /** The ways to write an argument: quoted, bare, or between single quotes. */
  predicate Spells(text: seq<Byte>, arg: seq<Byte>) {
    || text == Quoted(arg)
    || (BareWord(arg) && text == arg)
    || (NUL !in arg && (arg == [] || arg[|arg| - 1] != BACKSLASH) && text == [SQUOTE] + SingleEscaped(arg) + [SQUOTE])
  }

  predicate Here(line: seq<Byte>, p: nat, text: seq<Byte>) {
    p + |text| <= |line| && forall k | 0 <= k < |text| :: At(line, p + k) == text[k]
  }

  lemma HereSplit(line: seq<Byte>, p: nat, a: seq<Byte>, b: seq<Byte>)
    requires Here(line, p, a + b)
    ensures Here(line, p, a) && Here(line, p + |a|, b)
  {
    forall k | 0 <= k < |a| ensures At(line, p + k) == a[k] {
      assert (a + b)[k] == a[k];
    }
    forall k | 0 <= k < |b| ensures At(line, p + |a| + k) == b[k] {
      assert (a + b)[|a| + k] == b[k];
      assert p + |a| + k == p + (|a| + k);
    }
  }

  /** A one-byte head. */
  lemma HereHead(line: seq<Byte>, p: nat, text: seq<Byte>)
    requires Here(line, p, text) && text != []
    ensures p < |line| && At(line, p) == text[0] && Here(line, p + 1, text[1..])
  {
    assert At(line, p + 0) == text[0];
    assert text == [text[0]] + text[1..];
    HereSplit(line, p, [text[0]], text[1..]);
  }

  /** Between double quotes the splitter undoes the printer, byte for byte. */
  lemma {:induction false} ReadEscaped(line: seq<Byte>, p: nat, s: seq<Byte>, current: seq<Byte>)
    requires Here(line, p, Escaped(s))
    ensures Token(line, p, Double, current) == Token(line, p + |Escaped(s)|, Double, current + s)
    decreases |s|
  {
    hide Token, Escape, Here;
    if s == [] {
      assert current + s == current;
    } else {
      var one, rest := Escape(s[0]), Escaped(s[1..]);
      HereSplit(line, p, one, rest);
      EscapeReads(line, p, s[0], current);
      ReadEscaped(line, p + |one|, s[1..], current + [s[0]]);
      assert current + [s[0]] + s[1..] == current + s;
    }
  }

  lemma EscapeReads(line: seq<Byte>, p: nat, b: Byte, current: seq<Byte>)
    requires Here(line, p, Escape(b))
    ensures Token(line, p, Double, current) == Token(line, p + |Escape(b)|, Double, current + [b])
  {
    hide Token, HexValue, IsHexDigit, HexDigit;
    var e := Escape(b);
    assert At(line, p + 0) == e[0];
    if |e| == 4 {
      assert At(line, p + 1) == e[1] && At(line, p + 2) == e[2] && At(line, p + 3) == e[3];
      HexRoundTrip(b);
      TokenHex(line, p, current, e[2], e[3]);
    } else if |e| == 2 {
      assert At(line, p + 1) == e[1];
      TokenPair(line, p, current, e[1]);
    } else {
      TokenOne(line, p, current);
    }
  }

  lemma HexRoundTrip(b: Byte)
    ensures var h, l := HexDigit(b / 16), HexDigit(b % 16);
            IsHexDigit(h) && IsHexDigit(l) && HexValue(h) * 16 + HexValue(l) == b
  {
  }

  lemma TokenHex(line: seq<Byte>, p: nat, current: seq<Byte>, h: Byte, l: Byte)
    requires p + 4 <= |line| && At(line, p) == BACKSLASH && At(line, p + 1) == LOWER_X
    requires At(line, p + 2) == h && At(line, p + 3) == l && IsHexDigit(h) && IsHexDigit(l)
    ensures HexValue(h) * 16 + HexValue(l) < 256
    ensures Token(line, p, Double, current) == Token(line, p + 4, Double, current + [HexValue(h) * 16 + HexValue(l)])
  {
  }

  lemma TokenPair(line: seq<Byte>, p: nat, current: seq<Byte>, c: Byte)
    requires p + 2 <= |line| && At(line, p) == BACKSLASH && At(line, p + 1) == c && c != NUL && c != LOWER_X
    ensures Token(line, p, Double, current) == Token(line, p + 2, Double, current + [Unescape(c)])
  {
  }

  lemma TokenOne(line: seq<Byte>, p: nat, current: seq<Byte>)
    requires p < |line| && At(line, p) != BACKSLASH && At(line, p) != DQUOTE && At(line, p) != NUL
    ensures Token(line, p, Double, current) == Token(line, p + 1, Double, current + [At(line, p)])
  {
  }

  /** How one byte is written between single quotes. */
  function SingleOne(b: Byte): (r: seq<Byte>)
    ensures r != []
  {
    if b == SQUOTE then [BACKSLASH, SQUOTE] else [b]
  }

  /** One byte between single quotes is read back; `next` is the byte after it. */
  lemma SingleReads(line: seq<Byte>, p: nat, b: Byte, next: Byte, current: seq<Byte>)
    requires Here(line, p, SingleOne(b)) && b != NUL && At(line, p + |SingleOne(b)|) == next
    requires b == BACKSLASH ==> next != SQUOTE
    ensures Token(line, p, Single, current) == Token(line, p + |SingleOne(b)|, Single, current + [b])
  {
    hide Here;
    HereHead(line, p, SingleOne(b));
    if b == SQUOTE {
      HereHead(line, p + 1, SingleOne(b)[1..]);
    }
  }

  lemma {:induction false} ReadSingle(line: seq<Byte>, p: nat, s: seq<Byte>, current: seq<Byte>)
    requires Here(line, p, SingleEscaped(s) + [SQUOTE]) && NUL !in s && (s == [] || s[|s| - 1] != BACKSLASH)
    ensures Token(line, p, Single, current) == Token(line, p + |SingleEscaped(s)|, Single, current + s)
    decreases |s|
  {
    hide Here, Token;
    if s == [] {
      assert current + s == current;
    } else {
      var one, rest := SingleOne(s[0]), SingleEscaped(s[1..]) + [SQUOTE];
      assert SingleEscaped(s) + [SQUOTE] == one + rest;
      HereSplit(line, p, one, rest);
      HereHead(line, p + |one|, rest);
      assert s[0] == BACKSLASH ==> rest[0] != SQUOTE;
      SingleReads(line, p, s[0], rest[0], current);
      ReadSingle(line, p + |one|, s[1..], current + [s[0]]);
      assert current + [s[0]] + s[1..] == current + s;
    }
  }

  lemma {:induction false} ReadBare(line: seq<Byte>, p: nat, s: seq<Byte>, current: seq<Byte>)
    requires Here(line, p, s)
    requires forall i | 0 <= i < |s| :: s[i] != NUL && !EndsWord(s[i]) && s[i] != DQUOTE && s[i] != SQUOTE
    ensures Token(line, p, Bare, current) == Token(line, p + |s|, Bare, current + s)
    decreases |s|
  {
    if s == [] {
      assert current + s == current;
    } else {
      HereHead(line, p, s);
      ReadBare(line, p + 1, s[1..], current + [s[0]]);
      assert current + [s[0]] + s[1..] == current + s;
    }
  }

  lemma ReadQuoted(line: seq<Byte>, p: nat, arg: seq<Byte>)
    requires Here(line, p, Quoted(arg)) && ClosesWell(At(line, p + |Quoted(arg)|))
    ensures At(line, p) == DQUOTE && Token(line, p, Bare, []) == Done(arg, p + |Quoted(arg)|)
  {
    hide Here, Escaped;
    var body := Escaped(arg);
    assert Quoted(arg)[1..] == body + [DQUOTE];
    HereHead(line, p, Quoted(arg));
    HereSplit(line, p + 1, body, [DQUOTE]);
    HereHead(line, p + 1 + |body|, [DQUOTE]);
    ReadEscaped(line, p + 1, arg, []);
    assert [] + arg == arg;
  }

  lemma ReadSingleQuoted(line: seq<Byte>, p: nat, arg: seq<Byte>)
    requires Here(line, p, [SQUOTE] + SingleEscaped(arg) + [SQUOTE])
    requires NUL !in arg && (arg == [] || arg[|arg| - 1] != BACKSLASH)
    requires ClosesWell(At(line, p + |SingleEscaped(arg)| + 2))
    ensures At(line, p) == SQUOTE && Token(line, p, Bare, []) == Done(arg, p + |SingleEscaped(arg)| + 2)
  {
    hide Here, SingleEscaped;
    var body := SingleEscaped(arg);
    var text := [SQUOTE] + body + [SQUOTE];
    assert text[1..] == body + [SQUOTE];
    HereHead(line, p, text);
    HereSplit(line, p + 1, body, [SQUOTE]);
    HereHead(line, p + 1 + |body|, [SQUOTE]);
    ReadSingle(line, p + 1, arg, []);
    assert [] + arg == arg;
  }

  lemma ReadBareWord(line: seq<Byte>, p: nat, arg: seq<Byte>)
    requires Here(line, p, arg) && BareWord(arg)
    requires var end := p + |arg|; end == |line| || EndsWord(At(line, end))
    ensures At(line, p) != NUL && !Blank(At(line, p))
    ensures var r := Token(line, p, Bare, []);
            r.Done? && r.token == arg && SkipBlanks(line, r.next) == SkipBlanks(line, p + |arg|)
  {
    HereHead(line, p, arg);
    hide Here;
    ReadBare(line, p, arg, []);
    assert [] + arg == arg;
  }

  /** A spelled argument followed by a blank or by the end of the line is read as that argument. */
  lemma ReadSpelled(line: seq<Byte>, p: nat, text: seq<Byte>, arg: seq<Byte>)
    requires Here(line, p, text) && Spells(text, arg)
    requires var end := p + |text|; end == |line| || EndsWord(At(line, end))
    ensures At(line, p) != NUL && !Blank(At(line, p))
    ensures var r := Token(line, p, Bare, []);
            r.Done? && r.token == arg && SkipBlanks(line, r.next) == SkipBlanks(line, p + |text|)
  {
    hide Here, Escaped, SingleEscaped, Token;
    if text == Quoted(arg) {
      ReadQuoted(line, p, arg);
    } else if BareWord(arg) && text == arg {
      ReadBareWord(line, p, arg);
    } else {
      ReadSingleQuoted(line, p, arg);
    }
  }

  /** A line: the first gap, then every text with the gap after it. */
  function Line(texts: seq<seq<Byte>>, gaps: seq<seq<Byte>>): seq<Byte>
    requires |gaps| == |texts| + 1
  {
    if texts == [] then gaps[0] else gaps[0] + (texts[0] + Line(texts[1..], gaps[1..]))
  }

  /** Gaps are blank; those between two texts are not empty; those after a text start with an end of word. */
  predicate GapsFit(gaps: seq<seq<Byte>>) {
    && (forall i, k | 0 <= i < |gaps| && 0 <= k < |gaps[i]| :: Blank(gaps[i][k]))
    && (forall i | 1 <= i < |gaps| - 1 :: gaps[i] != [])
    && (forall i | 1 <= i < |gaps| && gaps[i] != [] :: EndsWord(gaps[i][0]))
  }

  lemma {:induction false} SkipGap(line: seq<Byte>, p: nat, gap: seq<Byte>)
    requires Here(line, p, gap) && forall k | 0 <= k < |gap| :: Blank(gap[k])
    ensures SkipBlanks(line, p) == SkipBlanks(line, p + |gap|)
    decreases |gap|
  {
    if gap != [] {
      HereHead(line, p, gap);
      SkipGap(line, p + 1, gap[1..]);
    }
  }

  lemma SplitStep(line: seq<Byte>, p: nat, known: seq<seq<Byte>>, gap: seq<Byte>, text: seq<Byte>, arg: seq<Byte>)
    requires Here(line, p, gap) && Here(line, p + |gap|, text) && Spells(text, arg)
    requires forall k | 0 <= k < |gap| :: Blank(gap[k])
    requires var end := p + |gap| + |text|; end == |line| || EndsWord(At(line, end))
    ensures p + |gap| + |text| <= |line|
    ensures Split(line, p, known) == Split(line, p + |gap| + |text|, known + [arg])
  {
    assert p + |gap| + |text| <= |line|;
    hide Token, Here, Spells;
    SkipGap(line, p, gap);
    ReadSpelled(line, p + |gap|, text, arg);
  }

  lemma LineIs(texts: seq<seq<Byte>>, gaps: seq<seq<Byte>>)
    requires texts != [] && |gaps| == |texts| + 1
    ensures Line(texts, gaps) == gaps[0] + (texts[0] + Line(texts[1..], gaps[1..]))
  {
  }

  lemma RestHead(texts: seq<seq<Byte>>, gaps: seq<seq<Byte>>)
    requires texts != [] && |gaps| == |texts| + 1 && GapsFit(gaps)
    ensures var rest := Line(texts[1..], gaps[1..]); rest != [] ==> EndsWord(rest[0])
  {
    hide EndsWord, Blank;
    var rest := Line(texts[1..], gaps[1..]);
    if rest != [] {
      assert gaps[1..][0] == gaps[1] && gaps[1] != [];
      assert rest[0] == gaps[1][0];
    }
  }

  lemma LineStep(line: seq<Byte>, p: nat, texts: seq<seq<Byte>>, gaps: seq<seq<Byte>>)
    requires texts != [] && |gaps| == |texts| + 1 && GapsFit(gaps)
    requires Here(line, p, Line(texts, gaps)) && p + |Line(texts, gaps)| == |line|
    ensures var mid := p + |gaps[0]|; var end := mid + |texts[0]|; var rest := Line(texts[1..], gaps[1..]);
            && Here(line, p, gaps[0]) && Here(line, mid, texts[0]) && Here(line, end, rest)
            && end + |rest| == |line| && (end == |line| || EndsWord(At(line, end)))
  {
    hide Line, Here, GapsFit, EndsWord;
    var mid := p + |gaps[0]|;
    var end := mid + |texts[0]|;
    var rest := Line(texts[1..], gaps[1..]);
    LineIs(texts, gaps);
    RestHead(texts, gaps);
    HereSplit(line, p, gaps[0], texts[0] + rest);
    HereSplit(line, mid, texts[0], rest);
    if rest != [] {
      HereHead(line, end, rest);
    }
  }

  lemma GapsStep(gaps: seq<seq<Byte>>)
    requires gaps != [] && GapsFit(gaps)
    ensures GapsFit(gaps[1..]) && forall k | 0 <= k < |gaps[0]| :: Blank(gaps[0][k])
  {
  }

  lemma SplitEnd(line: seq<Byte>, p: nat, known: seq<seq<Byte>>, gaps: seq<seq<Byte>>)
    requires |gaps| == 1 && GapsFit(gaps) && Here(line, p, Line([], gaps)) && p + |Line([], gaps)| == |line|
    ensures Split(line, p, known) == Some(known)
  {
    SkipGap(line, p, gaps[0]);
  }

  /** Splitting a line of arguments, each spelled in any of the ways and any blanks between, gives the arguments. */
  lemma {:induction false} SplitFrom(line: seq<Byte>, p: nat, known: seq<seq<Byte>>, texts: seq<seq<Byte>>,
                                     args: seq<seq<Byte>>, gaps: seq<seq<Byte>>)
    requires |texts| == |args| && |gaps| == |texts| + 1 && GapsFit(gaps)
    requires forall i | 0 <= i < |texts| :: Spells(texts[i], args[i])
    requires Here(line, p, Line(texts, gaps)) && p + |Line(texts, gaps)| == |line|
    ensures Split(line, p, known) == Some(known + args)
    decreases |texts|
  {
    hide Split, Spells, Line, Here, GapsFit;
    if texts == [] {
      SplitEnd(line, p, known, gaps);
      assert known + args == known;
    } else {
      GapsStep(gaps);
      LineStep(line, p, texts, gaps);
      SplitStep(line, p, known, gaps[0], texts[0], args[0]);
      SplitFrom(line, p + |gaps[0]| + |texts[0]|, known + [args[0]], texts[1..], args[1..], gaps[1..]);
      assert known + [args[0]] + args[1..] == known + args;
    }
  }

  /** The quoted representations of `args`, one space between each two. */
  function SpaceJoined(args: seq<seq<Byte>>): seq<Byte> {
    if args == [] then []
    else if |args| == 1 then Quoted(args[0])
    else Quoted(args[0]) + ([SPACE] + SpaceJoined(args[1..]))
  }

  function Quotes(args: seq<seq<Byte>>): seq<seq<Byte>> {
    seq(|args|, i requires 0 <= i < |args| => Quoted(args[i]))
  }

  /** The two functions are inverse: any list of byte strings comes back from its quoted representations. */
  lemma {:induction false} QuoteThenSplit(args: seq<seq<Byte>>)
    ensures Split(SpaceJoined(args), 0, []) == Some(args)
  {
    hide Split, SpaceJoined, Line;
    var gaps := seq(|args| + 1, i => if 1 <= i < |args| then [SPACE] else []);
    var line := SpaceJoined(args);
    JoinedIsLine(args, gaps);
    assert [] + line == line;
    SplitFrom(line, 0, [], Quotes(args), args, gaps);
    assert [] + args == args;
  }

  lemma {:induction false} JoinedIsLine(args: seq<seq<Byte>>, gaps: seq<seq<Byte>>)
    requires |gaps| == |args| + 1 && (args != [] ==> gaps[|args|] == [])
    requires forall i | 1 <= i < |args| :: gaps[i] == [SPACE]
    ensures Line(Quotes(args), gaps) == gaps[0] + SpaceJoined(args)
    decreases |args|
  {
    hide Quoted;
    if args != [] {
      assert Quotes(args)[1..] == Quotes(args[1..]);
      JoinedIsLine(args[1..], gaps[1..]);
      assert gaps[1..][0] == gaps[1];
    }
  }
}
