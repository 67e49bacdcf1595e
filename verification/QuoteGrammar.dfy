/**
 The lines that the argument splitter of hiredis/sds.c accepts, as a grammar: words of bare bytes, each with at most
 one quoted part at its end. The splitter is proved to accept exactly these lines, with these arguments.
 */
module QuoteGrammar {
  import opened ByteStrings
  import opened Quoting

  /** What may stand between double quotes: two hexadecimal digits in either case, an escaped byte, a byte. */
  datatype DoublePart =
    | Hex(high: nat, low: nat, upperHigh: bool, upperLow: bool)
    | Pair(letter: Byte)
    | Raw(byte: Byte)

  /** And between single quotes. */
  datatype SinglePart = Apostrophe | Itself(byte: Byte)

  datatype Tail = Ends | InDouble(double: seq<DoublePart>) | InSingle(single: seq<SinglePart>)

  datatype Word = Word(bare: seq<Byte>, tail: Tail)

  // ---- how it is written ----

  function Digit(v: nat, upper: bool): Byte
    requires v < 16
  {
    if v < 10 then Code('0') + v else (if upper then Code('A') else Code('a')) + (v - 10)
  }

  predicate IsHex(b: Byte) {
    || Code('0') <= b <= Code('9')
    || Code('a') <= b <= Code('f')
    || Code('A') <= b <= Code('F')
  }

  predicate PartOk(p: DoublePart) {
    match p
    case Hex(h, l, _, _) => h < 16 && l < 16
    case Pair(c) => c != 0
    case Raw(b) => b != 0 && b != Code('"') && b != Code('\\')
  }

  function PartText(p: DoublePart): (r: seq<Byte>)
    ensures r != []
  {
    match p
    case Hex(h, l, a, b) => if h < 16 && l < 16 then [Code('\\'), Code('x'), Digit(h, a), Digit(l, b)] else [0]
    case Pair(c) => [Code('\\'), c]
    case Raw(b) => [b]
  }

  function DoubleText(parts: seq<DoublePart>): seq<Byte> {
    if parts == [] then [] else PartText(parts[0]) + DoubleText(parts[1..])
  }

  /** `\x` is an escaped `x` only where two hexadecimal digits do not follow. */
  predicate DoubleOk(parts: seq<DoublePart>) {
    parts == []
    || (&& PartOk(parts[0]) && DoubleOk(parts[1..])
        && (parts[0] == Pair(Code('x')) ==>
              var more := DoubleText(parts[1..]); !(|more| >= 2 && IsHex(more[0]) && IsHex(more[1]))))
  }

  function SinglePartText(p: SinglePart): (r: seq<Byte>)
    ensures r != []
  {
    if p.Apostrophe? then [Code('\\'), Code('\'')] else [p.byte]
  }

  function SingleText(parts: seq<SinglePart>): seq<Byte> {
    if parts == [] then [] else SinglePartText(parts[0]) + SingleText(parts[1..])
  }

  /** A backslash stands for itself only where no apostrophe follows. */
  predicate SingleOk(parts: seq<SinglePart>) {
    parts == []
    || (&& SingleOk(parts[1..])
        && (parts[0].Itself? ==> parts[0].byte != 0 && parts[0].byte != Code('\''))
        && (parts[0] == Itself(Code('\\')) ==> |parts| > 1 && SingleText(parts[1..])[..1] != [Code('\'')]))
  }

  predicate Space(b: Byte) {
    b == Code(' ') || b == Code('\t') || b == Code('\n') || b == 11 || b == 12 || b == Code('\r')
  }

  /** Blanks that end a bare word; vertical tab and form feed do not. */
  predicate Stop(b: Byte) {
    b == Code(' ') || b == Code('\t') || b == Code('\n') || b == Code('\r')
  }

  predicate BareOk(bare: seq<Byte>) {
    forall i | 0 <= i < |bare| :: bare[i] != 0 && !Stop(bare[i]) && bare[i] != Code('"') && bare[i] != Code('\'')
  }

  predicate WordOk(w: Word) {
    && BareOk(w.bare) && (w.bare != [] ==> !Space(w.bare[0]))
    && TailOk(w.tail) && (w.tail.Ends? ==> w.bare != [])
  }

  predicate TailOk(t: Tail) {
    (t.InDouble? ==> DoubleOk(t.double)) && (t.InSingle? ==> SingleOk(t.single))
  }

  function WordText(w: Word): seq<Byte> {
    w.bare + TailText(w.tail)
  }

  function TailText(t: Tail): seq<Byte> {
    match t
    case Ends => []
    case InDouble(parts) => [Code('"')] + DoubleText(parts) + [Code('"')]
    case InSingle(parts) => [Code('\'')] + SingleText(parts) + [Code('\'')]
  }

  /** What may come behind the word: nothing, or a blank. */
  predicate Follows(t: Tail, rest: seq<Byte>) {
    rest == [] || if t.Ends? then Stop(rest[0]) else Space(rest[0])
  }

  // ---- what it means ----

  function PartMeant(p: DoublePart): Byte {
    match p
    case Hex(h, l, _, _) => if h < 16 && l < 16 then 16 * h + l else 0
    case Pair(c) =>
      if c == Code('n') then Code('\n')
      else if c == Code('r') then Code('\r')
      else if c == Code('t') then Code('\t')
      else if c == Code('a') then 7
      else if c == Code('b') then 8
      else c
    case Raw(b) => b
  }

  function DoubleMeant(parts: seq<DoublePart>): seq<Byte> {
    if parts == [] then [] else [PartMeant(parts[0])] + DoubleMeant(parts[1..])
  }

  function SinglePartMeant(p: SinglePart): Byte {
    if p.Apostrophe? then Code('\'') else p.byte
  }

  function SingleMeant(parts: seq<SinglePart>): seq<Byte> {
    if parts == [] then [] else [SinglePartMeant(parts[0])] + SingleMeant(parts[1..])
  }

  function TailMeant(t: Tail): seq<Byte> {
    match t
    case Ends => []
    case InDouble(parts) => DoubleMeant(parts)
    case InSingle(parts) => SingleMeant(parts)
  }

  function WordMeant(w: Word): seq<Byte> {
    w.bare + TailMeant(w.tail)
  }

  function Meant(words: seq<Word>): (r: seq<seq<Byte>>)
    ensures |r| == |words|
  {
    if words == [] then [] else [WordMeant(words[0])] + Meant(words[1..])
  }

  predicate AllSpace(s: seq<Byte>) {
    forall i | 0 <= i < |s| :: Space(s[i])
  }

  /** A text without NUL is blanks, a word, blanks, a word, and so on, to its end. */
  ghost predicate IsLine(s: seq<Byte>, words: seq<Word>)
    decreases |words|
  {
    if words == [] then AllSpace(s)
    else exists gap, rest :: FirstWord(s, gap, words[0], rest) && IsLine(rest, words[1..])
  }

  predicate FirstWord(s: seq<Byte>, gap: seq<Byte>, w: Word, rest: seq<Byte>) {
    AllSpace(gap) && WordOk(w) && Follows(w.tail, rest) && s == gap + (WordText(w) + rest)
  }

  // ---- the bytes before the first NUL are all that matters ----

  function BeforeNul(line: seq<Byte>): (r: seq<Byte>)
    ensures 0 !in r && r <= line && (|r| < |line| ==> line[|r|] == 0)
  {
    if line == [] || line[0] == 0 then []
    else
      var r := BeforeNul(line[1..]);
      assert line == [line[0]] + line[1..];
      [line[0]] + r
  }

  lemma AtSame(line: seq<Byte>, p: nat)
    requires p <= |BeforeNul(line)|
    ensures At(line, p) == At(BeforeNul(line), p)
  {
  }

  lemma {:induction false} DoubleSame(line: seq<Byte>, p: nat, current: seq<Byte>)
    requires p <= |BeforeNul(line)|
    ensures Token(line, p, Double, current) == Token(BeforeNul(line), p, Double, current)
    decreases |line| - p
  {
    hide BeforeNul, HexValue, IsHexDigit, Unescape;
    var n := |BeforeNul(line)|;
    AtSame(line, p);
    if p < n {
      AtSame(line, p + 1);
      DoubleSame(line, p + 1, current + [At(line, p)]);
      if p + 1 < n {
        AtSame(line, p + 2);
        DoubleSame(line, p + 2, current + [Unescape(At(line, p + 1))]);
        if p + 2 < n {
          AtSame(line, p + 3);
          if p + 3 < n && IsHexDigit(At(line, p + 2)) && IsHexDigit(At(line, p + 3)) {
            DoubleSame(line, p + 4, current + [HexValue(At(line, p + 2)) * 16 + HexValue(At(line, p + 3))]);
          }
        }
      }
      HexDigitIsByte(At(line, p + 2));
      HexDigitIsByte(At(line, p + 3));
    }
  }

  lemma {:induction false} SingleSame(line: seq<Byte>, p: nat, current: seq<Byte>)
    requires p <= |BeforeNul(line)|
    ensures Token(line, p, Single, current) == Token(BeforeNul(line), p, Single, current)
    decreases |line| - p
  {
    hide BeforeNul;
    var n := |BeforeNul(line)|;
    AtSame(line, p);
    if p < n {
      AtSame(line, p + 1);
      SingleSame(line, p + 1, current + [At(line, p)]);
      if p + 1 < n {
        SingleSame(line, p + 2, current + [SQUOTE]);
      }
    }
  }

  lemma {:induction false} BareSame(line: seq<Byte>, p: nat, current: seq<Byte>)
    requires p <= |BeforeNul(line)|
    ensures Token(line, p, Bare, current) == Token(BeforeNul(line), p, Bare, current)
    decreases |line| - p
  {
    hide BeforeNul;
    AtSame(line, p);
    if p < |BeforeNul(line)| {
      DoubleSame(line, p + 1, current);
      SingleSame(line, p + 1, current);
      BareSame(line, p + 1, current + [At(line, p)]);
    }
  }

  lemma {:induction false} SkipSame(line: seq<Byte>, p: nat)
    requires p <= |BeforeNul(line)|
    ensures SkipBlanks(line, p) == SkipBlanks(BeforeNul(line), p) <= |BeforeNul(line)|
    decreases |line| - p
  {
    hide BeforeNul;
    AtSame(line, p);
    if Blank(At(line, p)) {
      SkipSame(line, p + 1);
    }
  }

  lemma {:induction false} SplitSame(line: seq<Byte>, p: nat, known: seq<seq<Byte>>)
    requires p <= |BeforeNul(line)|
    ensures Split(line, p, known) == Split(BeforeNul(line), p, known)
    decreases |line| - p
  {
    hide BeforeNul, Token, SkipBlanks;
    SkipSame(line, p);
    var q := SkipBlanks(line, p);
    AtSame(line, q);
    BareSame(line, q, []);
    match Token(line, q, Bare, [])
    case Failed =>
    case Done(token, next) =>
      if At(line, q) != NUL {
        SplitSame(line, next, known + [token]);
      }
  }

  // ---- one step of the splitter, on what is left of a text without NUL ----

  lemma SpaceIs(b: Byte)
    ensures Blank(b) <==> Space(b)
    ensures EndsWord(b) <==> Stop(b)
    ensures IsHexDigit(b) <==> IsHex(b)
  {
  }

  lemma LeftIs(e: seq<Byte>, p: nat, k: nat)
    requires 0 !in e && p <= |e|
    ensures At(e, p + k) == if k < |e| - p then e[p..][k] else 0
    ensures k < |e| - p ==> e[p..][k] != 0
  {
  }

  lemma DoubleStep(e: seq<Byte>, p: nat, current: seq<Byte>)
    requires 0 !in e && p <= |e|
    ensures var s := e[p..];
            Token(e, p, Double, current)
            == if s == [] then Failed
               else if s[0] == Code('\\') && |s| >= 4 && s[1] == Code('x') && IsHex(s[2]) && IsHex(s[3]) then
                 Token(e, p + 4, Double, current + [HexValue(s[2]) * 16 + HexValue(s[3])])
               else if s[0] == Code('\\') && |s| >= 2 then Token(e, p + 2, Double, current + [Unescape(s[1])])
               else if s[0] == Code('"') then if |s| == 1 || Space(s[1]) then Done(current, p + 1) else Failed
               else Token(e, p + 1, Double, current + [s[0]])
  {
    hide HexValue, Unescape, IsHex, IsHexDigit, Space, Blank;
    LeftIs(e, p, 0);
    LeftIs(e, p, 1);
    LeftIs(e, p, 2);
    LeftIs(e, p, 3);
    SpaceIs(At(e, p + 1));
    SpaceIs(At(e, p + 2));
    SpaceIs(At(e, p + 3));
    HexDigitIsByte(At(e, p + 2));
    HexDigitIsByte(At(e, p + 3));
  }

  lemma SingleStep(e: seq<Byte>, p: nat, current: seq<Byte>)
    requires 0 !in e && p <= |e|
    ensures var s := e[p..];
            Token(e, p, Single, current)
            == if s == [] then Failed
               else if s[0] == Code('\\') && |s| >= 2 && s[1] == Code('\'') then
                 Token(e, p + 2, Single, current + [Code('\'')])
               else if s[0] == Code('\'') then if |s| == 1 || Space(s[1]) then Done(current, p + 1) else Failed
               else Token(e, p + 1, Single, current + [s[0]])
  {
    hide Space, Blank;
    LeftIs(e, p, 0);
    LeftIs(e, p, 1);
    SpaceIs(At(e, p + 1));
  }

  lemma BareStep(e: seq<Byte>, p: nat, current: seq<Byte>)
    requires 0 !in e && p <= |e|
    ensures var s := e[p..];
            Token(e, p, Bare, current)
            == if s == [] then Done(current, p)
               else if Stop(s[0]) then Done(current, p + 1)
               else if s[0] == Code('"') then Token(e, p + 1, Double, current)
               else if s[0] == Code('\'') then Token(e, p + 1, Single, current)
               else Token(e, p + 1, Bare, current + [s[0]])
  {
    hide Stop, EndsWord;
    LeftIs(e, p, 0);
    SpaceIs(At(e, p));
    NulIs();
  }

  lemma NulIs()
    ensures !Stop(0) && !Space(0)
  {
  }

  lemma DigitIs(v: nat, upper: bool)
    requires v < 16
    ensures IsHex(Digit(v, upper)) && HexValue(Digit(v, upper)) == v
  {
  }

  lemma DigitOf(b: Byte) returns (v: nat, upper: bool)
    requires IsHex(b)
    ensures v < 16 && Digit(v, upper) == b && HexValue(b) == v
  {
    if b <= Code('9') {
      v, upper := b - Code('0'), false;
    } else if b >= Code('a') {
      v, upper := b - Code('a') + 10, false;
    } else {
      v, upper := b - Code('A') + 10, true;
    }
  }

  lemma LetterIs(c: Byte)
    ensures Unescape(c) == PartMeant(Pair(c))
  {
  }

  // ---- what is written is read ----

  /** A double-quoted part, its closing quote, and what follows: well-closed it is read, else the splitter fails. */
  lemma {:induction false} DoubleReads(e: seq<Byte>, p: nat, parts: seq<DoublePart>, rest: seq<Byte>, current: seq<Byte>)
    requires 0 !in e && p <= |e| && e[p..] == DoubleText(parts) + ([Code('"')] + rest) && DoubleOk(parts)
    ensures Token(e, p, Double, current)
         == if rest == [] || Space(rest[0]) then Done(current + DoubleMeant(parts), |e| - |rest|) else Failed
    decreases |parts|
  {
    hide Token, PartText, PartMeant, IsHex, Space;
    if parts == [] {
      DoubleStep(e, p, current);
      assert [] + ([Code('"')] + rest) == [Code('"')] + rest && current + [] == current;
    } else {
      var t, end := DoubleText(parts[1..]), [Code('"')] + rest;
      var m := PartMeant(parts[0]);
      Associate(PartText(parts[0]), t, end);
      QuoteNotHex();
      PartReads(e, p, parts[0], t + end, current);
      DoubleReads(e, p + |PartText(parts[0])|, parts[1..], rest, current + [m]);
      Associate(current, [m], DoubleMeant(parts[1..]));
    }
  }

  /** One part between double quotes. */
  lemma PartReads(e: seq<Byte>, p: nat, part: DoublePart, more: seq<Byte>, current: seq<Byte>)
    requires 0 !in e && p <= |e| && e[p..] == PartText(part) + more && PartOk(part)
    requires part == Pair(Code('x')) ==> !(|more| >= 2 && IsHex(more[0]) && IsHex(more[1]))
    ensures p + |PartText(part)| <= |e| && e[p + |PartText(part)|..] == more
    ensures Token(e, p, Double, current) == Token(e, p + |PartText(part)|, Double, current + [PartMeant(part)])
  {
    hide Token, HexValue, Unescape, IsHex, Space, Digit;
    DoubleStep(e, p, current);
    assert e[p..][|PartText(part)|..] == more;
    match part
    case Hex(h, l, a, b) =>
      DigitIs(h, a);
      DigitIs(l, b);
    case Pair(c) =>
      LetterIs(c);
    case Raw(b) =>
  }

  lemma QuoteNotHex()
    ensures !IsHex(Code('"'))
  {
  }

  lemma {:induction false} SingleReadsAll(e: seq<Byte>, p: nat, parts: seq<SinglePart>, rest: seq<Byte>,
                                          current: seq<Byte>)
    requires 0 !in e && p <= |e| && e[p..] == SingleText(parts) + ([Code('\'')] + rest) && SingleOk(parts)
    ensures Token(e, p, Single, current)
         == if rest == [] || Space(rest[0]) then Done(current + SingleMeant(parts), |e| - |rest|) else Failed
    decreases |parts|
  {
    hide Token, Space;
    var s := e[p..];
    SingleStep(e, p, current);
    if parts == [] {
      assert [] + ([Code('\'')] + rest) == [Code('\'')] + rest && current + [] == current;
    } else {
      var more := SingleText(parts[1..]) + ([Code('\'')] + rest);
      var n := if parts[0].Apostrophe? then 2 else 1;
      assert e[p + n..] == s[n..] == more;
      var m := if parts[0].Apostrophe? then Code('\'') else parts[0].byte;
      SingleReadsAll(e, p + n, parts[1..], rest, current + [m]);
      Associate(current, [m], SingleMeant(parts[1..]));
      if parts[0] == Itself(Code('\\')) {
        var t := SingleText(parts[1..]);
        assert t != [] && t[0] == t[..1][0] == s[1] != Code('\'');
      }
    }
  }

  lemma {:induction false} BareReads(e: seq<Byte>, p: nat, bare: seq<Byte>, rest: seq<Byte>, current: seq<Byte>)
    requires 0 !in e && p <= |e| && e[p..] == bare + rest && BareOk(bare)
    ensures Token(e, p, Bare, current) == Token(e, p + |bare|, Bare, current + bare)
    ensures e[p + |bare|..] == rest
    decreases |bare|
  {
    hide Token, Stop;
    if bare == [] {
      assert current + bare == current;
    } else {
      BareStep(e, p, current);
      assert e[p + 1..] == e[p..][1..] == bare[1..] + rest;
      BareReads(e, p + 1, bare[1..], rest, current + [bare[0]]);
      assert current + [bare[0]] + bare[1..] == current + bare;
    }
  }

  /** What is left behind a bare word: its tail, and what follows. */
  lemma TailReads(e: seq<Byte>, q: nat, bare: seq<Byte>, t: Tail, rest: seq<Byte>)
    requires 0 !in e && q <= |e| && e[q..] == TailText(t) + rest && Follows(t, rest)
    requires TailOk(t)
    ensures var r := Token(e, q, Bare, bare);
            r.Done? && r.token == bare + TailMeant(t) && SkipBlanks(e, r.next) == SkipBlanks(e, |e| - |rest|)
  {
    hide *;
    if t.Ends? {
      EndsReads(e, q, bare, rest);
    } else {
      QuotedReads(e, q, bare, t, rest);
    }
  }

  lemma EndsReads(e: seq<Byte>, q: nat, bare: seq<Byte>, rest: seq<Byte>)
    requires 0 !in e && q <= |e| && e[q..] == TailText(Ends) + rest && Follows(Ends, rest)
    ensures var r := Token(e, q, Bare, bare);
            r.Done? && r.token == bare + TailMeant(Ends) && SkipBlanks(e, r.next) == SkipBlanks(e, |e| - |rest|)
  {
    hide Token, Stop, Space, Blank;
    BareStep(e, q, bare);
    assert TailText(Ends) + rest == rest && bare + [] == bare;
    if rest != [] {
      SpaceIs(rest[0]);
      StopIsSpace(rest[0]);
      LeftIs(e, q, 0);
    }
  }

  lemma QuotedReads(e: seq<Byte>, q: nat, bare: seq<Byte>, t: Tail, rest: seq<Byte>)
    requires 0 !in e && q <= |e| && e[q..] == TailText(t) + rest && Follows(t, rest) && !t.Ends?
    requires TailOk(t)
    ensures Token(e, q, Bare, bare) == Done(bare + TailMeant(t), |e| - |rest|)
  {
    hide Token, Stop, Space, DoubleOk, SingleOk, DoubleText, SingleText, DoubleMeant, SingleMeant;
    BareStep(e, q, bare);
    NotStops();
    var body := if t.InDouble? then DoubleText(t.double) else SingleText(t.single);
    var quote := if t.InDouble? then Code('"') else Code('\'');
    Between(quote, body, rest);
    assert e[q + 1..] == e[q..][1..];
    if t.InDouble? {
      DoubleReads(e, q + 1, t.double, rest, bare);
    } else {
      SingleReadsAll(e, q + 1, t.single, rest, bare);
    }
  }

  lemma Between(quote: Byte, body: seq<Byte>, rest: seq<Byte>)
    ensures var s := [quote] + body + [quote] + rest; s[0] == quote && s[1..] == body + ([quote] + rest)
  {
  }

  /** A word that is followed as it must be is read as what it means. */
  lemma WordReads(e: seq<Byte>, p: nat, w: Word, rest: seq<Byte>)
    requires 0 !in e && p <= |e| && e[p..] == WordText(w) + rest && WordOk(w) && Follows(w.tail, rest)
    ensures var r := Token(e, p, Bare, []);
            r.Done? && r.token == WordMeant(w) && SkipBlanks(e, r.next) == SkipBlanks(e, |e| - |rest|)
  {
    hide *;
    WordIs(w, rest);
    var q := BareReadsFirst(e, p, w.bare, TailText(w.tail) + rest);
    TailReads(e, q, w.bare, w.tail, rest);
  }

  lemma BareReadsFirst(e: seq<Byte>, p: nat, bare: seq<Byte>, rest: seq<Byte>) returns (q: nat)
    requires 0 !in e && p <= |e| && e[p..] == bare + rest && BareOk(bare)
    ensures q <= |e| && e[q..] == rest && Token(e, p, Bare, []) == Token(e, q, Bare, bare)
  {
    hide Token, BareOk;
    BareReads(e, p, bare, rest, []);
    assert [] + bare == bare;
    q := p + |bare|;
  }

  lemma WordIs(w: Word, rest: seq<Byte>)
    requires WordOk(w)
    ensures WordText(w) + rest == w.bare + (TailText(w.tail) + rest) && WordMeant(w) == w.bare + TailMeant(w.tail)
    ensures BareOk(w.bare) && TailOk(w.tail) && [] + w.bare == w.bare
  {
    hide BareOk, DoubleOk, SingleOk, TailText, TailMeant;
    Associate(w.bare, TailText(w.tail), rest);
  }

  lemma StopIsSpace(b: Byte)
    ensures Stop(b) ==> Space(b)
  {
  }

  lemma NotStops()
    ensures !Stop(Code('"')) && !Stop(Code('\'')) && !Space(Code('"')) && !Space(Code('\''))
  {
  }

  lemma {:induction false} GapSkipped(e: seq<Byte>, p: nat, gap: seq<Byte>, rest: seq<Byte>)
    requires 0 !in e && p <= |e| && e[p..] == gap + rest && AllSpace(gap)
    ensures SkipBlanks(e, p) == SkipBlanks(e, |e| - |rest|) && e[|e| - |rest|..] == rest
    decreases |gap|
  {
    hide Space, Blank;
    if gap != [] {
      LeftIs(e, p, 0);
      SpaceIs(gap[0]);
      assert e[p + 1..] == e[p..][1..] == gap[1..] + rest;
      GapSkipped(e, p + 1, gap[1..], rest);
    }
  }

  lemma WordStarts(w: Word, rest: seq<Byte>)
    requires WordOk(w)
    ensures var s := WordText(w) + rest; s != [] && !Space(s[0])
  {
    NotStops();
    if w.bare != [] {
      assert (WordText(w) + rest)[0] == w.bare[0];
    }
  }

  lemma NoBlankHere(e: seq<Byte>, p: nat)
    requires 0 !in e && p <= |e| && (p == |e| || !Space(e[p]))
    ensures SkipBlanks(e, p) == p
  {
    if p < |e| {
      SpaceIs(e[p]);
    }
  }

  /** Where the blanks are skipped to is all that a split depends on. */
  lemma SplitFromBlanks(e: seq<Byte>, p: nat, q: nat, known: seq<seq<Byte>>)
    requires p <= |e| && q <= |e| && SkipBlanks(e, p) == SkipBlanks(e, q)
    ensures Split(e, p, known) == Split(e, q, known)
  {
    hide Token, SkipBlanks;
  }

  lemma {:induction false} LineReads(e: seq<Byte>, p: nat, words: seq<Word>, known: seq<seq<Byte>>)
    requires 0 !in e && p <= |e| && IsLine(e[p..], words)
    ensures Split(e, p, known) == Some(known + Meant(words))
    decreases |words|
  {
    hide Token, SkipBlanks, Split, WordOk, WordText, WordMeant, Follows, AllSpace, Space;
    var s := e[p..];
    if words == [] {
      assert s == s + [] && known + [] == known;
      GapSkipped(e, p, s, []);
      SplitNothing(e, p, known);
    } else {
      var gap, rest :| FirstWord(s, gap, words[0], rest) && IsLine(rest, words[1..]);
      var w := words[0];
      GapSkipped(e, p, gap, WordText(w) + rest);
      var q := |e| - |WordText(w) + rest|;
      WordStarts(w, rest);
      NoBlankHere(e, q);
      WordReads(e, q, w, rest);
      SplitOne(e, p, q, known);
      var next := Token(e, q, Bare, []).next;
      var after := |e| - |rest|;
      SplitFromBlanks(e, next, after, known + [WordMeant(w)]);
      assert e[q..][|WordText(w)|..] == rest && e[after..] == rest;
      LineReads(e, after, words[1..], known + [WordMeant(w)]);
      Associate(known, [WordMeant(w)], Meant(words[1..]));
    }
  }

  lemma SplitNothing(e: seq<Byte>, p: nat, known: seq<seq<Byte>>)
    requires 0 !in e && p <= |e| && SkipBlanks(e, p) == SkipBlanks(e, |e|)
    ensures Split(e, p, known) == Some(known)
  {
    NoBlankHere(e, |e|);
  }

  lemma SplitOne(e: seq<Byte>, p: nat, q: nat, known: seq<seq<Byte>>)
    requires 0 !in e && p <= |e| && q < |e| && SkipBlanks(e, p) == q
    ensures var r := Token(e, q, Bare, []);
            Split(e, p, known) == if r.Done? then Split(e, r.next, known + [r.token]) else None
  {
    hide Token, SkipBlanks;
    LeftIs(e, q, 0);
  }

  // ---- what is read is written so ----

  lemma {:induction false} DoubleWas(e: seq<Byte>, p: nat, current: seq<Byte>)
    returns (parts: seq<DoublePart>, rest: seq<Byte>)
    requires 0 !in e && p <= |e| && Token(e, p, Double, current).Done?
    ensures DoubleOk(parts) && e[p..] == DoubleText(parts) + ([Code('"')] + rest) && (rest == [] || Space(rest[0]))
    ensures Token(e, p, Double, current) == Done(current + DoubleMeant(parts), |e| - |rest|)
    decreases |e| - p
  {
    hide Token, HexValue, Unescape, IsHex, Space, Digit;
    var s := e[p..];
    DoubleStep(e, p, current);
    if s[0] == Code('"') {
      parts, rest := [], s[1..];
      assert s == [] + ([Code('"')] + rest) && current + [] == current;
    } else {
      if |s| == 1 {
        DoubleStep(e, p + 1, current + [s[0]]);
      }
      LeftNotNul(e, p);
      var part := DoublePartAt(s);
      var n := |PartText(part)|;
      var t := s[n..];
      assert e[p + n..] == t && s == PartText(part) + t;
      var more;
      more, rest := DoubleWas(e, p + n, current + [PartMeant(part)]);
      parts := [part] + more;
      DoubleCons(part, more, [Code('"')] + rest, current);
      if part == Pair(Code('x')) {
        assert |DoubleText(more)| >= 2 ==> s[2] == DoubleText(more)[0] && s[3] == DoubleText(more)[1];
      }
    }
  }

  lemma LeftNotNul(e: seq<Byte>, p: nat)
    requires 0 !in e && p <= |e|
    ensures 0 !in e[p..]
  {
  }

  /** The part at the front of what is left before the closing quote. */
  lemma DoublePartAt(s: seq<Byte>) returns (part: DoublePart)
    requires s != [] && 0 !in s && s[0] != Code('"') && (s[0] == Code('\\') ==> |s| >= 2)
    ensures PartOk(part) && PartText(part) <= s
    ensures if s[0] == Code('\\') && |s| >= 4 && s[1] == Code('x') && IsHex(s[2]) && IsHex(s[3]) then
              |PartText(part)| == 4 && part.Hex? && PartMeant(part) == HexValue(s[2]) * 16 + HexValue(s[3])
            else if s[0] == Code('\\') then part == Pair(s[1]) && PartMeant(part) == Unescape(s[1])
            else part == Raw(s[0])
  {
    hide HexValue, Unescape, IsHex, Digit;
    if s[0] == Code('\\') && |s| >= 4 && s[1] == Code('x') && IsHex(s[2]) && IsHex(s[3]) {
      var h, a := DigitOf(s[2]);
      var l, b := DigitOf(s[3]);
      part := Hex(h, l, a, b);
      assert s == PartText(part) + s[4..];
    } else if s[0] == Code('\\') {
      part := Pair(s[1]);
      LetterIs(s[1]);
    } else {
      part := Raw(s[0]);
    }
  }

  lemma {:induction false} SingleWas(e: seq<Byte>, p: nat, current: seq<Byte>)
    returns (parts: seq<SinglePart>, rest: seq<Byte>)
    requires 0 !in e && p <= |e| && Token(e, p, Single, current).Done?
    ensures SingleOk(parts) && e[p..] == SingleText(parts) + ([Code('\'')] + rest) && (rest == [] || Space(rest[0]))
    ensures Token(e, p, Single, current) == Done(current + SingleMeant(parts), |e| - |rest|)
    decreases |e| - p
  {
    hide Token, Space;
    var s := e[p..];
    SingleStep(e, p, current);
    LeftIs(e, p, 0);
    if s[0] == Code('\'') {
      parts, rest := [], s[1..];
      assert s == [] + ([Code('\'')] + rest) && current + [] == current;
    } else {
      var quoted := s[0] == Code('\\') && |s| >= 2 && s[1] == Code('\'');
      var part := if quoted then Apostrophe else Itself(s[0]);
      var n := |SinglePartText(part)|;
      var left := s[n..];
      assert e[p + n..] == left && s == SinglePartText(part) + left;
      var more;
      more, rest := SingleWas(e, p + n, current + [SinglePartMeant(part)]);
      parts := [part] + more;
      SingleCons(part, more, [Code('\'')] + rest, current);
      if part == Itself(Code('\\')) {
        SingleTextHead(more, [Code('\'')] + rest);
      }
    }
  }

  lemma SingleCons(part: SinglePart, more: seq<SinglePart>, end: seq<Byte>, current: seq<Byte>)
    ensures SinglePartText(part) + (SingleText(more) + end) == SingleText([part] + more) + end
    ensures current + [SinglePartMeant(part)] + SingleMeant(more) == current + SingleMeant([part] + more)
    ensures ([part] + more)[1..] == more
  {
    assert ([part] + more)[1..] == more;
    Associate(SinglePartText(part), SingleText(more), end);
    Associate(current, [SinglePartMeant(part)], SingleMeant(more));
  }

  lemma SingleTextHead(parts: seq<SinglePart>, end: seq<Byte>)
    requires end != []
    ensures (SingleText(parts) + end)[0] == if parts == [] then end[0] else SingleText(parts)[0]
    ensures parts != [] ==> SingleText(parts) != [] && SingleText(parts)[..1] == [SingleText(parts)[0]]
  {
  }

  lemma DoubleCons(part: DoublePart, more: seq<DoublePart>, end: seq<Byte>, current: seq<Byte>)
    ensures PartText(part) + (DoubleText(more) + end) == DoubleText([part] + more) + end
    ensures current + [PartMeant(part)] + DoubleMeant(more) == current + DoubleMeant([part] + more)
    ensures ([part] + more)[1..] == more
  {
    hide PartText, PartMeant;
    assert ([part] + more)[1..] == more;
    Associate(PartText(part), DoubleText(more), end);
    Associate(current, [PartMeant(part)], DoubleMeant(more));
  }

  lemma InDoubleWas(e: seq<Byte>, p: nat, current: seq<Byte>) returns (t: Tail, rest: seq<Byte>)
    requires 0 !in e && p < |e| && e[p] == Code('"') && Token(e, p + 1, Double, current).Done?
    ensures TailOk(t) && !t.Ends? && e[p..] == TailText(t) + rest && Follows(t, rest)
    ensures Token(e, p + 1, Double, current) == Done(current + TailMeant(t), |e| - |rest|)
  {
    hide Token, Space, Stop, DoubleOk, SingleOk, DoubleText, SingleText, DoubleMeant, SingleMeant;
    var parts;
    parts, rest := DoubleWas(e, p + 1, current);
    t := InDouble(parts);
    Between(Code('"'), DoubleText(parts), rest);
    assert e[p..] == [e[p]] + e[p + 1..];
    Quotes([Code('"')], DoubleText(parts), rest);
  }

  lemma InSingleWas(e: seq<Byte>, p: nat, current: seq<Byte>) returns (t: Tail, rest: seq<Byte>)
    requires 0 !in e && p < |e| && e[p] == Code('\'') && Token(e, p + 1, Single, current).Done?
    ensures TailOk(t) && !t.Ends? && e[p..] == TailText(t) + rest && Follows(t, rest)
    ensures Token(e, p + 1, Single, current) == Done(current + TailMeant(t), |e| - |rest|)
  {
    hide Token, Space, Stop, DoubleOk, SingleOk, DoubleText, SingleText, DoubleMeant, SingleMeant;
    var parts;
    parts, rest := SingleWas(e, p + 1, current);
    t := InSingle(parts);
    assert e[p..] == [e[p]] + e[p + 1..];
    Quotes([Code('\'')], SingleText(parts), rest);
  }

  lemma Quotes(q: seq<Byte>, body: seq<Byte>, rest: seq<Byte>)
    ensures q + (body + (q + rest)) == q + body + q + rest
  {
  }

  /** The end of a bare word, and the tail there. */
  lemma TailWas(e: seq<Byte>, p: nat, current: seq<Byte>) returns (t: Tail, rest: seq<Byte>)
    requires 0 !in e && p <= |e| && Token(e, p, Bare, current).Done?
    requires p == |e| || Stop(e[p]) || e[p] == Code('"') || e[p] == Code('\'')
    ensures TailOk(t) && e[p..] == TailText(t) + rest && Follows(t, rest)
    ensures var r := Token(e, p, Bare, current);
            && r.token == current + TailMeant(t) && SkipBlanks(e, r.next) == SkipBlanks(e, |e| - |rest|)
  {
    hide Token, Space, Stop, SkipBlanks, TailOk, TailText, TailMeant, Follows;
    BareStep(e, p, current);
    NotStops();
    if p < |e| && e[p] == Code('"') {
      t, rest := InDoubleWas(e, p, current);
    } else if p < |e| && e[p] == Code('\'') {
      t, rest := InSingleWas(e, p, current);
    } else {
      t, rest := Ends, e[p..];
      StopSkipped(e, p);
      EndsIs(e[p..], current);
    }
  }

  lemma EndsIs(rest: seq<Byte>, current: seq<Byte>)
    ensures TailOk(Ends) && TailText(Ends) + rest == rest && current + TailMeant(Ends) == current
    ensures Follows(Ends, rest) <==> rest == [] || Stop(rest[0])
  {
  }

  lemma {:induction false} BareWas(e: seq<Byte>, p: nat, current: seq<Byte>)
    returns (bare: seq<Byte>, t: Tail, rest: seq<Byte>)
    requires 0 !in e && p <= |e| && Token(e, p, Bare, current).Done?
    ensures BareOk(bare) && e[p..] == bare + (TailText(t) + rest) && Follows(t, rest) && TailOk(t)
    ensures var r := Token(e, p, Bare, current);
            && r.token == current + bare + TailMeant(t) && SkipBlanks(e, r.next) == SkipBlanks(e, |e| - |rest|)
    decreases |e| - p
  {
    hide Token, Space, Stop, SkipBlanks, TailOk, TailText, TailMeant, Follows;
    if p == |e| || Stop(e[p]) || e[p] == Code('"') || e[p] == Code('\'') {
      bare := [];
      t, rest := TailWas(e, p, current);
      assert [] + (TailText(t) + rest) == TailText(t) + rest && current + [] == current;
    } else {
      BareStep(e, p, current);
      LeftIs(e, p, 0);
      var more;
      more, t, rest := BareWas(e, p + 1, current + [e[p]]);
      bare := [e[p]] + more;
      assert e[p..] == [e[p]] + e[p + 1..];
      Associate([e[p]], more, TailText(t) + rest);
      Associate(current, [e[p]], more);
    }
  }

  lemma StopSkipped(e: seq<Byte>, p: nat)
    requires 0 !in e && p <= |e|
    ensures p < |e| && Stop(e[p]) ==> SkipBlanks(e, p) == SkipBlanks(e, p + 1)
  {
    if p < |e| {
      SpaceIs(e[p]);
      StopIsSpace(e[p]);
    }
  }

  lemma {:induction false} LineWas(e: seq<Byte>, p: nat, known: seq<seq<Byte>>) returns (words: seq<Word>)
    requires 0 !in e && p <= |e| && Split(e, p, known).Some?
    ensures IsLine(e[p..], words) && Split(e, p, known) == Some(known + Meant(words))
    decreases |e| - p
  {
    hide *;
    var gap, q := GapAt(e, p);
    if q == |e| {
      words := [];
      SplitNothing(e, p, known);
      LineEnds(e[p..], gap, known);
    } else {
      SplitOne(e, p, q, known);
      var w, rest := FirstWas(e, q);
      var next, after := Token(e, q, Bare, []).next, |e| - |rest|;
      SplitFromBlanks(e, next, after, known + [WordMeant(w)]);
      var more := LineWas(e, after, known + [WordMeant(w)]);
      words := [w] + more;
      LineGoesOn(e[p..], gap, e[q..], w, rest, more, known);
    }
  }

  /** The word that is read at `q`. */
  lemma FirstWas(e: seq<Byte>, q: nat) returns (w: Word, rest: seq<Byte>)
    requires 0 !in e && q < |e| && !Space(e[q]) && Token(e, q, Bare, []).Done?
    ensures WordOk(w) && Follows(w.tail, rest) && |rest| < |e| - q
    ensures e[q..] == WordText(w) + rest && e[|e| - |rest|..] == rest
    ensures var r := Token(e, q, Bare, []);
            r.token == WordMeant(w) && SkipBlanks(e, r.next) == SkipBlanks(e, |e| - |rest|)
  {
    hide Token, SkipBlanks, WordOk, BareOk, Follows, Space, TailText, TailMeant, TailOk;
    var bare, t;
    bare, t, rest := BareWas(e, q, []);
    w := Word(bare, t);
    assert [] + bare == bare;
    WordWas(e, q, w, rest);
    Associate(bare, TailText(t), rest);
    assert e[q..][|e| - q - |rest|..] == rest;
  }

  lemma LineEnds(s: seq<Byte>, gap: seq<Byte>, known: seq<seq<Byte>>)
    requires s == gap && AllSpace(gap)
    ensures IsLine(s, []) && known + Meant([]) == known
  {
  }

  lemma LineGoesOn(s: seq<Byte>, gap: seq<Byte>, t: seq<Byte>, w: Word, rest: seq<Byte>, more: seq<Word>,
                   known: seq<seq<Byte>>)
    requires s == gap + t && AllSpace(gap) && t == WordText(w) + rest && WordOk(w) && Follows(w.tail, rest)
    requires IsLine(rest, more)
    ensures IsLine(s, [w] + more) && known + Meant([w] + more) == known + [WordMeant(w)] + Meant(more)
  {
    hide AllSpace, WordOk, WordText, WordMeant, Follows;
    var words := [w] + more;
    assert words[0] == w && words[1..] == more;
    assert FirstWord(s, gap, words[0], rest) && IsLine(rest, words[1..]) by {
      Associate(gap, WordText(w), rest);
    }
    Associate(known, [WordMeant(w)], Meant(more));
  }

  lemma {:induction false} GapAt(e: seq<Byte>, p: nat) returns (gap: seq<Byte>, q: nat)
    requires 0 !in e && p <= |e|
    ensures q == SkipBlanks(e, p) && p <= q <= |e| && gap == e[p..q] && AllSpace(gap) && e[p..] == gap + e[q..]
    ensures q == |e| ==> e[p..] == gap
    ensures SkipBlanks(e, p) == SkipBlanks(e, q) && (q < |e| ==> !Space(e[q]))
    decreases |e| - p
  {
    hide Space, Blank;
    LeftIs(e, p, 0);
    SpaceIs(At(e, p));
    NulIs();
    if p < |e| && Space(e[p]) {
      gap, q := GapAt(e, p + 1);
      assert e[p..q] == [e[p]] + e[p + 1..q];
      gap := e[p..q];
    } else {
      gap, q := [], p;
    }
  }

  /** A text that does not start with a blank starts with a word, and that is not empty. */
  lemma WordWas(e: seq<Byte>, q: nat, w: Word, rest: seq<Byte>)
    requires q < |e| && !Space(e[q]) && e[q..] == w.bare + (TailText(w.tail) + rest) && Follows(w.tail, rest)
    requires BareOk(w.bare) && TailOk(w.tail)
    ensures WordOk(w) && |rest| < |e| - q
  {
    hide DoubleOk, SingleOk, DoubleText, SingleText, BareOk, Space, Stop;
    assert e[q..][0] == e[q];
    StopIsSpace(e[q]);
    assert w.bare == [] && w.tail.Ends? ==> w.bare + (TailText(w.tail) + rest) == rest;
  }

  /**
   The splitter succeeds iff the bytes before the first NUL are a line of the grammar, and then with what the words
   of the line mean; it fails on every other text: open quotes, or a closing quote with something but a blank behind.
   */
  lemma SplitsExactly(line: seq<Byte>, args: seq<seq<Byte>>)
    ensures Split(line, 0, []) == Some(args) <==> exists words :: IsLine(BeforeNul(line), words) && Meant(words) == args
    ensures Split(line, 0, []) == None <==> !exists words :: IsLine(BeforeNul(line), words)
  {
    hide Split, IsLine, BeforeNul, Meant;
    var e := BeforeNul(line);
    SplitSame(line, 0, []);
    assert e[0..] == e;
    if Split(e, 0, []).Some? {
      var words := LineWas(e, 0, []);
      assert [] + Meant(words) == Meant(words);
    }
    forall words | IsLine(e, words) ensures Split(e, 0, []) == Some(Meant(words)) {
      LineReads(e, 0, words, []);
      assert [] + Meant(words) == Meant(words);
    }
  }
}
