/**
 Format strings as a user writes them, word by word, and what they stand for; with the proof that the formatter of
 hiredis/hiredis.c writes the command of exactly those words, and refuses a `%` that nothing known follows.
 */
module FormatSpelling {
  import opened ByteStrings
  import opened Decimals
  import opened Conversions
  import opened Format

  /** The pieces of a word. `Overlong` is a conversion of 14 bytes or more, `LastPercent` a `%` that ends the format. */
  datatype Part =
    | LastPercent
    | Plain(byte: Byte)
    | PercentSign
    | Text(letter: Byte)
    | Printf(text: seq<Byte>)
    | Overlong(text: seq<Byte>)

  /** `last`: nothing follows. */
  predicate WellSpelled(p: Part, last: bool) {
    match p
    case LastPercent => last
    case Plain(b) => b != Code('%') && b != Code(' ')
    case PercentSign => true
    case Text(letter) => letter == Code('s') || letter == Code('b')
    case Printf(text) => Conversion(text) && |text| <= 12
    case Overlong(text) => Conversion(text) && |text| > 12 && forall i | 0 < i < |text| :: text[i] != Code(' ')
  }

  function Spelled(p: Part): seq<Byte> {
    match p
    case LastPercent => [Code('%')]
    case Plain(b) => [b]
    case PercentSign => [Code('%'), Code('%')]
    case Text(letter) => [Code('%'), letter]
    case Printf(text) => [Code('%')] + text
    case Overlong(text) => [Code('%')] + text
  }

  /** Whether the piece takes a value. */
  predicate Takes(p: Part) {
    p.Text? || p.Printf? || p.Overlong?
  }

  /** What the piece adds to the argument; `value` is the one it takes, if it takes one. */
  function Adds(p: Part, value: seq<Byte>): seq<Byte> {
    match p
    case LastPercent => [Code('%')]
    case Plain(b) => [b]
    case PercentSign => [Code('%')]
    case Text(_) => value
    case Printf(_) => value
    case Overlong(text) => if text == [] then [] else text[1..]
  }

  function Count(p: Part): nat {
    if Takes(p) then 1 else 0
  }

  function SpelledWord(w: seq<Part>): seq<Byte> {
    if w == [] then [] else Spelled(w[0]) + SpelledWord(w[1..])
  }

  predicate WordOk(w: seq<Part>, last: bool) {
    w == [] || (WellSpelled(w[0], last && |w| == 1) && WordOk(w[1..], last))
  }

  /** How many values the words take. */
  function WordNeeds(w: seq<Part>): nat {
    if w == [] then 0 else Count(w[0]) + WordNeeds(w[1..])
  }

  function Needs(words: seq<seq<Part>>): nat {
    if words == [] then 0 else WordNeeds(words[0]) + Needs(words[1..])
  }

  /** A word with its values in place. */
  function FilledWord(w: seq<Part>, values: seq<seq<Byte>>): seq<Byte>
    requires WordNeeds(w) <= |values|
  {
    if w == [] then []
    else if Takes(w[0]) then Adds(w[0], values[0]) + FilledWord(w[1..], values[1..])
    else Adds(w[0], []) + FilledWord(w[1..], values)
  }

  /** The values go to the words in order. */
  function Filled(words: seq<seq<Part>>, values: seq<seq<Byte>>): (r: Argv)
    requires Needs(words) <= |values|
    ensures |r| == |words|
  {
    if words == [] then []
    else [FilledWord(words[0], values)] + Filled(words[1..], values[WordNeeds(words[0])..])
  }

  function Blanks(n: nat): (r: seq<Byte>)
    ensures |r| == n
  {
    seq(n, _ => Code(' '))
  }

  /**
   Non-empty words with `gaps[i]` blanks before word `i`, and `gaps[|words|]` behind the last one; `last` says that
   the format ends there.
   */
  predicate Layout(words: seq<seq<Part>>, gaps: seq<nat>, last: bool) {
    && |gaps| == |words| + 1
    && (words != [] ==>
          && words[0] != [] && WordOk(words[0], last && |words| == 1 && gaps[1] == 0)
          && (|words| > 1 ==> gaps[1] > 0)
          && Layout(words[1..], gaps[1..], last))
  }

  function SpelledLine(words: seq<seq<Part>>, gaps: seq<nat>): seq<Byte>
    requires |gaps| == |words| + 1
  {
    Blanks(gaps[0]) + if words == [] then [] else SpelledWord(words[0]) + SpelledLine(words[1..], gaps[1..])
  }

  // ---- what stands at the front ----

  lemma {:induction false} ConversionBytes(text: seq<Byte>)
    requires Conversion(text)
    ensures text != [] && text[0] != Code('s') && text[0] != Code('b')
    ensures forall i | 0 <= i < |text| :: text[i] != Code('%')
  {
    if !Wide(text) {
      ConversionBytes(text[1..]);
    } else {
      WideBytes(text);
    }
  }

  lemma {:induction false} WideBytes(text: seq<Byte>)
    requires Wide(text)
    ensures text != [] && text[0] != Code('s') && text[0] != Code('b')
    ensures forall i | 0 <= i < |text| :: text[i] != Code('%')
  {
    if !Letter(text) {
      if IsDigit(text[0]) && Wide(text[1..]) {
        WideBytes(text[1..]);
      } else {
        PreciseBytes(text[1..]);
      }
    }
  }

  lemma {:induction false} PreciseBytes(text: seq<Byte>)
    requires Precise(text)
    ensures text != []
    ensures forall i | 0 <= i < |text| :: text[i] != Code('%')
  {
    if !Letter(text) {
      PreciseBytes(text[1..]);
    }
  }

  /** The scanner's first piece of what is spelled like `p`; of an overlong conversion it takes two bytes. */
  lemma FrontIs(p: Part, rest: seq<Byte>)
    requires WellSpelled(p, rest == [])
    ensures var f := Front(Spelled(p) + rest);
            match p
            case LastPercent => f == Some(Piece(Literal(Code('%')), 1))
            case Plain(b) => f == Some(Piece(Literal(b), 1))
            case PercentSign => f == Some(Piece(Literal(Code('%')), 2))
            case Text(_) => f == Some(Piece(Hole, 2))
            case Printf(text) => f == Some(Piece(Hole, 1 + |text|))
            case Overlong(text) => f == Some(Piece(Blank, 2))
  {
    hide Conversion, ConversionEnd;
    if p.Printf? || p.Overlong? {
      ConversionFront(p.text, rest);
    }
  }

  lemma ConversionFront(text: seq<Byte>, rest: seq<Byte>)
    requires Conversion(text)
    ensures Front([Code('%')] + text + rest)
         == Some(if |text| <= 12 then Piece(Hole, 1 + |text|) else Piece(Blank, 2))
  {
    hide *;
    ConversionBytes(text);
    Headed(Code('%'), text, rest);
    ConversionExact(text + rest, |text|);
    FrontConversion([Code('%')] + text + rest, |text|);
  }

  lemma Headed(b: Byte, text: seq<Byte>, rest: seq<Byte>)
    requires text != []
    ensures var f := [b] + text + rest;
            |f| > 1 && f[0] == b && f[1] == text[0] && f[1..] == text + rest && (text + rest)[..|text|] == text
  {
  }

  lemma FrontConversion(f: seq<Byte>, n: nat)
    requires |f| > 1 && f[0] == Code('%') && f[1] !in {Code('%'), Code('s'), Code('b')}
    requires ConversionEnd(f[1..]) == Some(n)
    ensures Front(f) == Some(if n <= 12 then Piece(Hole, 1 + n) else Piece(Blank, 2))
  {
    hide ConversionEnd;
  }

  /** The format uses `n` values; `known` says that it is understood to its end. */
  predicate Good(f: seq<Byte>, n: nat, known: bool) {
    Closed(f) && Known(f) == known && Holes(Tokens(f)) == n
  }

  /** One piece: what the scanner does with it, and what it leaves. */
  lemma PieceReads(cur: Option<seq<Byte>>, f: seq<Byte>, n: nat, known: bool, args: seq<seq<Byte>>)
    requires f != [] && Front(f).Some? && Front(f).value.len <= |f| && Good(f[Front(f).value.len..], n, known)
    requires Uses(Front(f).value.token) + n <= |args|
    ensures var p := Front(f).value;
            && Good(f, Uses(p.token) + n, known)
            && Scan(cur, Tokens(f), args)
               == if p.token.Gap? then Finished(cur) + Scan(None, Tokens(f[p.len..]), args)
                  else Scan(Some(Begun(cur) + Writes(p.token, args)), Tokens(f[p.len..]), args[Uses(p.token)..])
  {
    hide Front, Scan;
    var p := Front(f).value;
    assert Tokens(f) == [p.token] + Tokens(f[p.len..]);
    ScanPiece(cur, f, args);
  }

  lemma {:induction false} PlainReads(c: seq<Byte>, text: seq<Byte>, rest: seq<Byte>, n: nat, known: bool, args: seq<seq<Byte>>)
    requires forall i | 0 <= i < |text| :: text[i] != Code('%') && text[i] != Code(' ')
    requires Good(rest, n, known) && n <= |args|
    ensures Good(text + rest, n, known)
    ensures Scan(Some(c), Tokens(text + rest), args) == Scan(Some(c + text), Tokens(rest), args)
    decreases |text|
  {
    hide Scan, Good, Tokens, Front;
    if text == [] {
      assert text + rest == rest && c + text == c;
    } else {
      PlainReads(c + [text[0]], text[1..], rest, n, known, args);
      FrontIs(Plain(text[0]), text[1..] + rest);
      var f := text + rest;
      assert f == Spelled(Plain(text[0])) + (text[1..] + rest) && f[1..] == text[1..] + rest;
      PieceReads(Some(c), f, n, known, args);
      assert c + [text[0]] + text[1..] == c + text && args[0..] == args;
    }
  }

  lemma PartReads(cur: Option<seq<Byte>>, p: Part, rest: seq<Byte>, n: nat, known: bool, args: seq<seq<Byte>>)
    requires WellSpelled(p, rest == []) && Good(rest, n, known) && Count(p) + n <= |args|
    ensures Good(Spelled(p) + rest, Count(p) + n, known)
    ensures Scan(cur, Tokens(Spelled(p) + rest), args)
         == Scan(Some(Begun(cur) + Adds(p, if Takes(p) then args[0] else [])), Tokens(rest), args[Count(p)..])
  {
    hide Scan, Good, Tokens, Front, Conversion, Begun;
    var f := Spelled(p) + rest;
    if p.Overlong? {
      OverlongReads(cur, p.text, rest, n, known, args);
    } else {
      FrontIs(p, rest);
      assert f[|Spelled(p)|..] == rest;
      PieceReads(cur, f, n, known, args);
    }
  }

  lemma OverlongReads(cur: Option<seq<Byte>>, text: seq<Byte>, rest: seq<Byte>, n: nat, known: bool,
                      args: seq<seq<Byte>>)
    requires WellSpelled(Overlong(text), false) && Good(rest, n, known) && 1 + n <= |args|
    ensures var f := [Code('%')] + text + rest;
            && Good(f, 1 + n, known)
            && Scan(cur, Tokens(f), args) == Scan(Some(Begun(cur) + text[1..]), Tokens(rest), args[1..])
  {
    hide Scan, Good, Tokens, Front, Conversion, Begun;
    var f := [Code('%')] + text + rest;
    ConversionFront(text, rest);
    ConversionBytes(text);
    assert f[2..] == text[1..] + rest;
    PlainReads(Begun(cur) + [], text[1..], rest, n, known, args[1..]);
    PieceReads(cur, f, n, known, args);
    assert Begun(cur) + [] == Begun(cur);
  }

  lemma {:induction false} WordReads(cur: Option<seq<Byte>>, w: seq<Part>, rest: seq<Byte>, n: nat, known: bool, args: seq<seq<Byte>>)
    requires WordOk(w, rest == []) && Good(rest, n, known) && WordNeeds(w) + n <= |args| && (w != [] || cur.Some?)
    ensures Good(SpelledWord(w) + rest, WordNeeds(w) + n, known)
    ensures Scan(cur, Tokens(SpelledWord(w) + rest), args)
         == Scan(Some(Begun(cur) + FilledWord(w, args)), Tokens(rest), args[WordNeeds(w)..])
    decreases |w|
  {
    hide Scan, Good, Tokens, Spelled, Adds, WellSpelled, Begun;
    if w == [] {
      assert [] + rest == rest && Begun(cur) + [] == Begun(cur) && args[0..] == args;
      BegunSome(cur);
    } else {
      var more := SpelledWord(w[1..]) + rest;
      var k := Count(w[0]);
      var added := Adds(w[0], if Takes(w[0]) then args[0] else []);
      MoreThere(w, rest);
      WordReads(Some(Begun(cur) + added), w[1..], rest, n, known, args[k..]);
      PartReads(cur, w[0], more, WordNeeds(w[1..]) + n, known, args);
      BegunSome(Some(Begun(cur) + added));
      Associate(Spelled(w[0]), SpelledWord(w[1..]), rest);
      Associate(Begun(cur), added, FilledWord(w[1..], args[k..]));
      Dropped(args, k, WordNeeds(w[1..]));
    }
  }

  lemma BegunSome(cur: Option<seq<Byte>>)
    ensures cur.Some? ==> Begun(cur) == cur.value && Some(Begun(cur)) == cur
  {
  }

  lemma Dropped<T>(s: seq<T>, k: nat, n: nat)
    requires k + n <= |s|
    ensures s[k..][n..] == s[k + n..] && s[0..] == s
  {
  }

  lemma MoreThere(w: seq<Part>, rest: seq<Byte>)
    requires w != []
    ensures SpelledWord(w[1..]) + rest == [] <==> |w| == 1 && rest == []
  {
    if |w| > 1 {
      assert |Spelled(w[1..][0])| > 0;
    }
  }

  lemma {:induction false} BlanksRead(cur: Option<seq<Byte>>, k: nat, rest: seq<Byte>, n: nat, known: bool, args: seq<seq<Byte>>)
    requires Good(rest, n, known) && n <= |args|
    ensures Good(Blanks(k) + rest, n, known)
    ensures Scan(cur, Tokens(Blanks(k) + rest), args)
         == if k == 0 then Scan(cur, Tokens(rest), args) else Finished(cur) + Scan(None, Tokens(rest), args)
    decreases k
  {
    hide Scan, Good, Tokens;
    GoodIs(rest, n, known);
    var f := Blanks(k) + rest;
    if k == 0 {
      assert f == rest;
    } else {
      BlanksRead(None, k - 1, rest, n, known, args);
      assert f[1..] == Blanks(k - 1) + rest && f[0] == Code(' ');
      PieceReads(cur, f, n, known, args);
      Nothing(Scan(None, Tokens(rest), args));
    }
  }

  lemma GoodIs(f: seq<Byte>, n: nat, known: bool)
    requires Good(f, n, known)
    ensures Holes(Tokens(f)) == n
  {
  }

  lemma Nothing(argv: Argv)
    ensures Finished(None) + argv == argv
  {
  }

  lemma NothingGood()
    ensures Good([], 0, true) && Holes([]) == 0
    ensures forall cur: Option<seq<Byte>>, args: seq<seq<Byte>> :: Scan(cur, Tokens([]), args) == Finished(cur)
  {
  }

  /** A line of words is scanned into exactly its words, filled with the values in order. */
  lemma {:induction false} LineReads(cur: Option<seq<Byte>>, words: seq<seq<Part>>, gaps: seq<nat>, rest: seq<Byte>,
                                     n: nat, known: bool, args: seq<seq<Byte>>)
    requires Layout(words, gaps, rest == []) && Good(rest, n, known) && Needs(words) + n <= |args|
    requires cur.None? || gaps[0] > 0 || words == []
    ensures Good(SpelledLine(words, gaps) + rest, Needs(words) + n, known)
    ensures rest == [] ==>
              Scan(cur, Tokens(SpelledLine(words, gaps) + rest), args) == Finished(cur) + Filled(words, args)
    decreases |words|
  {
    hide Scan, Good, Tokens, WordOk, SpelledWord, WordNeeds, FilledWord;
    NothingGood();
    var line := SpelledLine(words, gaps);
    if words == [] {
      assert line == Blanks(gaps[0]);
      BlanksRead(cur, gaps[0], rest, n, known, args);
      assert Finished(cur) + Finished(None) == Finished(cur) + [] == Finished(cur);
    } else {
      var w, more := words[0], SpelledLine(words[1..], gaps[1..]) + rest;
      var k := WordNeeds(w);
      LineReads(Some(FilledWord(w, args)), words[1..], gaps[1..], rest, n, known, args[k..]);
      Behind(words, gaps, rest);
      WordReads(None, w, more, Needs(words[1..]) + n, known, args);
      BlanksRead(cur, gaps[0], SpelledWord(w) + more, Needs(words) + n, known, args);
      assert line + rest == Blanks(gaps[0]) + (SpelledWord(w) + more);
      assert [] + FilledWord(w, args) == FilledWord(w, args);
      GoodIs(SpelledWord(w) + more, Needs(words) + n, known);
      Nothing(Scan(None, Tokens(SpelledWord(w) + more), args));
      Nothing(Filled(words, args));
    }
  }

  /** Whether anything follows the first word. */
  lemma Behind(words: seq<seq<Part>>, gaps: seq<nat>, rest: seq<Byte>)
    requires words != [] && Layout(words, gaps, rest == [])
    ensures SpelledLine(words[1..], gaps[1..]) + rest == [] <==> rest == [] && |words| == 1 && gaps[1] == 0
    ensures WordOk(words[0], SpelledLine(words[1..], gaps[1..]) + rest == [])
  {
  }

  lemma LineFills(words: seq<seq<Part>>, gaps: seq<nat>, values: seq<seq<Byte>>)
    requires Layout(words, gaps, true) && Needs(words) <= |values|
    ensures var f := SpelledLine(words, gaps);
            && Closed(f) && Known(f) && Holes(Tokens(f)) == Needs(words)
            && Arguments(f, values) == Filled(words, values)
  {
    hide Scan, Known, Closed, Tokens, Words, Fill, Filled, SpelledLine, Holes, Needs;
    var f := LineOnly(words, gaps);
    NothingGood();
    LineReads(None, words, gaps, [], 0, true, values);
    Nothing(Filled(words, values));
    ScanOutside(Tokens(f), values);
  }

  lemma LineOnly(words: seq<seq<Part>>, gaps: seq<nat>) returns (f: seq<Byte>)
    requires |gaps| == |words| + 1
    ensures f == SpelledLine(words, gaps) == SpelledLine(words, gaps) + []
  {
    f := SpelledLine(words, gaps);
  }

  /** A format spelled word by word gives the command of the words, each filled with its values. */
  method FormatWords(words: seq<seq<Part>>, gaps: seq<nat>, values: seq<seq<Byte>>)
    returns (cmd: array<Byte>, totlen: nat)
    requires Layout(words, gaps, true) && Needs(words) <= |values|
    requires |Command(Filled(words, values))| <= INT_MAX
    ensures totlen == |Command(Filled(words, values))| && cmd.Length == totlen + 1
    ensures cmd[..totlen] == Command(Filled(words, values)) && cmd[totlen] == 0
  {
    hide Known, Closed, Tokens, Filled, Command, Arguments, SpelledLine;
    LineFills(words, gaps, values);
    cmd, totlen := VFormatCommand(SpelledLine(words, gaps), values);
  }

  // ---- a `%` without a meaning ----

  /** Neither `%s`, `%b`, `%%` nor a conversion starts with `%` and this, and no conversion is cut off by its end. */
  ghost predicate Meaningless(rest: seq<Byte>) {
    && rest != [] && rest[0] !in {Code('s'), Code('b'), Code('%')}
    && (forall n | 0 <= n <= |rest| :: !Conversion(rest[..n]))
    && (rest[|rest| - 1] in {Code('h'), Code('l')} || !Conversion(rest + [Code('d')]))
  }

  lemma {:induction false} CutOff(f: seq<Byte>)
    requires ConversionEnd(f) == Some(|f| + 1)
    ensures Conversion(f + [Code('d')]) && (f != [] ==> f[|f| - 1] !in {Code('h'), Code('l')})
  {
    if f == [] {
      assert Letter([Code('d')]);
    } else if IsFlag(f[0]) {
      CutOff(f[1..]);
      assert (f + [Code('d')])[1..] == f[1..] + [Code('d')];
    } else {
      CutOffWide(f);
    }
  }

  lemma {:induction false} CutOffWide(f: seq<Byte>)
    requires WideEnd(f) == Some(|f| + 1)
    ensures Wide(f + [Code('d')]) && (f != [] ==> f[|f| - 1] !in {Code('h'), Code('l')})
  {
    if f == [] {
      assert Letter([Code('d')]);
    } else if IsDigit(f[0]) {
      CutOffWide(f[1..]);
      assert (f + [Code('d')])[1..] == f[1..] + [Code('d')];
    } else if f[0] == POINT {
      CutOffPrecise(f[1..]);
      assert (f + [Code('d')])[1..] == f[1..] + [Code('d')];
    }
  }

  lemma {:induction false} CutOffPrecise(f: seq<Byte>)
    requires PreciseEnd(f) == Some(|f| + 1)
    ensures Precise(f + [Code('d')]) && (f != [] ==> f[|f| - 1] !in {Code('h'), Code('l')})
  {
    if f == [] {
      assert Letter([Code('d')]);
    } else if IsDigit(f[0]) {
      CutOffPrecise(f[1..]);
      assert (f + [Code('d')])[1..] == f[1..] + [Code('d')];
    }
  }

  lemma MeaninglessFront(rest: seq<Byte>)
    requires Meaningless(rest)
    ensures Front([Code('%')] + rest) == None
  {
    hide Conversion, ConversionEnd;
    var f := [Code('%')] + rest;
    assert f[1..] == rest && f[1] == rest[0];
    var e := ConversionEnd(rest);
    if e.Some? {
      EndInside(rest);
      if e.value <= |rest| {
        ConversionExact(rest, e.value);
      } else {
        CutOff(rest);
      }
    }
  }

  lemma UnknownGood(f: seq<Byte>)
    requires f != [] && Front(f).None?
    ensures Good(f, 0, false)
  {
  }

  /** Behind any spelled line, a `%` without a meaning makes the whole format fail. */
  method FormatMeaningless(words: seq<seq<Part>>, gaps: seq<nat>, rest: seq<Byte>, values: seq<seq<Byte>>)
    returns (cmd: array?<Byte>, totlen: int)
    requires Layout(words, gaps, false) && Needs(words) <= |values| && Meaningless(rest)
    ensures cmd == null && totlen == -2
  {
    hide Known, Closed, Tokens, Filled, Command, Arguments, SpelledLine, Meaningless;
    var bad := [Code('%')] + rest;
    MeaninglessFront(rest);
    UnknownGood(bad);
    LineReads(None, words, gaps, bad, 0, false, values);
    cmd, totlen := VFormatCommand(SpelledLine(words, gaps) + bad, values);
  }
}
