/**
 The command formatters of hiredis/hiredis.c.  `Command` is the wire form of an argument
 vector; the three formatters are proved to produce it, with an exact size computed in
 advance, and the decoder is proved to read it back.
 */
module Format {
  import opened ByteStrings
  import opened Decimals
  import opened Resp
  import opened Conversions
  import Reader

  type Argv = seq<seq<Byte>>

  const STAR: Byte := Code('*')
  const DOLLAR: Byte := Code('$')

  function Bulk(arg: seq<Byte>): seq<Byte> {
    [DOLLAR] + Digits(|arg|) + CRLF + arg + CRLF
  }

  function Bulks(argv: Argv): seq<Byte> {
    if argv == [] then [] else Bulk(argv[0]) + Bulks(argv[1..])
  }

  /** An argument vector on the wire: an array of bulk strings. */
  function Command(argv: Argv): seq<Byte> {
    [STAR] + Digits(|argv|) + CRLF + Bulks(argv)
  }

  /** The reply object that spells out an argument vector. */
  function AsReply(argv: Argv): Reply {
    Arr(AsReplies(argv))
  }

  function AsReplies(argv: Argv): (r: seq<Reply>)
    ensures |r| == |argv| && forall i | 0 <= i < |argv| :: r[i] == Str(argv[i])
  {
    seq(|argv|, i requires 0 <= i < |argv| => Str(argv[i]))
  }

  /** Sizes that fit the C types: an `int` count, `size_t` lengths that a reply can announce. */
  predicate Sendable(argv: Argv) {
    |argv| <= INT_MAX && forall i | 0 <= i < |argv| :: |argv[i]| <= LLONG_MAX
  }

  // ---- reading back ----

  lemma DecodeLineOf(n: nat, t: seq<Byte>)
    ensures Line(Digits(n) + CRLF + t) == Done(Digits(n), t)
  {
    LineOf(Digits(n), t);
  }

  lemma BulkReadsBack(arg: seq<Byte>, t: seq<Byte>, depth: nat)
    requires |arg| <= LLONG_MAX && depth <= MAX_DEPTH
    ensures DecodeItem(Bulk(arg) + t, depth) == Done(Str(arg), t)
  {
    hide FindCRLF, ParseLongLong;
    var tail := arg + CRLF + t;
    assert (Bulk(arg) + t)[1..] == Digits(|arg|) + CRLF + tail;
    DecodeLineOf(|arg|, tail);
    ParseDecimal(|arg|);
    assert Decimal(|arg|) == Digits(|arg|);
    assert tail[..|arg|] == arg && tail[|arg| + 2..] == t;
  }

  lemma {:induction false} BulksReadBack(argv: Argv, t: seq<Byte>, depth: nat)
    requires Sendable(argv) && depth <= MAX_DEPTH
    ensures DecodeItems(|argv|, Bulks(argv) + t, depth) == Done(AsReplies(argv), t)
  {
    hide DecodeItem, Bulk;
    if argv == [] {
      assert [] + t == t;
    } else {
      var rest := argv[1..];
      assert Bulks(argv) + t == Bulk(argv[0]) + (Bulks(rest) + t);
      BulkReadsBack(argv[0], Bulks(rest) + t, depth);
      BulksReadBack(rest, t, depth);
      assert AsReplies(argv) == [Str(argv[0])] + AsReplies(rest);
    }
  }

  lemma CommandReadsBack(argv: Argv, t: seq<Byte>)
    requires Sendable(argv)
    ensures DecodeItem(Command(argv) + t, 0) == Done(AsReply(argv), t)
  {
    hide FindCRLF, ParseLongLong, Bulks;
    var tail := Bulks(argv) + t;
    assert (Command(argv) + t)[1..] == Digits(|argv|) + CRLF + tail;
    DecodeLineOf(|argv|, tail);
    ParseDecimal(|argv|);
    assert Decimal(|argv|) == Digits(|argv|);
    BulksReadBack(argv, t, 1);
  }

  function Commands(cmds: seq<Argv>): seq<Byte> {
    if cmds == [] then [] else Command(cmds[0]) + Commands(cmds[1..])
  }

  function AllReplies(cmds: seq<Argv>): (r: seq<Reply>)
    ensures |r| == |cmds| && forall i | 0 <= i < |cmds| :: r[i] == AsReply(cmds[i])
  {
    seq(|cmds|, i requires 0 <= i < |cmds| => AsReply(cmds[i]))
  }

  lemma StreamOfNothing()
    ensures DecodeStream([]) == Stream([], Pending)
  {
  }

  /** A stream of formatted commands is read back as exactly those argument vectors, whatever their bytes. */
  lemma {:induction false} CommandsReadBack(cmds: seq<Argv>)
    requires forall i | 0 <= i < |cmds| :: Sendable(cmds[i])
    ensures DecodeStream(Commands(cmds)) == Stream(AllReplies(cmds), Pending)
  {
    hide DecodeItem, Command;
    StreamOfNothing();
    if cmds != [] {
      CommandReadsBack(cmds[0], Commands(cmds[1..]));
      CommandsReadBack(cmds[1..]);
      assert AllReplies(cmds) == [AsReply(cmds[0])] + AllReplies(cmds[1..]);
    }
  }

  /** The incremental reader, fed a command stream in any chunks, hands the argument vectors back. */
  method ReadCommands(cmds: seq<Argv>, chunks: seq<seq<Byte>>) returns (replies: seq<Reply>, end: End)
    requires forall i | 0 <= i < |cmds| :: Sendable(cmds[i])
    requires Flatten(chunks) == Commands(cmds)
    ensures replies == AllReplies(cmds) && end == Pending
  {
    CommandsReadBack(cmds);
    replies, end := Reader.ParseStream(chunks, seq(|chunks|, _ => false));
  }

  // ---- sizes ----

  lemma {:induction false} BulksSnoc(argv: Argv, arg: seq<Byte>)
    ensures Bulks(argv + [arg]) == Bulks(argv) + Bulk(arg)
  {
    hide Bulk;
    if argv == [] {
      assert [arg][1..] == [] && [] + [arg] == [arg];
    } else {
      assert (argv + [arg])[1..] == argv[1..] + [arg];
      BulksSnoc(argv[1..], arg);
    }
  }

  lemma BulksStep(argv: Argv, j: nat)
    requires j < |argv|
    ensures Bulks(argv[..j + 1]) == Bulks(argv[..j]) + Bulk(argv[j])
  {
    BulksSnoc(argv[..j], argv[j]);
    assert argv[..j + 1] == argv[..j] + [argv[j]];
  }

  /** A prefix takes no more bytes than the whole. */
  lemma {:induction false} BulksPrefix(argv: Argv, j: nat)
    requires j <= |argv|
    ensures |Bulks(argv[..j])| <= |Bulks(argv)|
    decreases |argv| - j
  {
    if j == |argv| {
      assert argv[..j] == argv;
    } else {
      BulksStep(argv, j);
      BulksPrefix(argv, j + 1);
    }
  }

  method BulkLen(len: nat) returns (r: nat)
    ensures forall arg: seq<Byte> | |arg| == len :: r == |Bulk(arg)|
  {
    var digits := CountDigits(len);
    r := 1 + digits + 2 + len + 2;
  }

  /** The size that all three formatters compute before they write a byte. */
  method TotalLength(argv: Argv) returns (totlen: nat)
    ensures totlen == |Command(argv)|
  {
    var digits := CountDigits(|argv|);
    totlen := 1 + digits + 2;
    assert argv[..0] == [];
    for j := 0 to |argv|
      invariant totlen == 1 + |Digits(|argv|)| + 2 + |Bulks(argv[..j])|
    {
      var len := BulkLen(|argv[j]|);
      BulksStep(argv, j);
      totlen := totlen + len;
    }
    assert argv[..|argv|] == argv;
  }

  /** `sprintf` of `text` at `cmd + pos`: the text and a terminating zero. */
  method Print(cmd: array<Byte>, pos: nat, text: seq<Byte>)
    requires pos + |text| < cmd.Length
    modifies cmd
    ensures cmd[..pos + |text|] == old(cmd[..pos]) + text
  {
    forall i | 0 <= i < |text| {
      cmd[pos + i] := text[i];
    }
    cmd[pos + |text|] := 0;
  }

  /** One bulk string at `cmd + pos`. */
  method PrintBulk(cmd: array<Byte>, pos: nat, arg: seq<Byte>) returns (end: nat)
    requires pos + |Bulk(arg)| < cmd.Length
    modifies cmd
    ensures end == pos + |Bulk(arg)| && cmd[..end] == old(cmd[..pos]) + Bulk(arg)
  {
    ghost var before := cmd[..pos];
    var size := [DOLLAR] + Digits(|arg|) + CRLF;
    Print(cmd, pos, size);
    end := pos + |size|;
    forall i | 0 <= i < |arg| {
      cmd[end + i] := arg[i];
    }
    end := end + |arg|;
    cmd[end] := CR;
    end := end + 1;
    cmd[end] := LF;
    end := end + 1;
    assert cmd[..end] == before + size + arg + CRLF;
    assert before + size + arg + CRLF == before + Bulk(arg);
  }

  /** Writes the command into a buffer of exactly the computed size, plus a terminating zero. */
  method BuildCommand(argv: Argv, totlen: nat) returns (cmd: array<Byte>)
    requires totlen == |Command(argv)|
    ensures fresh(cmd) && cmd.Length == totlen + 1 && cmd[..totlen] == Command(argv) && cmd[totlen] == 0
  {
    hide Bulk, Bulks;
    cmd := new Byte[totlen + 1](_ => 0);
    var head := [STAR] + Digits(|argv|) + CRLF;
    Print(cmd, 0, head);
    var pos := |head|;
    var j := 0;
    NoBulks(argv);
    while j < |argv|
      invariant 0 <= j <= |argv| && fresh(cmd) && cmd.Length == totlen + 1
      invariant pos == |head| + |Bulks(argv[..j])| <= totlen
      invariant cmd[..pos] == head + Bulks(argv[..j])
    {
      BulksStep(argv, j);
      BulksPrefix(argv, j + 1);
      pos := PrintBulk(cmd, pos, argv[j]);
      assert head + Bulks(argv[..j]) + Bulk(argv[j]) == head + Bulks(argv[..j + 1]);
      j := j + 1;
    }
    assert argv[..j] == argv;
    assert pos == totlen;
    cmd[pos] := 0;
  }

  lemma NoBulks(argv: Argv)
    ensures Bulks(argv[..0]) == [] && |Bulks(argv)| >= 0
  {}

  method FormatCommandArgv(argv: Argv) returns (cmd: array<Byte>, totlen: nat)
    requires |Command(argv)| <= INT_MAX
    ensures totlen == |Command(argv)| && cmd.Length == totlen + 1
    ensures cmd[..totlen] == Command(argv) && cmd[totlen] == 0
  {
    totlen := TotalLength(argv);
    cmd := BuildCommand(argv, totlen);
  }

  /** The same command, appended piece by piece to an sds string. */
  method FormatSdsCommandArgv(argv: Argv) returns (cmd: seq<Byte>, totlen: nat)
    requires |argv| <= INT_MAX && |Command(argv)| <= INT_MAX
    ensures totlen == |Command(argv)| && cmd == Command(argv)
  {
    hide Bulk, Bulks;
    totlen := TotalLength(argv);
    NoBulks(argv);
    var digits := Itoa(|argv|);
    cmd := [STAR] + digits + CRLF;
    ghost var head := cmd;
    var j := 0;
    while j < |argv|
      invariant 0 <= j <= |argv| && cmd == head + Bulks(argv[..j])
    {
      BulksStep(argv, j);
      BulkFits(argv, j);
      ghost var before := cmd;
      digits := Utoa(|argv[j]|);
      cmd := cmd + ([DOLLAR] + digits + CRLF);
      cmd := cmd + argv[j];
      cmd := cmd + CRLF;
      SdsBulk(before, argv[j]);
      assert head + Bulks(argv[..j]) + Bulk(argv[j]) == head + Bulks(argv[..j + 1]);
      j := j + 1;
    }
    assert argv[..j] == argv;
    assert |cmd| == totlen;
  }

  lemma SdsBulk(before: seq<Byte>, arg: seq<Byte>)
    ensures before + ([DOLLAR] + Digits(|arg|) + CRLF) + arg + CRLF == before + Bulk(arg)
  {
    var size := [DOLLAR] + Digits(|arg|) + CRLF;
    Associate(before, size, arg);
    Associate(before, size + arg, CRLF);
  }

  lemma BulkFits(argv: Argv, j: nat)
    requires j < |argv| && |Command(argv)| <= INT_MAX
    ensures |argv[j]| <= INT_MAX
  {
    BulksStep(argv, j);
    BulksPrefix(argv, j + 1);
  }

  /** `%i` of sdscatfmt. */
  method Itoa(n: nat) returns (r: seq<Byte>)
    requires n <= LLONG_MAX
    ensures r == Digits(n)
  {
    var buf := new Byte[21](_ => 0);
    var l := Sdsll2str(buf, n);
    r := buf[..l];
  }

  /** `%u` of sdscatfmt. */
  method Utoa(n: nat) returns (r: seq<Byte>)
    requires n <= 0xFFFF_FFFF
    ensures r == Digits(n)
  {
    var buf := new Byte[21](_ => 0);
    var l := Sdsull2str(buf, n);
    r := buf[..l];
  }

  // ---- format strings ----

  const SPACE: Byte := Code(' ')
  const SCRATCH: nat := 16

  /** A piece of a format string; a `Blank` uses up its value and writes nothing. */
  datatype Token = Gap | Literal(byte: Byte) | Hole | Blank

  datatype Piece = Piece(token: Token, len: nat)

  /**
   What a format string starts with, or None for a `%` that nothing known follows.  A conversion is passed to
   printf if it fits the scratch buffer; a longer one uses its value up, and the rest of it is read as text.
   */
  function Front(f: seq<Byte>): (r: Option<Piece>)
    requires f != []
    ensures r.Some? ==> r.value.len > 0
  {
    if f[0] != PERCENT || |f| == 1 then Some(Piece(if f[0] == SPACE then Gap else Literal(f[0]), 1))
    else if f[1] == PERCENT then Some(Piece(Literal(PERCENT), 2))
    else if f[1] in {Code('s'), Code('b')} then Some(Piece(Hole, 2))
    else match ConversionEnd(f[1..])
      case None => None
      case Some(n) => if n + 1 < SCRATCH - 2 then Some(Piece(Hole, n + 1)) else Some(Piece(Blank, 2))
  }

  /** No conversion short enough to be used ends in the middle: the formatter would step over the terminator. */
  predicate Closed(format: seq<Byte>)
    decreases |format|
  {
    format == [] || Front(format).None?
    || (Front(format).value.len <= |format| && Closed(format[Front(format).value.len..]))
  }

  /** Every `%` has a meaning. */
  predicate Known(format: seq<Byte>)
    decreases |format|
  {
    format == []
    || (Front(format).Some? && Front(format).value.len <= |format| && Known(format[Front(format).value.len..]))
  }

  /** The tokens of a format string, up to the first `%` without a meaning. */
  function Tokens(format: seq<Byte>): seq<Token>
    decreases |format|
  {
    if format == [] || Front(format).None? then []
    else
      var p := Front(format).value;
      [p.token] + if p.len <= |format| then Tokens(format[p.len..]) else []
  }

  /** How many values a token uses up. */
  function Uses(t: Token): nat {
    if t.Hole? || t.Blank? then 1 else 0
  }

  /** What a token adds to the argument, given the values not yet used. */
  function Writes(t: Token, args: seq<seq<Byte>>): seq<Byte>
    requires Uses(t) <= |args|
  {
    match t
    case Literal(b) => [b]
    case Hole => args[0]
    case Gap | Blank => []
  }

  function Holes(tokens: seq<Token>): nat {
    if tokens == [] then 0 else Uses(tokens[0]) + Holes(tokens[1..])
  }

  /** The tokens cut at every gap. */
  function Segments(tokens: seq<Token>): (r: seq<seq<Token>>)
    ensures |r| > 0
  {
    if tokens == [] then [[]]
    else
      var r := Segments(tokens[1..]);
      if tokens[0].Gap? then [[]] + r else [[tokens[0]] + r[0]] + r[1..]
  }

  function NonEmpty(segments: seq<seq<Token>>): seq<seq<Token>> {
    if segments == [] then []
    else if segments[0] == [] then NonEmpty(segments[1..])
    else [segments[0]] + NonEmpty(segments[1..])
  }

  /** The argument templates of a format string: no interpolated value is needed to know them. */
  function Words(tokens: seq<Token>): seq<seq<Token>> {
    NonEmpty(Segments(tokens))
  }

  function FillWord(word: seq<Token>, args: seq<seq<Byte>>): seq<Byte>
    requires Holes(word) <= |args|
  {
    if word == [] then [] else Writes(word[0], args) + FillWord(word[1..], args[Uses(word[0])..])
  }

  function AllHoles(words: seq<seq<Token>>): nat {
    if words == [] then 0 else Holes(words[0]) + AllHoles(words[1..])
  }

  /** Fills the templates one after the other with the values in order. */
  function Fill(words: seq<seq<Token>>, args: seq<seq<Byte>>): (r: Argv)
    requires AllHoles(words) <= |args|
    ensures |r| == |words|
  {
    if words == [] then []
    else [FillWord(words[0], args)] + Fill(words[1..], args[Holes(words[0])..])
  }

  lemma {:induction false} NonEmptyHoles(segments: seq<seq<Token>>)
    ensures AllHoles(NonEmpty(segments)) == AllHoles(segments)
  {
    if segments != [] {
      NonEmptyHoles(segments[1..]);
      if segments[0] != [] {
        assert NonEmpty(segments)[1..] == NonEmpty(segments[1..]);
      }
    }
  }

  lemma {:induction false} SegmentHoles(tokens: seq<Token>)
    ensures AllHoles(Segments(tokens)) == Holes(tokens)
    ensures Holes(Segments(tokens)[0]) + AllHoles(Segments(tokens)[1..]) == Holes(tokens)
    ensures AllHoles(NonEmpty(Segments(tokens)[1..])) == AllHoles(Segments(tokens)[1..])
    ensures AllHoles(Words(tokens)) == Holes(tokens)
  {
    NonEmptyHoles(Segments(tokens));
    NonEmptyHoles(Segments(tokens)[1..]);
    if tokens == [] {
      assert AllHoles([[]]) == 0;
    } else {
      SegmentHoles(tokens[1..]);
      var r := Segments(tokens[1..]);
      if tokens[0].Gap? {
        assert Segments(tokens)[1..] == r;
      } else {
        assert Segments(tokens)[1..] == r[1..];
        assert ([tokens[0]] + r[0])[1..] == r[0];
      }
    }
  }

  /** The scanner of `redisvFormatCommand`, from argument `cur` (None when nothing was touched). */
  function Scan(cur: Option<seq<Byte>>, tokens: seq<Token>, args: seq<seq<Byte>>): Argv
    requires Holes(tokens) <= |args|
    decreases |tokens|
  {
    if tokens == [] then Finished(cur)
    else if tokens[0].Gap? then Finished(cur) + Scan(None, tokens[1..], args)
    else Scan(Some(Begun(cur) + Writes(tokens[0], args)), tokens[1..], args[Uses(tokens[0])..])
  }

  function Begun(cur: Option<seq<Byte>>): seq<Byte> {
    if cur.Some? then cur.value else []
  }

  function Finished(cur: Option<seq<Byte>>): Argv {
    if cur.Some? then [cur.value] else []
  }

  lemma {:induction false} ScanInside(c: seq<Byte>, tokens: seq<Token>, args: seq<seq<Byte>>)
    requires Holes(tokens) <= |args|
    ensures Holes(Segments(tokens)[0]) + AllHoles(NonEmpty(Segments(tokens)[1..])) <= |args|
    ensures Scan(Some(c), tokens, args)
         == [c + FillWord(Segments(tokens)[0], args)]
            + Fill(NonEmpty(Segments(tokens)[1..]), args[Holes(Segments(tokens)[0])..])
    decreases |tokens|, 1
  {
    hide Writes, Segments, NonEmpty, FillWord, Fill, AllHoles;
    SegmentHoles(tokens);
    if tokens == [] || tokens[0].Gap? {
      WordsBreak(tokens, args);
      assert c + [] == c && args[0..] == args;
      if tokens != [] {
        ScanOutside(tokens[1..], args);
      }
    } else {
      var t, r := tokens[0], Segments(tokens[1..]);
      SegmentHoles(tokens[1..]);
      WordsHead(tokens);
      FillHead(t, r[0], args);
      var w, left := Writes(t, args), args[Uses(t)..];
      ScanInside(c + w, tokens[1..], left);
      assert c + w + FillWord(r[0], left) == c + (w + FillWord(r[0], left));
      assert left[Holes(r[0])..] == args[Uses(t) + Holes(r[0])..];
    }
  }

  lemma {:induction false} ScanOutside(tokens: seq<Token>, args: seq<seq<Byte>>)
    requires Holes(tokens) <= |args|
    ensures AllHoles(Words(tokens)) <= |args|
    ensures Scan(None, tokens, args) == Fill(Words(tokens), args)
    decreases |tokens|, 0
  {
    hide Writes, Segments, NonEmpty, FillWord, Fill, AllHoles, Words;
    SegmentHoles(tokens);
    if tokens == [] || tokens[0].Gap? {
      WordsBreak(tokens, args);
      if tokens != [] {
        ScanOutside(tokens[1..], args);
      }
    } else {
      var t, r := tokens[0], Segments(tokens[1..]);
      SegmentHoles(tokens[1..]);
      WordsHead(tokens);
      FillHead(t, r[0], args);
      FillFirst([t] + r[0], NonEmpty(r[1..]), args);
      var w, left := Writes(t, args), args[Uses(t)..];
      assert [] + w == w;
      ScanInside(w, tokens[1..], left);
      assert left[Holes(r[0])..] == args[Uses(t) + Holes(r[0])..];
    }
  }

  /** Where an argument ends: at the end of the format, or at a gap. */
  lemma WordsBreak(tokens: seq<Token>, args: seq<seq<Byte>>)
    requires tokens == [] || tokens[0].Gap?
    ensures Segments(tokens)[0] == [] && Holes([]) == 0 && FillWord([], args) == [] && Fill([], args) == []
    ensures NonEmpty(Segments(tokens)[1..]) == Words(tokens) == if tokens == [] then [] else Words(tokens[1..])
  {
    if tokens != [] {
      assert Segments(tokens)[1..] == Segments(tokens[1..]);
    }
  }

  lemma FillHead(t: Token, word: seq<Token>, args: seq<seq<Byte>>)
    requires Uses(t) + Holes(word) <= |args|
    ensures Holes([t] + word) == Uses(t) + Holes(word)
    ensures FillWord([t] + word, args) == Writes(t, args) + FillWord(word, args[Uses(t)..])
  {
    assert ([t] + word)[1..] == word;
  }

  lemma FillFirst(word: seq<Token>, words: seq<seq<Token>>, args: seq<seq<Byte>>)
    requires Holes(word) + AllHoles(words) <= |args|
    ensures AllHoles([word] + words) == Holes(word) + AllHoles(words)
    ensures Fill([word] + words, args) == [FillWord(word, args)] + Fill(words, args[Holes(word)..])
  {
    assert ([word] + words)[1..] == words;
  }

  lemma WordsHead(tokens: seq<Token>)
    requires tokens != [] && !tokens[0].Gap?
    ensures var r := Segments(tokens[1..]);
            && Segments(tokens)[0] == [tokens[0]] + r[0] && Segments(tokens)[1..] == r[1..]
            && Words(tokens) == [[tokens[0]] + r[0]] + NonEmpty(r[1..])
  {
    var r := Segments(tokens[1..]);
    assert Segments(tokens)[1..] == r[1..];
  }

  /** What the scanner does with the first piece of a format string. */
  lemma ScanPiece(cur: Option<seq<Byte>>, f: seq<Byte>, args: seq<seq<Byte>>)
    requires Closed(f) && f != [] && Holes(Tokens(f)) <= |args|
    ensures Front(f).None? ==> !Known(f)
    ensures Front(f).Some? ==>
              var p := Front(f).value;
              && p.len <= |f| && Closed(f[p.len..]) && Known(f) == Known(f[p.len..])
              && var rest := Tokens(f[p.len..]);
                 && Uses(p.token) + Holes(rest) == Holes(Tokens(f))
                 && Scan(cur, Tokens(f), args)
                    == if p.token.Gap? then Finished(cur) + Scan(None, rest, args)
                       else Scan(Some(Begun(cur) + Writes(p.token, args)), rest, args[Uses(p.token)..])
  {
    hide Front;
    if Front(f).Some? {
      var p := Front(f).value;
      assert Tokens(f)[1..] == Tokens(f[p.len..]);
    }
  }

  /** The scanner stands at byte `i` and value `k`, with `cur` begun and `argv` finished. */
  predicate Scanned(format: seq<Byte>, args: seq<seq<Byte>>, i: nat, k: nat, cur: Option<seq<Byte>>, argv: Argv)
    requires Holes(Tokens(format)) <= |args|
  {
    && i <= |format| && k <= |args| && Closed(format[i..]) && Known(format[i..]) == Known(format)
    && Holes(Tokens(format[i..])) <= |args| - k
    && argv + Scan(cur, Tokens(format[i..]), args[k..]) == Scan(None, Tokens(format), args)
  }

  lemma ScanStart(format: seq<Byte>, args: seq<seq<Byte>>)
    requires Closed(format) && Holes(Tokens(format)) <= |args|
    ensures Scanned(format, args, 0, 0, None, [])
  {
    hide Scan, Tokens, Closed, Known, Holes;
    assert format[0..] == format && args[0..] == args;
    var r := Scan(None, Tokens(format), args);
    assert [] + r == r;
  }

  lemma ScanNext(format: seq<Byte>, args: seq<seq<Byte>>, i: nat, k: nat, cur: Option<seq<Byte>>, argv: Argv)
    requires Holes(Tokens(format)) <= |args| && Scanned(format, args, i, k, cur, argv) && i < |format|
    ensures Front(format[i..]).None? ==> !Known(format)
    ensures Front(format[i..]).Some? ==>
              var p := Front(format[i..]).value;
              && Uses(p.token) <= |args| - k && i + p.len <= |format|
              && if p.token.Gap? then Scanned(format, args, i + p.len, k, None, argv + Finished(cur))
                 else Scanned(format, args, i + p.len, k + Uses(p.token),
                              Some(Begun(cur) + Writes(p.token, args[k..])), argv)
  {
    hide Scan, Tokens, Closed, Known, Holes, Front, Finished, Begun, Writes;
    var f, left := format[i..], args[k..];
    ScanPiece(cur, f, left);
    if Front(f).Some? {
      var p := Front(f).value;
      assert f[p.len..] == format[i + p.len..] && left[Uses(p.token)..] == args[k + Uses(p.token)..];
      if p.token.Gap? {
        Associate(argv, Finished(cur), Scan(None, Tokens(f[p.len..]), left));
      }
    }
  }

  lemma ScanEnd(format: seq<Byte>, args: seq<seq<Byte>>, k: nat, cur: Option<seq<Byte>>, argv: Argv)
    requires Holes(Tokens(format)) <= |args| && Scanned(format, args, |format|, k, cur, argv)
    ensures Known(format) && argv + Finished(cur) == Scan(None, Tokens(format), args)
  {
    assert format[|format|..] == [];
  }

  /** The scanning loop: the argument vector, and the bytes its bulk strings will take. */
  method ScanFormat(format: seq<Byte>, args: seq<seq<Byte>>) returns (ok: bool, argv: Argv, totlen: nat)
    requires Closed(format) && Holes(Tokens(format)) <= |args|
    ensures ok == Known(format)
    ensures ok ==> argv == Scan(None, Tokens(format), args) && totlen == |Bulks(argv)|
  {
    hide Scan, Scanned, Tokens, Closed, Known, Holes, Bulks, Bulk, ConversionEnd;
    var curarg: seq<Byte> := [];
    var touched := false;
    argv := [];
    totlen := 0;
    NoBulks(argv);
    assert argv[..0] == argv;
    ScanStart(format, args);
    var i, k := 0, 0;
    while i < |format|
      invariant 0 <= i <= |format| && 0 <= k <= |args| && (!touched ==> curarg == [])
      invariant Scanned(format, args, i, k, if touched then Some(curarg) else None, argv)
      invariant totlen == |Bulks(argv)|
    {
      ScanNext(format, args, i, k, if touched then Some(curarg) else None, argv);
      if format[i] != PERCENT || i + 1 == |format| {
        if format[i] == SPACE {
          if touched {
            BulksSnoc(argv, curarg);
            argv := argv + [curarg];
            var len := BulkLen(|curarg|);
            totlen := totlen + len;
            curarg := [];
            touched := false;
          } else {
            assert argv + [] == argv;
          }
        } else {
          curarg := curarg + [format[i]];
          touched := true;
        }
      } else {
        var known, used, c;
        known, used, curarg, c := Interpolate(format, i, args[k..], curarg);
        if !known {
          return false, argv, totlen;
        }
        i := c;
        k := k + used;
        touched := true;
        i := i + 1;
      }
      i := i + 1;
    }
    ScanEnd(format, args, k, if touched then Some(curarg) else None, argv);
    if touched {
      BulksSnoc(argv, curarg);
      argv := argv + [curarg];
      var len := BulkLen(|curarg|);
      totlen := totlen + len;
    } else {
      assert argv + [] == argv;
    }
    ok := true;
  }

  /**
   The switch on what follows a `%`.  A value is the string itself for `%s` and `%b`, and the text printf makes
   of it for a conversion.  `c` is the position two bytes before the next one to look at.
   */
  method Interpolate(format: seq<Byte>, i: nat, args: seq<seq<Byte>>, curarg: seq<Byte>)
    returns (known: bool, used: nat, newarg: seq<Byte>, c: nat)
    requires i + 1 < |format| && format[i] == PERCENT
    requires Front(format[i..]).Some? ==> Uses(Front(format[i..]).value.token) <= |args|
    ensures known == Front(format[i..]).Some?
    ensures known ==>
              var p := Front(format[i..]).value;
              && !p.token.Gap? && newarg == curarg + Writes(p.token, args)
              && used == Uses(p.token) && c + 2 == i + p.len
  {
    newarg := curarg;
    c := i;
    used := 1;
    if format[i + 1] == Code('s') || format[i + 1] == Code('b') {
      assert |args[0]| == 0 ==> curarg + args[0] == curarg;
      if |args[0]| > 0 {
        newarg := curarg + args[0];
      }
      return true, used, newarg, c;
    }
    if format[i + 1] == PERCENT {
      return true, 0, curarg + [PERCENT], c;
    }
    assert format[i..][1..] == format[i + 1..];
    var ok, letter := ScanConversion(format, i + 1);
    if !ok {
      return false, 0, curarg, c;
    }
    var l := letter + 1 - i;
    if l < SCRATCH - 2 {
      newarg := curarg + args[0];
      c := letter - 1;
    }
    return true, used, newarg, c;
  }

  /** The arguments of a format string: its templates, filled with the values in order. */
  function Arguments(format: seq<Byte>, args: seq<seq<Byte>>): (r: Argv)
    requires Holes(Tokens(format)) <= |args|
    ensures |r| == |Words(Tokens(format))|
  {
    SegmentHoles(Tokens(format));
    Fill(Words(Tokens(format)), args)
  }

  /** Formats a command from a format string and its interpolated values, or returns -2 for a bad format. */
  method VFormatCommand(format: seq<Byte>, args: seq<seq<Byte>>) returns (cmd: array?<Byte>, totlen: int)
    requires Closed(format) && Holes(Tokens(format)) <= |args|
    requires Known(format) ==> |Command(Arguments(format, args))| <= INT_MAX
    ensures if Known(format) then
              && cmd != null && totlen == |Command(Arguments(format, args))| && cmd.Length == totlen + 1
              && cmd[..totlen] == Command(Arguments(format, args)) && cmd[totlen] == 0
            else
              cmd == null && totlen == -2
  {
    hide Tokens, Closed, Known, Holes;
    var ok, argv, bulks := ScanFormat(format, args);
    if !ok {
      return null, -2;
    }
    ScanOutside(Tokens(format), args);
    var digits := CountDigits(|argv|);
    totlen := bulks + (1 + digits + 2);
    cmd := BuildCommand(argv, totlen);
  }

  /** The format-string formatter and the argument-vector formatter write the same bytes. */
  method FormatBothWays(format: seq<Byte>, args: seq<seq<Byte>>) returns (same: bool)
    requires Known(format) && Closed(format) && Holes(Tokens(format)) <= |args|
    requires |Command(Arguments(format, args))| <= INT_MAX
    ensures same
  {
    hide Command, Arguments, Tokens, Known, Closed, Holes;
    var a, n := VFormatCommand(format, args);
    var b, m := FormatCommandArgv(Arguments(format, args));
    same := a[..] == b[..];
    assert a[..] == a[..n] + [0] && b[..] == b[..m] + [0];
  }
}
