/**
 The Redis serialization protocol (RESP2) as a recursive decoder over whole byte strings.
 It is the reference the incremental reader is proved against: it knows nothing of
 buffers, stacks or resumption.  Where hiredis is more liberal or stricter than the
 protocol text, the decoder follows hiredis.
 */
module Resp {
  import opened ByteStrings
  import opened Decimals

  /** A reply object; `Null` is an array slot that no reply has been stored in yet. */
  datatype Reply =
    | Null
    | Str(bytes: seq<Byte>)
    | Status(bytes: seq<Byte>)
    | Error(bytes: seq<Byte>)
    | Int(value: int)
    | Nil
    | Arr(elements: seq<Reply>)

  /** What the first byte of an item announces. */
  datatype Kind = KString | KArray | KInteger | KStatus | KError

  datatype ProtocolError =
    | BadType(byte: Byte)
    | BadInteger
    | BadBulkLength
    | BulkLengthOutOfRange
    | BadMultiBulkLength
    | MultiBulkLengthOutOfRange
    | NestingTooDeep

  datatype Outcome<+T> =
    | Done(value: T, rest: seq<Byte>)
    | More
    | Bad(error: ProtocolError)

  /** Arrays nest at most this deep below the root. */
  const MAX_DEPTH: nat := 8

  function KindOfByte(b: Byte): Option<Kind> {
    if b == Code('-') then Some(KError)
    else if b == Code('+') then Some(KStatus)
    else if b == Code(':') then Some(KInteger)
    else if b == Code('$') then Some(KString)
    else if b == Code('*') then Some(KArray)
    else None
  }

  /** The position of the first CRLF, or None. */
  function FindCRLF(s: seq<Byte>): (r: Option<nat>)
    ensures r.Some? ==> r.value + 2 <= |s| && s[r.value] == CR && s[r.value + 1] == LF
    ensures r.Some? ==> forall i | 0 <= i < r.value :: !(s[i] == CR && s[i + 1] == LF)
    ensures r.None? ==> forall i | 0 <= i < |s| - 1 :: !(s[i] == CR && s[i + 1] == LF)
  {
    if |s| < 2 then None
    else if s[0] == CR && s[1] == LF then Some(0)
    else
      var r := FindCRLF(s[1..]);
      assert forall i | 0 < i < |s| - 1 :: s[i] == s[1..][i - 1] && s[i + 1] == s[1..][i];
      if r.None? then None else Some(r.value + 1)
  }

  /** A CRLF-terminated line: its text, and what follows it. */
  function Line(s: seq<Byte>): (r: Outcome<seq<Byte>>)
    ensures r.Done? ==> s == r.value + CRLF + r.rest
    ensures !r.Bad?
  {
    var n := FindCRLF(s);
    if n.None? then More else Done(s[..n.value], s[n.value + 2..])
  }

  ghost function DecodeLine(k: Kind, s: seq<Byte>): (r: Outcome<Reply>)
    requires k.KInteger? || k.KStatus? || k.KError?
    ensures r.Done? ==> |r.rest| < |s|
  {
    var l := Line(s);
    if l.More? then More
    else if k.KStatus? then Done(Status(l.value), l.rest)
    else if k.KError? then Done(Error(l.value), l.rest)
    else
      var v := ParseLongLong(l.value);
      if v.None? then Bad(BadInteger) else Done(Int(v.value), l.rest)
  }

  /** A payload of announced length `n`; the two bytes behind it are skipped without being looked at. */
  function Payload(n: int, s: seq<Byte>): (r: Outcome<Reply>)
    requires n >= -1
    ensures r.Done? ==> |r.rest| <= |s| && s[|s| - |r.rest|..] == r.rest
    ensures !r.Bad?
  {
    if n == -1 then Done(Nil, s)
    else if n + 2 <= |s| then Done(Str(s[..n]), s[n + 2..])
    else More
  }

  ghost function DecodeBulk(s: seq<Byte>): (r: Outcome<Reply>)
    ensures r.Done? ==> |r.rest| < |s|
  {
    var l := Line(s);
    if l.More? then More
    else
      var n := ParseLongLong(l.value);
      if n.None? then Bad(BadBulkLength)
      else if n.value < -1 then Bad(BulkLengthOutOfRange)
      else Payload(n.value, l.rest)
  }

  /** The element count of an array: None stands for the nil array. */
  ghost function DecodeCount(s: seq<Byte>, depth: nat): (r: Outcome<Option<nat>>)
    ensures r.Done? ==> |r.rest| < |s|
    ensures r.Done? && r.value.Some? ==> r.value.value <= INT_MAX && depth != MAX_DEPTH
  {
    if depth == MAX_DEPTH then Bad(NestingTooDeep)
    else
      var l := Line(s);
      if l.More? then More
      else
        var n := ParseLongLong(l.value);
        if n.None? then Bad(BadMultiBulkLength)
        else if n.value < -1 || n.value > INT_MAX then Bad(MultiBulkLengthOutOfRange)
        else if n.value == -1 then Done(None, l.rest)
        else Done(Some(n.value), l.rest)
  }

  /** The rest of an item whose type byte was `k`. */
  ghost function DecodeBody(k: Kind, s: seq<Byte>, depth: nat): (r: Outcome<Reply>)
    requires depth <= MAX_DEPTH
    ensures r.Done? ==> |r.rest| < |s|
    decreases |s|, 0, 0
  {
    match k
    case KString => DecodeBulk(s)
    case KArray =>
      (match DecodeCount(s, depth)
       case More => More
       case Bad(e) => Bad(e)
       case Done(None, rest) => Done(Nil, rest)
       case Done(Some(n), rest) =>
         match DecodeItems(n, rest, depth + 1)
         case More => More
         case Bad(e) => Bad(e)
         case Done(vs, rest') => Done(Arr(vs), rest'))
    case _ => DecodeLine(k, s)
  }

  /** One item: a type byte and its body. */
  ghost function DecodeItem(s: seq<Byte>, depth: nat): (r: Outcome<Reply>)
    requires depth <= MAX_DEPTH
    ensures r.Done? ==> |r.rest| < |s|
    decreases |s|, 0, 0
  {
    if s == [] then More
    else
      var k := KindOfByte(s[0]);
      if k.None? then Bad(BadType(s[0])) else DecodeBody(k.value, s[1..], depth)
  }

  /** Exactly `n` items one after the other. */
  ghost function DecodeItems(n: nat, s: seq<Byte>, depth: nat): (r: Outcome<seq<Reply>>)
    requires depth <= MAX_DEPTH
    ensures r.Done? ==> |r.rest| <= |s| && |r.value| == n
    decreases |s|, 1, n
  {
    if n == 0 then Done([], s)
    else
      match DecodeItem(s, depth)
      case More => More
      case Bad(e) => Bad(e)
      case Done(v, rest) =>
        match DecodeItems(n - 1, rest, depth)
        case More => More
        case Bad(e) => Bad(e)
        case Done(vs, rest') => Done([v] + vs, rest')
  }

  /** How a byte stream ends: at or inside an item that needs more bytes, or at a violation. */
  datatype End = Pending | Failed(error: ProtocolError)

  datatype Stream = Stream(replies: seq<Reply>, end: End)

  function Prepend(replies: seq<Reply>, s: Stream): Stream {
    Stream(replies + s.replies, s.end)
  }

  /** All replies of a byte stream, and how it ends. */
  ghost function DecodeStream(s: seq<Byte>): (r: Stream)
    decreases |s|
  {
    match DecodeItem(s, 0)
    case More => Stream([], Pending)
    case Bad(e) => Stream([], Failed(e))
    case Done(v, rest) => Prepend([v], DecodeStream(rest))
  }

  // ---- what more input can and cannot change ----

  lemma LineExtends(s: seq<Byte>, t: seq<Byte>)
    requires Line(s).Done?
    ensures Line(s + t) == Done(Line(s).value, Line(s).rest + t)
  {
    FindExtends(s, t);
    var n := FindCRLF(s).value;
    assert (s + t)[..n] == s[..n] && (s + t)[n + 2..] == s[n + 2..] + t;
  }

  lemma {:induction false} FindExtends(s: seq<Byte>, t: seq<Byte>)
    requires FindCRLF(s).Some?
    ensures FindCRLF(s + t) == FindCRLF(s)
  {
    if !(s[0] == CR && s[1] == LF) {
      FindExtends(s[1..], t);
      assert (s + t)[1..] == s[1..] + t;
    }
  }

  lemma LineOf(text: seq<Byte>, rest: seq<Byte>)
    requires CR !in text
    ensures Line(text + CRLF + rest) == Done(text, rest)
  {
    var s := text + CRLF + rest;
    assert s[|text|] == CR && s[|text| + 1] == LF;
    assert forall i | 0 <= i < |text| :: s[i] == text[i];
    assert FindCRLF(s).Some?;
    assert s[..|text|] == text && s[|text| + 2..] == rest;
  }
}
