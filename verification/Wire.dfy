/**
 What the byte streams of the Redis protocol look like when they are written down form by form, and the proof that
 the recursive decoder accepts exactly these forms, with these meanings, and fails exactly where one is violated.
 */
module Wire {
  import opened ByteStrings
  import opened Decimals
  import opened Resp
  import Reader

  /** The ways to write a reply. A bulk string is followed by any two bytes. */
  datatype Form =
    | StatusLine(text: seq<Byte>)
    | ErrorLine(text: seq<Byte>)
    | Number(value: int)
    | BulkString(bytes: seq<Byte>, x: Byte, y: Byte)
    | NilBulk
    | NilArray
    | Items(items: seq<Form>)

  function Written(f: Form): seq<Byte> {
    match f
    case StatusLine(text) => [Code('+')] + text + CRLF
    case ErrorLine(text) => [Code('-')] + text + CRLF
    case Number(value) => [Code(':')] + Decimal(value) + CRLF
    case BulkString(bytes, x, y) => [Code('$')] + Decimal(|bytes|) + CRLF + bytes + [x, y]
    case NilBulk => [Code('$'), Code('-'), Code('1')] + CRLF
    case NilArray => [Code('*'), Code('-'), Code('1')] + CRLF
    case Items(items) => [Code('*')] + Decimal(|items|) + CRLF + WrittenAll(items)
  }

  function WrittenAll(fs: seq<Form>): seq<Byte> {
    if fs == [] then [] else Written(fs[0]) + WrittenAll(fs[1..])
  }

  function Meant(f: Form): Reply {
    match f
    case StatusLine(text) => Status(text)
    case ErrorLine(text) => Error(text)
    case Number(value) => Int(value)
    case BulkString(bytes, _, _) => Str(bytes)
    case NilBulk => Nil
    case NilArray => Nil
    case Items(items) => Arr(MeantAll(items))
  }

  function MeantAll(fs: seq<Form>): (r: seq<Reply>)
    ensures |r| == |fs|
  {
    if fs == [] then [] else [Meant(fs[0])] + MeantAll(fs[1..])
  }

  /** No line break in it. */
  predicate OneLine(text: seq<Byte>) {
    forall i | 0 <= i < |text| - 1 :: !(text[i] == CR && text[i + 1] == LF)
  }

  /** What can be written `depth` arrays below the root: numbers and lengths in range, arrays down to the limit. */
  predicate Allowed(f: Form, depth: nat) {
    match f
    case StatusLine(text) => OneLine(text)
    case ErrorLine(text) => OneLine(text)
    case Number(value) => IsLongLong(value)
    case BulkString(bytes, _, _) => |bytes| <= LLONG_MAX
    case NilBulk => true
    case NilArray => depth < MAX_DEPTH
    case Items(items) =>
      depth < MAX_DEPTH && |items| <= INT_MAX && forall i | 0 <= i < |items| :: Allowed(items[i], depth + 1)
  }

  predicate AllAllowed(fs: seq<Form>, depth: nat) {
    forall i | 0 <= i < |fs| :: Allowed(fs[i], depth)
  }

  // ---- lines ----

  lemma LineIs(text: seq<Byte>, t: seq<Byte>)
    requires OneLine(text)
    ensures Line(text + CRLF + t) == Done(text, t)
  {
    hide FindCRLF;
    var s := text + CRLF + t;
    var n := |text|;
    assert s[n] == CR && s[n + 1] == LF;
    forall i | 0 <= i < n ensures !(s[i] == CR && s[i + 1] == LF) {
      assert i + 1 < n ==> s[i + 1] == text[i + 1];
    }
    assert FindCRLF(s) == Some(n);
    assert s[..n] == text && s[n + 2..] == t;
  }

  /** A line that was found: its text is one line, and it is followed by a line break. */
  lemma LineWas(s: seq<Byte>)
    requires Line(s).Done?
    ensures OneLine(Line(s).value) && s == Line(s).value + CRLF + Line(s).rest
  {
  }

  lemma {:induction false} DecimalOneLine(v: int)
    ensures OneLine(Decimal(v))
  {
    hide Digits;
    assert forall i | 0 <= i < |Decimal(v)| :: Decimal(v)[i] != CR;
  }

  lemma MinusOne()
    ensures Decimal(-1) == [Code('-'), Code('1')]
  {
  }

  /** A line behind a type byte. */
  lemma TypedLine(b: Byte, text: seq<Byte>, t: seq<Byte>)
    requires OneLine(text)
    ensures ([b] + text + CRLF + t)[0] == b && ([b] + text + CRLF + t)[1..] == text + CRLF + t
    ensures Line(text + CRLF + t) == Done(text, t)
    ensures ([b] + text + CRLF) + t == [b] + text + CRLF + t
  {
    LineIs(text, t);
  }

  /** A number behind a type byte. */
  lemma TypedNumber(b: Byte, v: int, t: seq<Byte>)
    requires IsLongLong(v)
    ensures ([b] + Decimal(v) + CRLF + t)[0] == b && ([b] + Decimal(v) + CRLF + t)[1..] == Decimal(v) + CRLF + t
    ensures Line(Decimal(v) + CRLF + t) == Done(Decimal(v), t) && ParseLongLong(Decimal(v)) == Some(v)
    ensures ([b] + Decimal(v) + CRLF) + t == [b] + Decimal(v) + CRLF + t
  {
    DecimalOneLine(v);
    ParseDecimal(v);
    TypedLine(b, Decimal(v), t);
  }

  // ---- every form is read as what it means ----

  lemma {:induction false} WrittenReads(f: Form, t: seq<Byte>, depth: nat)
    requires Allowed(f, depth) && depth <= MAX_DEPTH
    ensures DecodeItem(Written(f) + t, depth) == Done(Meant(f), t)
    decreases f, 1
  {
    hide ParseLongLong, Line, Decimal, DecodeItems;
    match f
    case StatusLine(text) => TypedLine(Code('+'), text, t);
    case ErrorLine(text) => TypedLine(Code('-'), text, t);
    case Number(value) => TypedNumber(Code(':'), value, t);
    case BulkString(bytes, x, y) => BulkReads(bytes, x, y, t, depth);
    case NilBulk => NilReads(f, t, depth);
    case NilArray => NilReads(f, t, depth);
    case Items(items) =>
      WrittenAllReads(items, |items|, t, depth + 1);
      assert items[0..] == items;
      ArrayReads(items, t, depth);
  }

  lemma ArrayReads(items: seq<Form>, t: seq<Byte>, depth: nat)
    requires depth < MAX_DEPTH && |items| <= INT_MAX
    requires DecodeItems(|items|, WrittenAll(items) + t, depth + 1) == Done(MeantAll(items), t)
    ensures DecodeItem(Written(Items(items)) + t, depth) == Done(Meant(Items(items)), t)
  {
    hide DecodeItem, DecodeItems, Decimal, WrittenAll, MeantAll;
    ArrayHeader(|items|, WrittenAll(items) + t, depth);
    Associate([Code('*')] + Decimal(|items|) + CRLF, WrittenAll(items), t);
  }

  lemma NilReads(f: Form, t: seq<Byte>, depth: nat)
    requires (f.NilBulk? || f.NilArray?) && Allowed(f, depth) && depth <= MAX_DEPTH
    ensures DecodeItem(Written(f) + t, depth) == Done(Nil, t)
  {
    hide ParseLongLong, Line, Decimal, Written;
    NilIs(f);
    TypedNumber(if f.NilBulk? then Code('$') else Code('*'), -1, t);
  }

  lemma NilIs(f: Form)
    requires f.NilBulk? || f.NilArray?
    ensures Written(f) == [if f.NilBulk? then Code('$') else Code('*')] + Decimal(-1) + CRLF
  {
    hide Decimal;
    MinusOne();
  }

  lemma BulkReads(bytes: seq<Byte>, x: Byte, y: Byte, t: seq<Byte>, depth: nat)
    requires |bytes| <= LLONG_MAX && depth <= MAX_DEPTH
    ensures DecodeItem(Written(BulkString(bytes, x, y)) + t, depth) == Done(Str(bytes), t)
  {
    hide ParseLongLong, Line, Decimal;
    var n := |bytes|;
    var tail := bytes + [x, y] + t;
    TypedNumber(Code('$'), n, tail);
    assert Written(BulkString(bytes, x, y)) + t == [Code('$')] + Decimal(n) + CRLF + tail;
    assert tail[..n] == bytes && tail[n + 2..] == t;
  }

  /** The header of an array of `n` elements. */
  lemma ArrayHeader(n: nat, t: seq<Byte>, depth: nat)
    requires depth < MAX_DEPTH && n <= INT_MAX
    ensures DecodeItem([Code('*')] + Decimal(n) + CRLF + t, depth)
         == match DecodeItems(n, t, depth + 1)
            case More => More
            case Bad(e) => Bad(e)
            case Done(vs, rest) => Done(Arr(vs), rest)
  {
    hide ParseLongLong, Line, Decimal, DecodeItems;
    TypedNumber(Code('*'), n, t);
  }

  lemma {:induction false} WrittenAllReads(fs: seq<Form>, k: nat, t: seq<Byte>, depth: nat)
    requires k <= |fs| && depth <= MAX_DEPTH && AllAllowed(fs, depth)
    ensures DecodeItems(k, WrittenAll(fs[|fs| - k..]) + t, depth) == Done(MeantAll(fs[|fs| - k..]), t)
    decreases fs, 0, k
  {
    hide DecodeItem;
    var rest := fs[|fs| - k..];
    if k == 0 {
      assert [] + t == t;
    } else {
      assert rest[1..] == fs[|fs| - (k - 1)..] && rest[0] == fs[|fs| - k];
      WrittenReads(fs[|fs| - k], WrittenAll(rest[1..]) + t, depth);
      WrittenAllReads(fs, k - 1, t, depth);
      assert WrittenAll(rest) + t == Written(rest[0]) + (WrittenAll(rest[1..]) + t);
    }
  }

  // ---- and nothing else is read ----

  /** The form at the front of a string that the decoder reads an item from. */
  lemma {:induction false} ReadForm(s: seq<Byte>, depth: nat) returns (f: Form)
    requires depth <= MAX_DEPTH && DecodeItem(s, depth).Done?
    ensures Allowed(f, depth) && Meant(f) == DecodeItem(s, depth).value
    ensures s == Written(f) + DecodeItem(s, depth).rest
    decreases |s|, 0, 0
  {
    hide ParseLongLong, Line, Decimal, DecodeItems;
    var body := s[1..];
    var k := KindOfByte(s[0]).value;
    if !(k.KArray? && depth == MAX_DEPTH) {
      LineWas(body);
    }
    var l := Line(body);
    assert s == [s[0]] + l.value + CRLF + l.rest;
    match k
    case KStatus => f := StatusLine(l.value);
    case KError => f := ErrorLine(l.value);
    case KInteger => f := Number(ParseLongLong(l.value).value);
    case KString => f := ReadBulk(s, depth);
    case KArray =>
      var n := ParseLongLong(l.value).value;
      if n == -1 {
        f := NilArray;
        NilIs(f);
      } else {
        var items := ReadForms(n, l.rest, depth + 1);
        f := Items(items);
        Associate([Code('*')] + Decimal(n) + CRLF, WrittenAll(items), DecodeItem(s, depth).rest);
      }
  }

  lemma ReadBulk(s: seq<Byte>, depth: nat) returns (f: Form)
    requires depth <= MAX_DEPTH && DecodeItem(s, depth).Done? && s[0] == Code('$')
    ensures Allowed(f, depth) && Meant(f) == DecodeItem(s, depth).value
    ensures s == Written(f) + DecodeItem(s, depth).rest
  {
    hide ParseLongLong, Line, Decimal, DecodeItems;
    var l := Line(s[1..]);
    LineWas(s[1..]);
    assert s == [s[0]] + l.value + CRLF + l.rest;
    var n := ParseLongLong(l.value).value;
    if n == -1 {
      f := NilBulk;
      NilIs(f);
    } else {
      f := BulkString(l.rest[..n], l.rest[n], l.rest[n + 1]);
      assert l.rest == l.rest[..n] + [l.rest[n], l.rest[n + 1]] + l.rest[n + 2..];
    }
  }

  lemma {:induction false} ReadForms(n: nat, s: seq<Byte>, depth: nat) returns (fs: seq<Form>)
    requires depth <= MAX_DEPTH && DecodeItems(n, s, depth).Done?
    ensures |fs| == n && AllAllowed(fs, depth) && MeantAll(fs) == DecodeItems(n, s, depth).value
    ensures s == WrittenAll(fs) + DecodeItems(n, s, depth).rest
    decreases |s|, 1, n
  {
    hide DecodeItem;
    fs := [];
    if n > 0 {
      var item := DecodeItem(s, depth);
      var f := ReadForm(s, depth);
      var rest := ReadForms(n - 1, item.rest, depth);
      fs := [f] + rest;
      assert fs[1..] == rest;
    }
  }

  // ---- where it fails ----

  predicate IsNumber(text: seq<Byte>, low: int, high: int) {
    exists v :: low <= v <= high && Decimal(v) == text
  }

  /** A violation in the item at the front itself: its type byte, or the line behind that. */
  ghost predicate Broken(s: seq<Byte>, depth: nat, e: ProtocolError) {
    || (s != [] && s[0] !in {Code('+'), Code('-'), Code(':'), Code('$'), Code('*')} && e == BadType(s[0]))
    || (s != [] && s[0] == Code('*') && depth == MAX_DEPTH && e == NestingTooDeep)
    || exists text, t :: BrokenLine(s, text, t, depth, e)
  }

  ghost predicate BrokenLine(s: seq<Byte>, text: seq<Byte>, t: seq<Byte>, depth: nat, e: ProtocolError) {
    && s != [] && s == [s[0]] + text + CRLF + t && OneLine(text)
    && var number, natural := IsNumber(text, LLONG_MIN, LLONG_MAX), IsNumber(text, -1, LLONG_MAX);
       || (s[0] == Code(':') && !number && e == BadInteger)
       || (s[0] == Code('$') && !number && e == BadBulkLength)
       || (s[0] == Code('$') && number && !natural && e == BulkLengthOutOfRange)
       || (s[0] == Code('*') && depth < MAX_DEPTH && !number && e == BadMultiBulkLength)
       || (s[0] == Code('*') && depth < MAX_DEPTH && number && !IsNumber(text, -1, INT_MAX)
           && e == MultiBulkLengthOutOfRange)
  }

  /** A violation in the item at the front, or in an element of it behind elements that are well-formed. */
  ghost predicate Violates(s: seq<Byte>, depth: nat, e: ProtocolError)
    requires depth <= MAX_DEPTH
    decreases MAX_DEPTH - depth
  {
    Broken(s, depth, e)
    || (depth < MAX_DEPTH
        && exists n: nat, fs, t :: ArrayBefore(s, n, fs, t, depth) && Violates(t, depth + 1, e))
  }

  /** `s` starts an array of `n` elements; the first ones are `fs`, and at least one is left at the front of `t`. */
  predicate ArrayBefore(s: seq<Byte>, n: nat, fs: seq<Form>, t: seq<Byte>, depth: nat) {
    && |fs| < n <= INT_MAX && AllAllowed(fs, depth + 1)
    && s == [Code('*')] + Decimal(n) + CRLF + (WrittenAll(fs) + t)
  }

  lemma NumberIs(text: seq<Byte>, low: int, high: int)
    requires LLONG_MIN <= low <= high <= LLONG_MAX
    ensures IsNumber(text, low, high)
        <==> ParseLongLong(text).Some? && low <= ParseLongLong(text).value <= high
  {
    hide Decimal;
    if IsNumber(text, low, high) {
      var v :| low <= v <= high && Decimal(v) == text;
      ParseDecimal(v);
    }
  }

  lemma NumbersAre(text: seq<Byte>)
    ensures IsNumber(text, LLONG_MIN, LLONG_MAX) <==> ParseLongLong(text).Some?
    ensures IsNumber(text, -1, LLONG_MAX) <==> ParseLongLong(text).Some? && ParseLongLong(text).value >= -1
    ensures IsNumber(text, -1, INT_MAX) <==> ParseLongLong(text).Some? && -1 <= ParseLongLong(text).value <= INT_MAX
  {
    hide ParseLongLong, IsNumber;
    NumberIs(text, LLONG_MIN, LLONG_MAX);
    NumberIs(text, -1, LLONG_MAX);
    NumberIs(text, -1, INT_MAX);
  }

  lemma BrokenFails(s: seq<Byte>, depth: nat, e: ProtocolError)
    requires depth <= MAX_DEPTH && Broken(s, depth, e)
    ensures DecodeItem(s, depth) == Bad(e)
  {
    hide ParseLongLong, Line, Decimal, DecodeItems, IsNumber, OneLine;
    if text, t :| BrokenLine(s, text, t, depth, e) {
      TypedLine(s[0], text, t);
      NumbersAre(text);
    }
  }

  lemma {:induction false} ViolationFails(s: seq<Byte>, depth: nat, e: ProtocolError)
    requires depth <= MAX_DEPTH && Violates(s, depth, e)
    ensures DecodeItem(s, depth) == Bad(e)
    decreases MAX_DEPTH - depth
  {
    hide DecodeItem, DecodeItems, Broken, Decimal;
    if Broken(s, depth, e) {
      BrokenFails(s, depth, e);
    } else {
      var n: nat, fs, t :| ArrayBefore(s, n, fs, t, depth) && Violates(t, depth + 1, e);
      ViolationFails(t, depth + 1, e);
      ItemsFail(n, fs, t, depth + 1, e);
      ArrayHeader(n, WrittenAll(fs) + t, depth);
    }
  }

  lemma {:induction false} ItemsFail(n: nat, fs: seq<Form>, t: seq<Byte>, depth: nat, e: ProtocolError)
    requires depth <= MAX_DEPTH && |fs| < n && AllAllowed(fs, depth) && DecodeItem(t, depth) == Bad(e)
    ensures DecodeItems(n, WrittenAll(fs) + t, depth) == Bad(e)
    decreases |fs|
  {
    hide DecodeItem, Written, Allowed;
    if fs == [] {
      assert [] + t == t;
    } else {
      WrittenReads(fs[0], WrittenAll(fs[1..]) + t, depth);
      ItemsFail(n - 1, fs[1..], t, depth, e);
      assert WrittenAll(fs) + t == Written(fs[0]) + (WrittenAll(fs[1..]) + t);
    }
  }

  lemma {:induction false} FailureViolates(s: seq<Byte>, depth: nat)
    requires depth <= MAX_DEPTH && DecodeItem(s, depth).Bad?
    ensures Violates(s, depth, DecodeItem(s, depth).error)
    decreases |s|, 0, 0
  {
    hide ParseLongLong, Line, Decimal, DecodeItems, IsNumber, OneLine;
    var e := DecodeItem(s, depth).error;
    if KindOfByte(s[0]).Some? && !(s[0] == Code('*') && depth == MAX_DEPTH) {
      var body := s[1..];
      LineWas(body);
      var l := Line(body);
      assert s == [s[0]] + l.value + CRLF + l.rest;
      NumbersAre(l.value);
      if !BrokenLine(s, l.value, l.rest, depth, e) {
        var n := ParseLongLong(l.value).value;
        var fs, t := FailingItem(n, l.rest, depth + 1);
        assert s == [Code('*')] + Decimal(n) + CRLF + (WrittenAll(fs) + t);
        assert ArrayBefore(s, n, fs, t, depth);
      }
    }
  }

  /** The elements before the one that fails. */
  lemma {:induction false} FailingItem(n: nat, s: seq<Byte>, depth: nat) returns (fs: seq<Form>, t: seq<Byte>)
    requires depth <= MAX_DEPTH && DecodeItems(n, s, depth).Bad?
    ensures |fs| < n && AllAllowed(fs, depth) && s == WrittenAll(fs) + t
    ensures Violates(t, depth, DecodeItems(n, s, depth).error)
    decreases |s|, 1, n
  {
    hide DecodeItem, Violates;
    var item := DecodeItem(s, depth);
    if item.Bad? {
      FailureViolates(s, depth);
      fs, t := [], s;
      assert [] + s == s;
    } else {
      var f := ReadForm(s, depth);
      var rest;
      rest, t := FailingItem(n - 1, item.rest, depth);
      fs := [f] + rest;
      assert fs[1..] == rest;
    }
  }

  /**
   What the decoder makes of any byte string, without the decoder: it reads `v` and leaves `t` iff the string is a
   form that means `v`, then `t`; it fails with `e` iff the string violates the protocol so; else it needs more.
   */
  lemma DecodesExactly(s: seq<Byte>, depth: nat, v: Reply, t: seq<Byte>, e: ProtocolError)
    requires depth <= MAX_DEPTH
    ensures DecodeItem(s, depth) == Done(v, t) <==> exists f :: Allowed(f, depth) && Meant(f) == v && s == Written(f) + t
    ensures DecodeItem(s, depth) == Bad(e) <==> Violates(s, depth, e)
  {
    hide DecodeItem, Violates, Allowed, Meant, Written;
    if DecodeItem(s, depth) == Done(v, t) {
      var f := ReadForm(s, depth);
    }
    if f :| Allowed(f, depth) && Meant(f) == v && s == Written(f) + t {
      WrittenReads(f, t, depth);
    }
    if DecodeItem(s, depth).Bad? {
      FailureViolates(s, depth);
    }
    if Violates(s, depth, e) {
      ViolationFails(s, depth, e);
    }
  }

  // ---- streams ----

  /** Forms one after the other, then something that is not, or not yet, one. */
  lemma {:induction false} StreamReads(fs: seq<Form>, t: seq<Byte>)
    requires AllAllowed(fs, 0)
    ensures DecodeStream(WrittenAll(fs) + t) == Prepend(MeantAll(fs), DecodeStream(t))
    decreases |fs|
  {
    hide DecodeItem, Written, Allowed, Meant;
    if fs == [] {
      assert [] + t == t;
    } else {
      WrittenReads(fs[0], WrittenAll(fs[1..]) + t, 0);
      StreamReads(fs[1..], t);
      assert WrittenAll(fs) + t == Written(fs[0]) + (WrittenAll(fs[1..]) + t);
    }
  }

  /** Every stream is forms one after the other, and then something that fails, or waits, at once. */
  lemma {:induction false} StreamForms(s: seq<Byte>) returns (fs: seq<Form>, t: seq<Byte>)
    ensures AllAllowed(fs, 0) && s == WrittenAll(fs) + t && MeantAll(fs) == DecodeStream(s).replies
    ensures match DecodeStream(s).end
            case Failed(e) => Violates(t, 0, e)
            case Pending => DecodeItem(t, 0).More?
    decreases |s|
  {
    hide DecodeItem, Written, Allowed, Meant, Violates;
    var item := DecodeItem(s, 0);
    if item.Done? {
      var f := ReadForm(s, 0);
      var rest;
      rest, t := StreamForms(item.rest);
      fs := [f] + rest;
      assert fs[1..] == rest;
    } else {
      fs, t := [], s;
      assert [] + s == s;
      if item.Bad? {
        FailureViolates(s, 0);
      }
    }
  }

  lemma NothingPends()
    ensures DecodeStream([]) == Stream([], Pending)
  {
  }

  /** The incremental reader hands out what was written, however the bytes arrive. */
  method ReadWritten(fs: seq<Form>, chunks: seq<seq<Byte>>, oversized: seq<bool>) returns (replies: seq<Reply>, end: End)
    requires AllAllowed(fs, 0) && Flatten(chunks) == WrittenAll(fs) && |oversized| == |chunks|
    ensures replies == MeantAll(fs) && end == Pending
  {
    hide DecodeItem;
    StreamReads(fs, []);
    NothingPends();
    assert WrittenAll(fs) + [] == WrittenAll(fs);
    replies, end := Reader.ParseStream(chunks, oversized);
  }

  /** And fails on a stream that violates the protocol behind what was written, with that violation. */
  method ReadViolation(fs: seq<Form>, t: seq<Byte>, e: ProtocolError, chunks: seq<seq<Byte>>, oversized: seq<bool>)
    returns (replies: seq<Reply>, end: End)
    requires AllAllowed(fs, 0) && Violates(t, 0, e) && Flatten(chunks) == WrittenAll(fs) + t && |oversized| == |chunks|
    ensures replies == MeantAll(fs) && end == Failed(e)
  {
    hide DecodeItem, Violates;
    StreamReads(fs, t);
    ViolationFails(t, 0, e);
    replies, end := Reader.ParseStream(chunks, oversized);
  }
}
