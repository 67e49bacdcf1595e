/**
 What a half-read reply still means.  A `Progress` is the reader's task stack seen from
 outside: the arrays being filled, and whether the next item's type byte has been read.
 `Resume` completes such a half-read reply with the recursive decoder.
 */
module Resumption {
  import opened ByteStrings
  import opened Decimals
  import opened Resp

  /** An array being filled: its announced length and the elements stored so far. */
  datatype Frame = Frame(elements: nat, filled: seq<Reply>)

  datatype Progress =
    | Working(kind: Option<Kind>, frames: seq<Frame>)
    | Finished(reply: Reply)

  predicate Open(frames: seq<Frame>) {
    |frames| <= MAX_DEPTH && forall i | 0 <= i < |frames| :: |frames[i].filled| < frames[i].elements <= INT_MAX
  }

  predicate Legal(p: Progress) {
    p.Working? ==> Open(p.frames)
  }

  function Last(frames: seq<Frame>): Frame
    requires frames != []
  {
    frames[|frames| - 1]
  }

  function Init(frames: seq<Frame>): seq<Frame>
    requires frames != []
  {
    frames[..|frames| - 1]
  }

  /** Item `v` of the innermost array is complete; finish that array, and all around it, from `s`. */
  ghost function Ascend(frames: seq<Frame>, v: Reply, s: seq<Byte>): Outcome<Reply>
    requires Open(frames)
    decreases |frames|
  {
    if frames == [] then Done(v, s)
    else
      var filled := Last(frames).filled + [v];
      match DecodeItems(Last(frames).elements - |filled|, s, |frames|)
      case More => More
      case Bad(e) => Bad(e)
      case Done(vs, rest) => Ascend(Init(frames), Arr(filled + vs), rest)
  }

  ghost function Resume(p: Progress, s: seq<Byte>): Outcome<Reply>
    requires Legal(p)
  {
    match p
    case Finished(v) => Done(v, s)
    case Working(kind, frames) =>
      match (if kind.None? then DecodeItem(s, |frames|) else DecodeBody(kind.value, s, |frames|))
      case More => More
      case Bad(e) => Bad(e)
      case Done(v, rest) => Ascend(frames, v, rest)
  }

  /** Reading `c` takes progress `p` to progress `q`, whatever follows. */
  ghost predicate Step(p: Progress, c: seq<Byte>, q: Progress)
    requires Legal(p) && Legal(q)
  {
    forall s: seq<Byte> {:trigger Resume(q, s)} :: Resume(q, s) == Resume(p, c + s)
  }

  /** Whatever follows `avail`, progress `p` ends in violation `e`. */
  ghost predicate Fails(p: Progress, avail: seq<Byte>, e: ProtocolError)
    requires Legal(p)
  {
    forall s: seq<Byte> {:trigger Resume(p, avail + s)} :: Resume(p, avail + s) == Bad(e)
  }

  /** Behind the type byte `k`, the bytes `c` are exactly the item `v`. */
  ghost predicate Reads(k: Kind, depth: nat, c: seq<Byte>, v: Reply)
    requires depth <= MAX_DEPTH
  {
    forall s: seq<Byte> {:trigger DecodeBody(k, c + s, depth)} :: DecodeBody(k, c + s, depth) == Done(v, s)
  }

  /** `p` is the reader's progress after the bytes `item` of one reply. */
  ghost predicate Tracks(item: seq<Byte>, p: Progress)
    requires Legal(p)
  {
    forall s: seq<Byte> {:trigger Resume(p, s)} :: Resume(p, s) == DecodeItem(item + s, 0)
  }

  lemma TracksNothing()
    ensures Tracks([], Working(None, []))
  {
    forall s: seq<Byte> ensures Resume(Working(None, []), s) == DecodeItem([] + s, 0) {
      assert [] + s == s;
    }
  }

  lemma TracksStep(item: seq<Byte>, p: Progress, c: seq<Byte>, q: Progress)
    requires Legal(p) && Legal(q) && Tracks(item, p) && Step(p, c, q)
    ensures Tracks(item + c, q)
  {
    hide Resume, DecodeItem;
    forall s: seq<Byte> ensures Resume(q, s) == DecodeItem(item + c + s, 0) {
      assert item + c + s == item + (c + s);
      assert Resume(p, c + s) == DecodeItem(item + (c + s), 0);
    }
  }

  lemma StepTrans(p: Progress, c: seq<Byte>, q: Progress, d: seq<Byte>, r: Progress)
    requires Legal(p) && Legal(q) && Legal(r) && Step(p, c, q) && Step(q, d, r)
    ensures Step(p, c + d, r)
  {
    hide Resume;
    forall s: seq<Byte> ensures Resume(r, s) == Resume(p, c + d + s) {
      assert c + d + s == c + (d + s);
      assert Resume(q, d + s) == Resume(p, c + (d + s));
    }
  }

  // ---- the three ways a reader moves ----

  lemma TypeStep(b: Byte, frames: seq<Frame>)
    requires Open(frames) && KindOfByte(b).Some?
    ensures Step(Working(None, frames), [b], Working(KindOfByte(b), frames))
  {
    forall s: seq<Byte>
      ensures Resume(Working(KindOfByte(b), frames), s) == Resume(Working(None, frames), [b] + s)
    {
      assert ([b] + s)[1..] == s;
    }
  }

  /** Where the stack stands once the current item is `v`: closes every array that `v` completes. */
  function Moved(frames: seq<Frame>, v: Reply): (p: Progress)
    requires Open(frames)
    ensures Legal(p) && (p.Working? ==> p.kind == None)
    decreases |frames|
  {
    if frames == [] then Finished(v)
    else
      var filled := Last(frames).filled + [v];
      if |filled| == Last(frames).elements then Moved(Init(frames), Arr(filled))
      else Working(None, Init(frames) + [Frame(Last(frames).elements, filled)])
  }

  lemma {:induction false} MovedMeaning(frames: seq<Frame>, v: Reply, s: seq<Byte>)
    requires Open(frames)
    ensures Resume(Moved(frames, v), s) == Ascend(frames, v, s)
    decreases |frames|
  {
    if frames != [] {
      var f := Last(frames);
      var filled := f.filled + [v];
      if |filled| == f.elements {
        assert filled + [] == filled;
        MovedMeaning(Init(frames), Arr(filled), s);
      } else {
        var frames' := Init(frames) + [Frame(f.elements, filled)];
        assert Init(frames') == Init(frames) && |frames'| == |frames|;
        var item := DecodeItem(s, |frames|);
        if item.Done? {
          var others := DecodeItems(f.elements - |filled| - 1, item.rest, |frames|);
          if others.Done? {
            assert filled + ([item.value] + others.value) == filled + [item.value] + others.value;
          }
        }
      }
    }
  }

  lemma LeafStep(k: Kind, frames: seq<Frame>, c: seq<Byte>, v: Reply)
    requires Open(frames)
    requires Reads(k, |frames|, c, v)
    ensures Step(Working(Some(k), frames), c, Moved(frames, v))
  {
    forall s: seq<Byte> ensures Resume(Moved(frames, v), s) == Resume(Working(Some(k), frames), c + s) {
      assert DecodeBody(k, c + s, |frames|) == Done(v, s);
      MovedMeaning(frames, v, s);
    }
  }

  lemma ArrayStep(n: nat, frames: seq<Frame>, c: seq<Byte>)
    requires Open(frames) && |frames| < MAX_DEPTH && 0 < n <= INT_MAX
    requires forall s: seq<Byte> {:trigger DecodeCount(c + s, |frames|)} ::
               DecodeCount(c + s, |frames|) == Done(Some(n), s)
    ensures Step(Working(Some(KArray), frames), c, Working(None, frames + [Frame(n, [])]))
  {
    var inner := frames + [Frame(n, [])];
    assert Init(inner) == frames && Last(inner) == Frame(n, []);
    forall s: seq<Byte> ensures Resume(Working(None, inner), s) == Resume(Working(Some(KArray), frames), c + s) {
      hide *;
      Opened(n, frames, c + s, s);
    }
  }

  /** The header of an array is at the front of `cs`, and `s` is what follows it. */
  lemma Opened(n: nat, frames: seq<Frame>, cs: seq<Byte>, s: seq<Byte>)
    requires Open(frames) && |frames| < MAX_DEPTH && 0 < n <= INT_MAX && DecodeCount(cs, |frames|) == Done(Some(n), s)
    ensures Open(frames + [Frame(n, [])])
    ensures Resume(Working(None, frames + [Frame(n, [])]), s) == Resume(Working(Some(KArray), frames), cs)
  {
    hide DecodeItem, DecodeCount;
    var inner := frames + [Frame(n, [])];
    assert Init(inner) == frames && Last(inner) == Frame(n, []);
    var items := DecodeItems(n, s, |inner|);
    assert DecodeBody(KArray, cs, |frames|)
        == if items.Done? then Done(Arr(items.value), items.rest) else if items.Bad? then Bad(items.error) else More;
    var item := DecodeItem(s, |inner|);
    if item.Done? {
      assert Last(inner).filled + [item.value] == [item.value];
    }
  }

  lemma StepNothing(p: Progress)
    requires Legal(p)
    ensures Step(p, [], p)
  {
    forall s: seq<Byte> ensures Resume(p, s) == Resume(p, [] + s) {
      assert [] + s == s;
    }
  }

  lemma StepThenFails(p: Progress, c: seq<Byte>, q: Progress, avail: seq<Byte>, e: ProtocolError)
    requires Legal(p) && Legal(q) && Step(p, c, q) && Fails(q, avail, e)
    ensures Fails(p, c + avail, e)
  {
    forall s: seq<Byte> ensures Resume(p, c + avail + s) == Bad(e) {
      assert c + avail + s == c + (avail + s);
      assert Resume(q, avail + s) == Resume(p, c + (avail + s));
    }
  }

  // ---- what one look at the buffer settles ----

  /** A line that was found is found again when something else follows it. */
  lemma LineCut(s: seq<Byte>, t: seq<Byte>)
    requires FindCRLF(s).Some?
    ensures Line(s[..FindCRLF(s).value + 2] + t) == Done(Line(s).value, t)
  {
    hide FindCRLF;
    var n := FindCRLF(s).value;
    var c := s[..n + 2];
    assert c[n] == CR && c[n + 1] == LF;
    assert FindCRLF(c).value == n;
    LineExtends(c, t);
    assert c[..n] == s[..n] && c[n + 2..] + t == t;
  }

  lemma LineReads(k: Kind, depth: nat, s: seq<Byte>)
    requires depth <= MAX_DEPTH && FindCRLF(s).Some?
    requires (k.KInteger? || k.KStatus? || k.KError?) && DecodeLine(k, s).Done?
    ensures Reads(k, depth, s[..FindCRLF(s).value + 2], DecodeLine(k, s).value)
  {
    forall t: seq<Byte>
      ensures DecodeBody(k, s[..FindCRLF(s).value + 2] + t, depth) == Done(DecodeLine(k, s).value, t)
    {
      LineCut(s, t);
    }
  }

  /** The length line of a bulk item ends at `end` and announces `len`. */
  ghost predicate Announces(s: seq<Byte>, end: nat, len: int) {
    FindCRLF(s) == Some(end) && len >= -1 && ParseLongLong(s[..end]) == Some(len)
  }

  lemma AnnouncedPayload(s: seq<Byte>, end: nat, len: int, t: seq<Byte>)
    requires Announces(s, end, len)
    ensures DecodeBulk(s[..end + 2] + t) == Payload(len, t)
  {
    hide FindCRLF, ParseLongLong, Payload;
    LineCut(s, t);
  }

  lemma NilReads(depth: nat, s: seq<Byte>, end: nat)
    requires depth <= MAX_DEPTH && Announces(s, end, -1)
    ensures Reads(KString, depth, s[..end + 2], Nil)
  {
    forall t: seq<Byte> ensures DecodeBody(KString, s[..end + 2] + t, depth) == Done(Nil, t) {
      AnnouncedPayload(s, end, -1, t);
    }
  }

  lemma StrRead(s: seq<Byte>, end: nat, len: nat, t: seq<Byte>)
    requires Announces(s, end, len) && end + 2 + len + 2 <= |s|
    ensures DecodeBulk(s[..end + 2 + len + 2] + t) == Done(Str(s[end + 2..end + 2 + len]), t)
  {
    hide DecodeBulk, FindCRLF, ParseLongLong;
    var payload := s[end + 2..end + 2 + len + 2];
    AnnouncedPayload(s, end, len, payload + t);
    assert s[..end + 2 + len + 2] + t == s[..end + 2] + (payload + t);
    assert (payload + t)[..len] == s[end + 2..end + 2 + len] && (payload + t)[len + 2..] == t;
  }

  lemma StrReads(depth: nat, s: seq<Byte>, end: nat, len: nat)
    requires depth <= MAX_DEPTH && Announces(s, end, len) && end + 2 + len + 2 <= |s|
    ensures Reads(KString, depth, s[..end + 2 + len + 2], Str(s[end + 2..end + 2 + len]))
  {
    hide DecodeBulk, FindCRLF, ParseLongLong;
    var c := s[..end + 2 + len + 2];
    forall t: seq<Byte> ensures DecodeBody(KString, c + t, depth) == Done(Str(s[end + 2..end + 2 + len]), t) {
      StrRead(s, end, len, t);
    }
  }

  lemma ShortPayload(s: seq<Byte>, end: nat, len: nat)
    requires Announces(s, end, len) && end + 2 + len + 2 > |s|
    ensures DecodeBulk(s) == More
  {
    assert s == s[..end + 2] + s[end + 2..];
    AnnouncedPayload(s, end, len, s[end + 2..]);
  }

  lemma CountReads(depth: nat, s: seq<Byte>)
    requires FindCRLF(s).Some? && DecodeCount(s, depth).Done?
    ensures forall t: seq<Byte> {:trigger DecodeCount(s[..FindCRLF(s).value + 2] + t, depth)} ::
              DecodeCount(s[..FindCRLF(s).value + 2] + t, depth) == Done(DecodeCount(s, depth).value, t)
  {
    forall t: seq<Byte>
      ensures DecodeCount(s[..FindCRLF(s).value + 2] + t, depth) == Done(DecodeCount(s, depth).value, t)
    {
      LineCut(s, t);
    }
  }

  /** Arrays without elements are complete with their first line. */
  lemma EmptyArrayReads(depth: nat, s: seq<Byte>)
    requires depth <= MAX_DEPTH && FindCRLF(s).Some? && DecodeCount(s, depth).Done?
    requires DecodeCount(s, depth).value in {None, Some(0)}
    ensures Reads(KArray, depth, s[..FindCRLF(s).value + 2], if DecodeCount(s, depth).value.None? then Nil else Arr([]))
  {
    CountReads(depth, s);
    var c := s[..FindCRLF(s).value + 2];
    forall t: seq<Byte>
      ensures DecodeBody(KArray, c + t, depth) == Done(if DecodeCount(s, depth).value.None? then Nil else Arr([]), t)
    {
      assert DecodeCount(c + t, depth) == Done(DecodeCount(s, depth).value, t);
    }
  }

  ghost predicate BodyIsWaiting(k: Kind, s: seq<Byte>, depth: nat)
    requires depth <= MAX_DEPTH
  {
    match k
    case KString => DecodeBulk(s) == More
    case KArray => DecodeCount(s, depth) == More
    case _ => DecodeLine(k, s) == More
  }

  lemma BodyWaits(k: Kind, frames: seq<Frame>, s: seq<Byte>)
    requires Open(frames) && BodyIsWaiting(k, s, |frames|)
    ensures Resume(Working(Some(k), frames), s) == More
  {}

  ghost predicate BodyIsBad(k: Kind, s: seq<Byte>, depth: nat, e: ProtocolError)
    requires depth <= MAX_DEPTH
  {
    match k
    case KString => DecodeBulk(s) == Bad(e)
    case KArray => DecodeCount(s, depth) == Bad(e)
    case _ => DecodeLine(k, s) == Bad(e)
  }

  lemma BadStaysBad(k: Kind, s: seq<Byte>, t: seq<Byte>, depth: nat, e: ProtocolError)
    requires depth <= MAX_DEPTH && BodyIsBad(k, s, depth, e)
    ensures BodyIsBad(k, s + t, depth, e)
  {
    if Line(s).Done? {
      LineExtends(s, t);
    }
  }

  /** A violation does not depend on what follows. */
  lemma BodyFails(k: Kind, frames: seq<Frame>, s: seq<Byte>, e: ProtocolError)
    requires Open(frames)
    requires BodyIsBad(k, s, |frames|, e)
    ensures Fails(Working(Some(k), frames), s, e)
  {
    forall t: seq<Byte> ensures Resume(Working(Some(k), frames), s + t) == Bad(e) {
      BadStaysBad(k, s, t, |frames|, e);
      assert DecodeBody(k, s + t, |frames|) == Bad(e);
    }
  }

  lemma TypeFails(frames: seq<Frame>, s: seq<Byte>)
    requires Open(frames) && s != [] && KindOfByte(s[0]).None?
    ensures Fails(Working(None, frames), s, BadType(s[0]))
  {
    forall t: seq<Byte> ensures Resume(Working(None, frames), s + t) == Bad(BadType(s[0])) {
      assert (s + t)[0] == s[0];
    }
  }

  // ---- the reply object under construction ----

  function Nulls(n: nat): (r: seq<Reply>)
    ensures |r| == n && forall i | 0 <= i < n :: r[i] == Null
  {
    seq(n, _ => Null)
  }

  /** The object tree of the open arrays, with `x` in the slot that is being read. */
  function Plug(frames: seq<Frame>, x: Reply): Reply
    requires Open(frames)
  {
    if frames == [] then x
    else Arr(frames[0].filled + [Plug(frames[1..], x)] + Nulls(frames[0].elements - |frames[0].filled| - 1))
  }

  /** Follows `path` of element indices down through arrays. */
  predicate Reaches(r: Reply, path: seq<int>) {
    path == [] || (r.Arr? && 0 <= path[0] < |r.elements| && Reaches(r.elements[path[0]], path[1..]))
  }

  /** `parent->element[idx] = v` for the parent at the end of `path`. */
  function SetAt(r: Reply, path: seq<int>, v: Reply): Reply
    requires Reaches(r, path)
  {
    if path == [] then v
    else Arr(r.elements[path[0] := SetAt(r.elements[path[0]], path[1..], v)])
  }

  function Indices(frames: seq<Frame>): (r: seq<int>)
    ensures |r| == |frames|
  {
    seq(|frames|, i requires 0 <= i < |frames| => |frames[i].filled|)
  }

  lemma {:induction false} PlugSet(frames: seq<Frame>, x: Reply, v: Reply)
    requires Open(frames)
    ensures Reaches(Plug(frames, x), Indices(frames))
    ensures SetAt(Plug(frames, x), Indices(frames), v) == Plug(frames, v)
  {
    if frames != [] {
      PlugSet(frames[1..], x, v);
      assert Indices(frames)[1..] == Indices(frames[1..]);
      var f := frames[0];
      var r := Plug(frames, x);
      assert r.elements[|f.filled|] == Plug(frames[1..], x);
      assert r.elements[|f.filled| := Plug(frames[1..], v)]
          == f.filled + [Plug(frames[1..], v)] + Nulls(f.elements - |f.filled| - 1);
    }
  }

  lemma {:induction false} PlugSnoc(frames: seq<Frame>, f: Frame, x: Reply)
    requires |f.filled| < f.elements && Open(frames + [f]) && Open(frames)
    ensures Plug(frames + [f], x) == Plug(frames, Arr(f.filled + [x] + Nulls(f.elements - |f.filled| - 1)))
  {
    var all := frames + [f];
    if frames == [] {
      assert all[1..] == [];
    } else {
      assert all[1..] == frames[1..] + [f];
      PlugSnoc(frames[1..], f, x);
    }
  }
}
