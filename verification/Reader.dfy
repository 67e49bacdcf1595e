/**
 The incremental reply reader of hiredis/read.c: a byte buffer with a cursor, a fixed stack
 of nine read tasks, and a reply object that is filled in from the outside in.
 Ghost fields remember what was fed and what was emitted, so that `Valid` can compare
 the reader with the recursive decoder on the whole stream.
 */
module Reader {
  import opened ByteStrings
  import opened Decimals
  import opened Resp
  import opened Resumption

  const REDIS_REPLY_STRING: int := 1
  const REDIS_REPLY_ARRAY: int := 2
  const REDIS_REPLY_INTEGER: int := 3
  const REDIS_REPLY_STATUS: int := 5
  const REDIS_REPLY_ERROR: int := 6

  /** Consumed bytes are dropped from the buffer once there are this many. */
  const DISCARD: nat := 1024

  /** `redisReadTask`; the parent of a task is the task below it on the stack. */
  datatype Task = Task(typ: int, elements: int, idx: int)

  function KindOfType(typ: int): Option<Kind> {
    if typ == REDIS_REPLY_STRING then Some(KString)
    else if typ == REDIS_REPLY_ARRAY then Some(KArray)
    else if typ == REDIS_REPLY_INTEGER then Some(KInteger)
    else if typ == REDIS_REPLY_STATUS then Some(KStatus)
    else if typ == REDIS_REPLY_ERROR then Some(KError)
    else None
  }

  /** Looks for CRLF, rescanning after every lone CR. */
  method SeekNewline(s: seq<Byte>) returns (r: Option<nat>)
    ensures r == FindCRLF(s)
  {
    var pos := 0;
    var last := |s| - 1;
    while pos < last
      invariant 0 <= pos && (pos <= last || last < 0)
      invariant forall i | 0 <= i < pos && i < last :: !(s[i] == CR && s[i + 1] == LF)
    {
      while pos < last && s[pos] != CR
        invariant 0 <= pos <= last
        invariant forall i | 0 <= i < pos :: !(s[i] == CR && s[i + 1] == LF)
        decreases last - pos
      {
        pos := pos + 1;
      }
      if pos == last {
        return None;
      } else if s[pos + 1] == LF {
        return Some(pos);
      } else {
        pos := pos + 1;
      }
    }
    return None;
  }

  /** The task stack agrees with the arrays that are being filled. */
  ghost predicate StackOk(rstack: seq<Task>, ridx: int, frames: seq<Frame>) {
    && |rstack| == 9 && -1 <= ridx <= 8
    && (ridx >= 0 ==>
          && |frames| == ridx && Open(frames)
          && (rstack[ridx].typ < 0 || KindOfType(rstack[ridx].typ).Some?))
    && (forall i | 0 <= i < ridx :: rstack[i].typ == REDIS_REPLY_ARRAY && rstack[i].elements == frames[i].elements)
    && (forall i | 0 <= i < ridx :: rstack[i + 1].idx == |frames[i].filled|)
  }

  ghost function ProgressOf(rstack: seq<Task>, ridx: int, frames: seq<Frame>, reply: Reply): (p: Progress)
    requires StackOk(rstack, ridx, frames)
    ensures Legal(p)
  {
    if ridx == -1 then Finished(reply) else Working(KindOfType(rstack[ridx].typ), frames)
  }

  // ---- streams ----

  ghost predicate Emits(past: seq<Byte>, emitted: seq<Reply>) {
    forall s: seq<Byte> {:trigger DecodeStream(past + s)} :: Prepend(emitted, DecodeStream(s)) == DecodeStream(past + s)
  }

  /** No continuation of `item` is a reply: every one fails with `e`. */
  ghost predicate Poisoned(item: seq<Byte>, e: ProtocolError) {
    forall s: seq<Byte> {:trigger DecodeItem(item + s, 0)} :: DecodeItem(item + s, 0) == Bad(e)
  }

  lemma EmitsNothing()
    ensures Emits([], [])
  {
    forall s: seq<Byte> ensures Prepend([], DecodeStream(s)) == DecodeStream([] + s) {
      assert [] + s == s;
    }
  }

  lemma EmitsOne(past: seq<Byte>, emitted: seq<Reply>, item: seq<Byte>, v: Reply)
    requires Emits(past, emitted) && Tracks(item, Finished(v))
    ensures Emits(past + item, emitted + [v])
  {
    hide DecodeItem;
    forall s: seq<Byte> ensures Prepend(emitted + [v], DecodeStream(s)) == DecodeStream(past + item + s) {
      assert past + item + s == past + (item + s);
      assert Resume(Finished(v), s) == DecodeItem(item + s, 0);
      assert Prepend(emitted, DecodeStream(item + s)) == DecodeStream(past + (item + s));
      assert emitted + ([v] + DecodeStream(s).replies) == emitted + [v] + DecodeStream(s).replies;
    }
  }

  lemma StreamPending(past: seq<Byte>, emitted: seq<Reply>, item: seq<Byte>, p: Progress, avail: seq<Byte>)
    requires Emits(past, emitted) && Legal(p) && Tracks(item, p) && Resume(p, avail) == More
    ensures DecodeStream(past + item + avail) == Stream(emitted, Pending)
  {
    assert past + item + avail == past + (item + avail);
    assert Prepend(emitted, DecodeStream(item + avail)) == DecodeStream(past + (item + avail));
  }

  lemma StreamFailed(past: seq<Byte>, emitted: seq<Reply>, item: seq<Byte>, e: ProtocolError, s: seq<Byte>)
    requires Emits(past, emitted) && Poisoned(item, e)
    ensures DecodeStream(past + item + s) == Stream(emitted, Failed(e))
  {
    assert past + item + s == past + (item + s);
    assert Prepend(emitted, DecodeStream(item + s)) == DecodeStream(past + (item + s));
    assert DecodeItem(item + s, 0) == Bad(e);
  }

  lemma Poison(item: seq<Byte>, p: Progress, avail: seq<Byte>, e: ProtocolError)
    requires Legal(p) && Tracks(item, p)
    requires Fails(p, avail, e)
    ensures Poisoned(item + avail, e)
  {
    forall s: seq<Byte> ensures DecodeItem(item + avail + s, 0) == Bad(e) {
      assert item + avail + s == item + (avail + s);
      assert Resume(p, avail + s) == Bad(e);
    }
  }

  lemma PoisonGrows(item: seq<Byte>, data: seq<Byte>, e: ProtocolError)
    requires Poisoned(item, e)
    ensures Poisoned(item + data, e)
  {
    forall s: seq<Byte> ensures DecodeItem(item + data + s, 0) == Bad(e) {
      assert item + data + s == item + (data + s);
    }
  }

  lemma {:induction false} PlugMoved(frames: seq<Frame>, v: Reply)
    requires Open(frames)
    ensures match Moved(frames, v)
            case Finished(w) => w == Plug(frames, v)
            case Working(_, frames') => Plug(frames', Null) == Plug(frames, v)
    decreases |frames|
  {
    if frames != [] {
      var f := Last(frames);
      var filled := f.filled + [v];
      assert frames == Init(frames) + [f];
      PlugSnoc(Init(frames), f, v);
      if |filled| == f.elements {
        assert filled + Nulls(0) == filled;
        PlugMoved(Init(frames), Arr(filled));
      } else {
        var g := Frame(f.elements, filled);
        PlugSnoc(Init(frames), g, Null);
        assert filled + [Null] + Nulls(f.elements - |filled| - 1) == filled + Nulls(f.elements - |filled|);
      }
    }
  }

  lemma PlugNothing(x: Reply)
    ensures Plug([], x) == x
  {}

  lemma PlugOpened(frames: seq<Frame>, elements: nat)
    requires Open(frames) && |frames| < MAX_DEPTH && 0 < elements <= INT_MAX
    ensures Plug(frames + [Frame(elements, [])], Null) == Plug(frames, Arr(Nulls(elements)))
    ensures frames == [] ==> Plug(frames, Arr(Nulls(elements))) == Arr(Nulls(elements))
  {
    hide Plug, Nulls;
    PlugNothing(Arr(Nulls(elements)));
    PlugSnoc(frames, Frame(elements, []), Null);
    assert [] + [Null] + Nulls(elements - 1) == Nulls(elements);
  }

  /** One step of `Moved`. */
  lemma MovedIs(frames: seq<Frame>, v: Reply)
    requires Open(frames)
    ensures frames == [] ==> Moved(frames, v) == Finished(v)
    ensures frames != [] ==>
              var filled := Last(frames).filled + [v];
              && |filled| <= Last(frames).elements && Open(Init(frames))
              && Moved(frames, v) == if |filled| == Last(frames).elements then Moved(Init(frames), Arr(filled))
                                     else Working(None, Init(frames) + [Frame(Last(frames).elements, filled)])
  {}

  lemma OpenStays(frames: seq<Frame>, filled: seq<Reply>)
    requires Open(frames) && frames != [] && |filled| == |Last(frames).filled| + 1
    ensures Open(Init(frames)) && |filled| <= Last(frames).elements
    ensures |filled| < Last(frames).elements ==> Open(Init(frames) + [Frame(Last(frames).elements, filled)])
  {}

  /** A new array on top of the stack. */
  lemma StackGrows(rstack: seq<Task>, ridx: int, frames: seq<Frame>, elements: nat)
    requires StackOk(rstack, ridx, frames) && 0 <= ridx < 8 && rstack[ridx].typ == REDIS_REPLY_ARRAY
    requires 0 < elements <= INT_MAX
    ensures var r := rstack[ridx := rstack[ridx].(elements := elements)][ridx + 1 := Task(-1, -1, 0)];
            StackOk(r, ridx + 1, frames + [Frame(elements, [])]) && r[ridx + 1].typ == -1
  {}

  class RedisReader {
    var err: Option<ProtocolError>
    var buf: seq<Byte>
    var pos: nat
    var rstack: seq<Task>     // always nine
    var ridx: int
    var reply: Reply

    ghost var frames: seq<Frame>    // the arrays of rstack[..ridx]
    ghost var fed: seq<Byte>        // everything fed so far
    ghost var past: seq<Byte>       // the bytes of all emitted replies
    ghost var item: seq<Byte>       // the bytes consumed of the reply being read
    ghost var emitted: seq<Reply>   // all emitted replies

    ghost function Avail(): seq<Byte>
      reads this
    {
      if pos <= |buf| then buf[pos..] else []
    }

    ghost predicate Stack()
      reads this
    {
      && pos <= |buf| && |rstack| == 9 && -1 <= ridx <= 8
      && (ridx >= 0 ==> |frames| == ridx && Open(frames))
      && StackOk(rstack, ridx, frames)
    }

    ghost function Progress(): (p: Progress)
      requires Stack()
      reads this
      ensures Legal(p)
    {
      ProgressOf(rstack, ridx, frames, reply)
    }

    /** What holds between calls. */
    ghost predicate Valid()
      reads this
    {
      && fed == past + item + Avail()
      && Emits(past, emitted)
      && if err.Some? then Cleared() && Poisoned(item, err.value)
         else
           && Loaded() && (|buf| == 0 ==> pos == 0)
           && Tracks(item, if ridx == -1 then Working(None, []) else Progress())
           && (if ridx == -1 then reply == Null && item == []
               else |buf| == 0 ==> Resume(Progress(), []) == More)
    }

    constructor ()
      ensures Valid()
      ensures err == None && fed == [] && emitted == []
    {
      err := None;
      buf, pos := [], 0;
      rstack := seq(9, _ => Task(0, 0, 0));
      ridx := -1;
      reply := Null;
      frames, fed, past, item, emitted := [], [], [], [], [];
      new;
      EmitsNothing();
      TracksNothing();
    }

    /** No violation so far: the stack and the reply object agree with the open arrays. */
    ghost predicate Loaded()
      reads this
    {
      Stack() && err.None? && (ridx >= 0 ==> reply == Plug(frames, Null))
    }

    ghost predicate Cleared()
      reads this
    {
      Stack() && err.Some? && ridx == -1 && buf == [] && pos == 0
    }

    lemma StreamSoFar()
      requires Valid()
      ensures err.Some? ==> DecodeStream(fed) == Stream(emitted, Failed(err.value))
      ensures fed == [] && emitted == [] ==> DecodeStream(fed) == Stream(emitted, Pending)
    {
      if err.Some? {
        StreamFailed(past, emitted, item, err.value, []);
        assert past + item + [] == fed;
      }
    }

    lemma NothingToRead()
      requires Valid() && err.None? && |buf| == 0
      ensures DecodeStream(fed) == Stream(emitted, Pending)
    {
      hide Emits, Tracks, Poisoned;
      StreamPending(past, emitted, item, if ridx == -1 then Working(None, []) else Progress(), []);
      assert past + item + [] == fed;
    }

    method SetError(e: ProtocolError)
      requires Stack()
      modifies this`err, this`buf, this`pos, this`ridx, this`reply
      ensures Cleared() && err == Some(e)
    {
      reply := Null;
      buf, pos := [], 0;
      ridx := -1;
      err := Some(e);
    }

    function Path(): seq<int>
      requires 0 <= ridx < |rstack|
      reads this
    {
      seq(ridx, i requires 0 <= i < ridx < |rstack| reads this => rstack[i + 1].idx)
    }

    /** The common tail of the object constructors: store the object in the parent's slot, if there is a parent. */
    method LinkToParent(obj: Reply)
      requires Stack() && ridx >= 0 && reply == Plug(frames, Null)
      modifies this`reply
      ensures reply == if ridx == 0 then old(reply) else Plug(frames, obj)
    {
      if ridx > 0 {
        assert Path() == Indices(frames);
        PlugSet(frames, Null, obj);
        reply := SetAt(reply, Path(), obj);
      }
    }

    /** Pops every array that the finished item completes; the next item, if any, is of unknown type. */
    method MoveToNextTask(ghost v: Reply)
      requires Stack() && ridx >= 0
      modifies this`ridx, this`frames, this`rstack
      ensures Stack()
      ensures match Moved(old(frames), v)
              case Finished(_) => ridx == -1
              case Working(_, frames') => ridx >= 0 && frames == frames' && rstack[ridx].typ < 0
    {
      hide Moved, Open;
      ghost var w := v;
      while ridx >= 0
        invariant Stack() && ridx >= 0
        invariant Moved(frames, w) == Moved(old(frames), v)
        decreases ridx
      {
        MovedIs(frames, w);
        if ridx == 0 {
          ridx := ridx - 1;
          return;
        }
        var cur := rstack[ridx];
        var prv := rstack[ridx - 1];
        assert prv.typ == REDIS_REPLY_ARRAY;
        ghost var filled := Last(frames).filled + [w];
        OpenStays(frames, filled);
        if cur.idx == prv.elements - 1 {
          ridx := ridx - 1;
          w := Arr(filled);
          frames := Init(frames);
        } else {
          rstack := rstack[ridx := Task(-1, -1, cur.idx + 1)];
          frames := Init(frames) + [Frame(Last(frames).elements, filled)];
          return;
        }
      }
    }

    /** The common tail of the item processors: skip the item's `n` bytes, link it, move on. */
    method Complete(v: Reply, n: nat)
      requires Loaded() && ridx >= 0 && KindOfType(rstack[ridx].typ).Some? && n <= |Avail()|
      requires Reads(KindOfType(rstack[ridx].typ).value, ridx, Avail()[..n], v)
      modifies this`pos, this`ridx, this`reply, this`frames, this`rstack
      ensures Loaded() && pos == old(pos) + n
      ensures buf == old(buf) && Step(old(Progress()), buf[old(pos)..pos], Progress())
    {
      hide Step, Reads, Resume, DecodeItem, DecodeBody, DecodeItems, FindCRLF, ParseLongLong, Ascend, Plug, Open;
      assert Avail()[..n] == buf[pos..pos + n];
      ghost var p, q := Progress(), Moved(frames, v);
      LeafStep(KindOfType(rstack[ridx].typ).value, frames, Avail()[..n], v);
      PlugMoved(frames, v);
      LinkToParent(v);
      if ridx == 0 {
        reply := v;
      }
      pos := pos + n;
      MoveToNextTask(v);
      assert Step(p, buf[old(pos)..pos], q) && Progress() == q;
    }

    /** How an item processor that found progress `p` at position `start` of `data` returns. */
    ghost predicate Processed(ok: bool, p: Progress, data: seq<Byte>, start: nat)
      requires Legal(p) && start <= |data|
      reads this
    {
      if err.Some? then !ok && Cleared() && Fails(p, data[start..], err.value)
      else
        && Loaded() && buf == data && start <= pos && Step(p, data[start..pos], Progress())
        && (if ok then start < pos else ridx >= 0 && Resume(Progress(), data[pos..]) == More)
    }

    method ProcessLineItem() returns (ok: bool)
      requires Loaded() && ridx >= 0
      requires rstack[ridx].typ in {REDIS_REPLY_INTEGER, REDIS_REPLY_STATUS, REDIS_REPLY_ERROR}
      modifies this`err, this`buf, this`pos, this`ridx, this`reply, this`frames, this`rstack
      ensures Processed(ok, old(Progress()), old(buf), old(pos))
    {
      hide StackOk, Open, Step, Fails, Reads, Resume, DecodeBody, Plug, FindCRLF, ParseLongLong;
      ghost var p, avail := Progress(), Avail();
      ghost var k := KindOfType(rstack[ridx].typ).value;
      var cur := rstack[ridx];
      var end := SeekNewline(buf[pos..]);
      if end.Some? {
        var len := end.value;
        var text := buf[pos..pos + len];
        assert text == avail[..len];
        var obj: Reply;
        if cur.typ == REDIS_REPLY_INTEGER {
          var v := String2ll(text);
          if v.None? {
            BodyFails(k, frames, avail, BadInteger);
            SetError(BadInteger);
            return false;
          }
          obj := Int(v.value);
        } else {
          obj := if cur.typ == REDIS_REPLY_STATUS then Status(text) else Error(text);
        }
        LineReads(k, ridx, avail);
        Complete(obj, len + 2);
        return true;
      }
      BodyWaits(k, frames, avail);
      StepNothing(p);
      assert buf[pos..pos] == [];
      return false;
    }

    method ProcessBulkItem() returns (ok: bool)
      requires Loaded() && ridx >= 0 && rstack[ridx].typ == REDIS_REPLY_STRING
      modifies this`err, this`buf, this`pos, this`ridx, this`reply, this`frames, this`rstack
      ensures Processed(ok, old(Progress()), old(buf), old(pos))
    {
      hide StackOk, Open, Step, Fails, Reads, Resume, DecodeBody, Plug, FindCRLF, ParseLongLong;
      ghost var p, avail := Progress(), Avail();
      var end := SeekNewline(buf[pos..]);
      if end.Some? {
        var bytelen := end.value + 2;
        var text := buf[pos..pos + end.value];
        assert text == avail[..end.value];
        var len := String2ll(text);
        if len.None? {
          BodyFails(KString, frames, avail, BadBulkLength);
          SetError(BadBulkLength);
          return false;
        }
        if len.value < -1 {
          BodyFails(KString, frames, avail, BulkLengthOutOfRange);
          SetError(BulkLengthOutOfRange);
          return false;
        }
        var obj := Nil;
        var success := false;
        assert Announces(avail, end.value, len.value);
        if len.value == -1 {
          NilReads(ridx, avail, end.value);
          success := true;
        } else {
          bytelen := bytelen + (len.value + 2);
          if pos + bytelen <= |buf| {
            StrReads(ridx, avail, end.value, len.value);
            obj := Str(buf[pos + end.value + 2..pos + end.value + 2 + len.value]);
            assert avail[end.value + 2..end.value + 2 + len.value]
                == buf[pos + end.value + 2..pos + end.value + 2 + len.value];
            success := true;
          } else {
            ShortPayload(avail, end.value, len.value);
          }
        }
        if success {
          Complete(obj, bytelen);
          return true;
        }
      }
      BodyWaits(KString, frames, avail);
      StepNothing(p);
      assert buf[pos..pos] == [];
      return false;
    }

    method ProcessMultiBulkItem() returns (ok: bool)
      requires Loaded() && ridx >= 0 && rstack[ridx].typ == REDIS_REPLY_ARRAY
      modifies this`err, this`buf, this`pos, this`ridx, this`reply, this`frames, this`rstack
      ensures Processed(ok, old(Progress()), old(buf), old(pos))
    {
      hide StackOk, Open, Step, Fails, Reads, Resume, DecodeBody, Plug, FindCRLF, ParseLongLong;
      ghost var p, avail := Progress(), Avail();
      if ridx == 8 {
        BodyFails(KArray, frames, avail, NestingTooDeep);
        SetError(NestingTooDeep);
        return false;
      }
      var end := SeekNewline(buf[pos..]);
      if end.Some? {
        var len := end.value;
        var text := buf[pos..pos + len];
        assert text == avail[..len];
        var elements := String2ll(text);
        if elements.None? {
          BodyFails(KArray, frames, avail, BadMultiBulkLength);
          SetError(BadMultiBulkLength);
          return false;
        }
        if elements.value < -1 || elements.value > INT_MAX {
          BodyFails(KArray, frames, avail, MultiBulkLengthOutOfRange);
          SetError(MultiBulkLengthOutOfRange);
          return false;
        }
        if elements.value > 0 {
          CountReads(ridx, avail);
          OpenArray(elements.value, len + 2);
        } else {
          EmptyArrayReads(ridx, avail);
          Complete(if elements.value == -1 then Nil else Arr([]), len + 2);
        }
        return true;
      }
      BodyWaits(KArray, frames, avail);
      StepNothing(p);
      assert buf[pos..pos] == [];
      return false;
    }

    /** Creates a non-empty array object and pushes the task of its first element. */
    method OpenArray(elements: nat, n: nat)
      requires Loaded() && 0 <= ridx < 8 && rstack[ridx].typ == REDIS_REPLY_ARRAY && n <= |Avail()|
      requires 0 < elements <= INT_MAX
      requires forall s: seq<Byte> {:trigger DecodeCount(Avail()[..n] + s, ridx)} ::
                 DecodeCount(Avail()[..n] + s, ridx) == Done(Some(elements), s)
      modifies this`pos, this`ridx, this`reply, this`frames, this`rstack
      ensures Loaded() && pos == old(pos) + n
      ensures buf == old(buf) && Step(old(Progress()), buf[old(pos)..pos], Progress())
    {
      hide Step, Resume, Plug, DecodeCount, StackOk, Nulls, Reaches;
      assert Avail()[..n] == buf[pos..pos + n];
      ghost var f := Frame(elements, []);
      StackGrows(rstack, ridx, frames, elements);
      ArrayStep(elements, frames, Avail()[..n]);
      PlugOpened(frames, elements);
      var obj := Arr(Nulls(elements));
      var root := ridx == 0;
      LinkToParent(obj);
      pos := pos + n;
      rstack := rstack[ridx := rstack[ridx].(elements := elements)];
      ridx := ridx + 1;
      rstack := rstack[ridx := Task(-1, -1, 0)];
      frames := frames + [f];
      if root {
        reply := obj;
      }
    }

    /** Reads the type byte of the current item, if it has not been read yet. */
    method ReadType() returns (ok: bool)
      requires Loaded() && ridx >= 0
      modifies this`err, this`buf, this`pos, this`ridx, this`reply, this`rstack
      ensures Processed(false, old(Progress()), old(buf), old(pos)) || ok
      ensures ok ==> Loaded() && ridx >= 0 && KindOfType(rstack[ridx].typ).Some?
      ensures ok ==> buf == old(buf) && old(pos) <= pos && Step(old(Progress()), buf[old(pos)..pos], Progress())
    {
      hide Step, Fails, Reads, DecodeBody, Plug;
      ghost var p, avail := Progress(), Avail();
      if rstack[ridx].typ < 0 {
        if |buf| - pos >= 1 {
          var b := buf[pos];
          assert avail[0] == b;
          pos := pos + 1;
          var typ :=
            if b == Code('-') then REDIS_REPLY_ERROR
            else if b == Code('+') then REDIS_REPLY_STATUS
            else if b == Code(':') then REDIS_REPLY_INTEGER
            else if b == Code('$') then REDIS_REPLY_STRING
            else if b == Code('*') then REDIS_REPLY_ARRAY
            else -1;
          if typ == -1 {
            TypeFails(frames, avail);
            SetError(BadType(b));
            return false;
          }
          TypeStep(b, frames);
          assert buf[old(pos)..pos] == [b];
          rstack := rstack[ridx := rstack[ridx].(typ := typ)];
          return true;
        } else {
          StepNothing(p);
          assert buf[pos..pos] == [];
          return false;
        }
      }
      StepNothing(p);
      assert buf[pos..pos] == [];
      return true;
    }

    method ProcessItem() returns (ok: bool)
      requires Loaded() && ridx >= 0
      modifies this`err, this`buf, this`pos, this`ridx, this`reply, this`frames, this`rstack
      ensures Processed(ok, old(Progress()), old(buf), old(pos))
    {
      hide Step, Fails, Reads, Resume;
      ok := ReadType();
      if !ok {
        return;
      }
      ghost var q, mid := Progress(), pos;
      if rstack[ridx].typ == REDIS_REPLY_STRING {
        ok := ProcessBulkItem();
      } else if rstack[ridx].typ == REDIS_REPLY_ARRAY {
        ok := ProcessMultiBulkItem();
      } else {
        ok := ProcessLineItem();
      }
      ProcessedTrans(ok, old(Progress()), old(buf), old(pos), q, mid);
    }

    lemma ProcessedTrans(ok: bool, p: Progress, data: seq<Byte>, start: nat, q: Progress, mid: nat)
      requires Legal(p) && Legal(q) && start <= mid <= |data|
      requires Step(p, data[start..mid], q) && Processed(ok, q, data, mid)
      ensures Processed(ok, p, data, start)
    {
      hide StackOk, ProgressOf, Plug, Step, Fails, Resume;
      if err.Some? {
        StepThenFails(p, data[start..mid], q, data[mid..], err.value);
        assert data[start..] == data[start..mid] + data[mid..];
      } else {
        StepTrans(p, data[start..mid], q, data[mid..pos], Progress());
        assert data[start..pos] == data[start..mid] + data[mid..pos];
      }
    }

    /** `oversized` stands for `sdsavail(buf) > maxbuf`: an empty but large buffer is replaced. */
    method Feed(data: seq<Byte>, oversized: bool) returns (ok: bool)
      requires Valid()
      modifies this
      ensures Valid() && ok == old(err).None? && err == old(err) && emitted == old(emitted)
      ensures fed == old(fed) + data
    {
      hide StackOk, ProgressOf, Plug, Emits, Tracks, Poisoned, Resume;
      if err.Some? {
        PoisonGrows(item, data, err.value);
        assert fed + data == past + (item + data);
        fed, item := fed + data, item + data;
        return false;
      }
      if |data| >= 1 {
        if |buf| == 0 && oversized {
          buf := [];
          pos := 0;
        }
        ghost var avail := Avail();
        buf := buf + data;
        assert Avail() == avail + data;
        assert past + item + avail + data == past + item + (avail + data);
      }
      fed := fed + data;
      return true;
    }

    /** Reads at most one reply.  Not finding a whole one is a success without a reply. */
    method GetReply() returns (ok: bool, out: Option<Reply>)
      requires Valid()
      modifies this
      ensures Valid() && fed == old(fed) && ok == err.None?
      ensures |Avail()| <= |old(Avail())| && (out.Some? ==> |Avail()| < |old(Avail())|)
      ensures out.Some? ==> ok && emitted == old(emitted) + [out.value]
      ensures out.None? ==> emitted == old(emitted)
      ensures out.None? && ok ==> DecodeStream(fed) == Stream(emitted, Pending)
    {
      hide Open, DecodeStream, DecodeItem, StackOk, ProgressOf, Plug, Emits, Tracks, Poisoned, Resume;
      if err.Some? {
        return false, None;
      }
      if |buf| == 0 {
        NothingToRead();
        return true, None;
      }
      out := ReadReply();
      return err.None?, out;
    }

    /** The rest of `redisReaderGetReply`, for a non-empty buffer. */
    method ReadReply() returns (out: Option<Reply>)
      requires Valid() && err.None? && |buf| > 0
      modifies this
      ensures Valid() && fed == old(fed)
      ensures |Avail()| <= |old(Avail())| && (out.Some? ==> |Avail()| < |old(Avail())|)
      ensures out.Some? ==> err.None? && emitted == old(emitted) + [out.value]
      ensures out.None? ==> emitted == old(emitted)
      ensures out.None? && err.None? ==> DecodeStream(fed) == Stream(emitted, Pending)
    {
      hide *;
      Begin();
      ghost var rest := item + Avail();
      var more := ProcessItems();
      assert past + rest == past + item + Avail();
      if err.Some? {
        Refused();
        return None;
      }
      LoadedNow();
      out := HandOut();
    }

    /** The end of `redisReaderGetReply`: discards what was read, and hands out the reply if it is complete. */
    method HandOut() returns (out: Option<Reply>)
      requires Loaded() && fed == past + item + Avail() && Emits(past, emitted) && Tracks(item, Progress())
      requires ridx >= 0 ==> Resume(Progress(), Avail()) == More
      modifies this`buf, this`pos, this`reply, this`emitted, this`past, this`item
      ensures Valid() && err.None? && Avail() == old(Avail())
      ensures out.Some? <==> ridx < 0
      ensures emitted == if out.Some? then old(emitted) + [out.value] else old(emitted)
      ensures out.None? ==> DecodeStream(fed) == Stream(emitted, Pending)
    {
      hide DecodeStream, DecodeItem, StackOk, ProgressOf, Plug, Emits, Tracks, Poisoned, Resume, Open;
      Discard();
      StackRange();
      if ridx == -1 {
        out := Emit();
        return;
      }
      StreamPending(past, emitted, item, Progress(), Avail());
      return None;
    }

    lemma Refused()
      requires Tracking() && err.Some? && fed == past + (item + Avail()) && Emits(past, emitted)
      ensures Valid() && Avail() == []
    {
      hide Emits, Poisoned, StackOk;
      assert past + (item + Avail()) == past + item + Avail();
    }

    lemma LoadedNow()
      requires Tracking() && err.None?
      ensures Loaded() && Tracks(item, Progress())
    {
      hide Tracks, StackOk, ProgressOf, Plug;
    }

    lemma StackRange()
      requires Stack()
      ensures -1 <= ridx <= 8
    {}

    /** Goes on with the reply being read, or starts on a new one. */
    method Begin()
      requires Valid() && err.None? && |buf| > 0
      modifies this`rstack, this`ridx, this`frames
      ensures Tracking() && ridx >= 0 && fed == past + (item + Avail()) && Emits(past, emitted) && err.None?
      ensures Avail() == old(Avail())
    {
      hide Open, DecodeStream, DecodeItem, StackOk, ProgressOf, Plug, Emits, Tracks, Poisoned, Resume;
      assert past + item + Avail() == past + (item + Avail());
      if ridx == -1 {
        PushRoot();
      }
    }

    /** Starts on a new reply. */
    method PushRoot()
      requires Stack() && ridx == -1 && reply == Null && err.None?
      modifies this`rstack, this`ridx, this`frames
      ensures Loaded() && ridx == 0 && Progress() == Working(None, [])
    {
      rstack := rstack[0 := Task(-1, -1, -1)];
      ridx := 0;
      frames := [];
    }

    /** Drops the consumed part of the buffer once it is large. */
    method Discard()
      requires Loaded()
      modifies this`buf, this`pos
      ensures Loaded() && Avail() == old(Avail()) && (|buf| == 0 ==> pos == 0)
      ensures Progress() == old(Progress())
    {
      if pos >= DISCARD {
        buf := buf[pos..];
        pos := 0;
      }
    }

    /** Hands out the finished reply object. */
    method Emit() returns (out: Option<Reply>)
      requires Loaded() && ridx == -1 && (|buf| == 0 ==> pos == 0)
      requires fed == past + item + Avail() && Emits(past, emitted) && Tracks(item, Progress())
      modifies this`reply, this`emitted, this`past, this`item
      ensures Valid() && out == Some(old(reply)) && emitted == old(emitted) + [old(reply)]
    {
      hide Emits, Tracks, Poisoned, Resume;
      EmitsOne(past, emitted, item, reply);
      out := Some(reply);
      emitted := emitted + [reply];
      past, item := past + item, [];
      reply := Null;
      TracksNothing();
      assert past + item == past;
    }

    /** What is true before and after every item of the loop below. */
    ghost predicate Tracking()
      reads this
    {
      if err.Some? then Cleared() && Poisoned(item, err.value) else Loaded() && Tracks(item, Progress())
    }

    /** Processes an item and notes the bytes it took. */
    method TrackItem() returns (more: bool)
      requires Tracking() && err.None? && ridx >= 0
      modifies this`err, this`buf, this`pos, this`ridx, this`reply, this`frames, this`item, this`rstack
      ensures Tracking() && item + Avail() == old(item + Avail()) && (err.Some? ==> !more)
      ensures |Avail()| <= |old(Avail())| && (more ==> |Avail()| < |old(Avail())|)
      ensures err.None? && !more ==> ridx >= 0 && Resume(Progress(), Avail()) == More
    {
      hide StackOk, ProgressOf, Plug, Step, Fails, Tracks, Poisoned, Resume, Open, DecodeItem, DecodeBody, Ascend;
      ghost var p, avail := Progress(), Avail();
      more := ProcessItem();
      if err.Some? {
        Poison(item, p, avail, err.value);
        item := item + avail;
      } else {
        ghost var c := buf[old(pos)..pos];
        TracksStep(item, p, c, Progress());
        assert avail == c + Avail();
        item := item + c;
      }
    }

    /** The loop of `redisReaderGetReply`: items until the stack is empty or one cannot be read. */
    method ProcessItems() returns (more: bool)
      requires Tracking() && err.None? && ridx >= 0
      modifies this`err, this`buf, this`pos, this`ridx, this`reply, this`frames, this`item, this`rstack
      ensures Tracking() && item + Avail() == old(item + Avail()) && |Avail()| <= |old(Avail())|
      ensures err.None? && ridx < 0 ==> |Avail()| < |old(Avail())|
      ensures err.None? && ridx >= 0 ==> Resume(Progress(), Avail()) == More
    {
      hide StackOk, ProgressOf, Plug, Tracks, Poisoned, Resume;
      more := true;
      while ridx >= 0 && more
        invariant Tracking() && item + Avail() == old(item + Avail()) && |Avail()| <= |old(Avail())|
        invariant err.Some? ==> !more
        invariant err.None? && ridx < 0 ==> |Avail()| < |old(Avail())|
        invariant err.None? && !more ==> ridx >= 0 && Resume(Progress(), Avail()) == More
        decreases |Avail()|, more
      {
        more := TrackItem();
      }
    }
  }

  /** The client's inner loop: takes replies until none is left. */
  method Drain(r: RedisReader) returns (replies: seq<Reply>)
    requires r.Valid()
    modifies r
    ensures r.Valid() && r.fed == old(r.fed) && r.emitted == old(r.emitted) + replies
    ensures r.err.None? ==> DecodeStream(r.fed) == Stream(r.emitted, Pending)
  {
    hide *;
    replies := [];
    var ok, out := r.GetReply();
    while out.Some?
      invariant r.Valid() && r.fed == old(r.fed) && ok == r.err.None? && (out.Some? ==> ok)
      invariant r.emitted == old(r.emitted) + if out.Some? then replies + [out.value] else replies
      invariant out.None? && ok ==> DecodeStream(r.fed) == Stream(r.emitted, Pending)
      decreases |r.Avail()|, out.Some?
    {
      replies := replies + [out.value];
      ok, out := r.GetReply();
    }
  }

  /**
   The client's loop: feed a chunk, then take replies until none is left.  Whatever the chunks, and wherever an
   empty buffer is replaced, the outcome is that of decoding the whole stream at once.
   */
  method ParseStream(chunks: seq<seq<Byte>>, oversized: seq<bool>) returns (replies: seq<Reply>, end: End)
    requires |oversized| == |chunks|
    ensures Stream(replies, end) == DecodeStream(Flatten(chunks))
  {
    hide *;
    FlattenNone<Byte>();
    var r := new RedisReader();
    r.StreamSoFar();
    replies := [];
    var i := 0;
    assert chunks[..0] == [];
    while i < |chunks|
      invariant 0 <= i <= |chunks| && r.Valid() && fresh(r)
      invariant r.fed == Flatten(chunks[..i]) && replies == r.emitted
      invariant r.err.None? ==> DecodeStream(r.fed) == Stream(r.emitted, Pending)
    {
      var ok := r.Feed(chunks[i], oversized[i]);
      FlattenSnoc(chunks[..i], chunks[i]);
      assert chunks[..i] + [chunks[i]] == chunks[..i + 1];
      var more := Drain(r);
      replies := replies + more;
      i := i + 1;
    }
    assert chunks[..i] == chunks;
    r.StreamSoFar();
    end := if r.err.Some? then Failed(r.err.value) else Pending;
  }
}
