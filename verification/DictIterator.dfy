/**
 Iterating over the hash table of hiredis/dict.c while its entries are being deleted. The iterator holds pointers to
 nodes; it remembers the successor of the entry it hands out, because the entry may be freed before the next call.
 */
module DictIterators {
  import opened ByteStrings
  import opened Dicts

  /** The nodes of rows `i` and later, in order. */
  function After<K, V>(rows: seq<seq<Node<K, V>>>, i: nat): seq<Node<K, V>> {
    if i <= |rows| then Flatten(rows[i..]) else []
  }

  ghost predicate InPlace<K, V>(rows: seq<seq<Node<K, V>>>, index: int, entry: Node?<K, V>, nextEntry: Node?<K, V>,
                                rest: seq<Node<K, V>>) {
    && index >= -1
    && (entry == null ==> rest == [])
    && (entry != null ==> 0 <= index < |rows| && Suffix(rest, rows[index]) && nextEntry == NodeAt(rest, 0))
  }

  /** The rest of the row, then all later rows. */
  ghost function Ahead<K, V>(rows: seq<seq<Node<K, V>>>, index: int, rest: seq<Node<K, V>>): seq<Node<K, V>> {
    rest + After(rows, if index >= -1 then index + 1 else 0)
  }

  /** `dictIterator`. */
  class DictIterator<K(==, !new), V> {
    const ht: Dict<K, V>
    var index: int
    var entry: Node?<K, V>
    var nextEntry: Node?<K, V>
    ghost var rest: seq<Node<K, V>>      // what is left of the row of `entry`

    /** `nextEntry` is the first node, or NULL, of what is left of the row; `entry` may have been freed. */
    ghost predicate Valid()
      reads this, ht`rows
    {
      InPlace(ht.rows, index, entry, nextEntry, rest)
    }

    /** What is still to be returned. */
    ghost function Rest(): seq<Node<K, V>>
      reads this, ht`rows
    {
      Ahead(ht.rows, index, rest)
    }

    /** `entry` has not been freed, and the rest comes right behind it. */
    ghost predicate Standing()
      reads this, ht`rows, ht`live
    {
      entry != null && entry in ht.live && 0 <= index < |ht.rows| && Suffix([entry] + rest, ht.rows[index])
    }

    /** `dictGetIterator`. */
    constructor (ht: Dict<K, V>)
      ensures this.ht == ht && Valid() && Rest() == After(ht.rows, 0)
    {
      this.ht := ht;
      index := -1;
      entry, nextEntry := null, null;
      rest := [];
    }

    /** `dictNext`: remembers the successor before it hands an entry out. */
    method Next() returns (item: Node?<K, V>)
      requires ht.Valid() && Valid()
      modifies this
      ensures Valid() && (item == null <==> old(Rest()) == [])
      ensures item != null ==> item == entry == old(Rest())[0] && Rest() == old(Rest())[1..]
      ensures item != null ==> item in ht.live && Standing()
      ensures item == null ==> Rest() == []
    {
      hide *;
      ghost var all := Rest();
      ht.Sizes();
      while true
        invariant Valid() && Rest() == all
        decreases if index < ht.size then ht.size - index else 0, entry != null
      {
        ghost var todo;
        if entry == null {
          var done := NextRow();
          if done {
            return null;
          }
          todo := ht.rows[index];
        } else {
          EntryGone();
          todo := rest;
          entry := nextEntry;
        }
        NodeAtIs(todo, 0);
        if entry != null {
          HandOut(todo);
          return entry;
        }
        rest := [];
        RowDone();
      }
    }

    /** Moves on to the next bucket, if there is one. */
    method NextRow() returns (done: bool)
      requires ht.Valid() && Valid() && entry == null
      modifies this`index, this`entry
      ensures index == old(index) + 1 && (done <==> index >= ht.size) && |ht.rows| == ht.size
      ensures done ==> Valid() && entry == null && Rest() == old(Rest()) == []
      ensures !done ==> 0 <= index && entry == NodeAt(ht.rows[index], 0) && Suffix(ht.rows[index], ht.rows[index])
      ensures !done ==> old(Rest()) == ht.rows[index] + After(ht.rows, index + 1)
    {
      hide Dict.Valid, After, NodeAt;
      ht.Sizes();
      AfterStep(ht.rows, index + 1);
      AfterStep(ht.rows, index + 2);
      index := index + 1;
      if index >= ht.size {
        return true;
      }
      entry := ht.table[index];
      ht.RowHead(index);
      return false;
    }

    /** Takes the first node of `todo` as the entry to return, and remembers its successor. */
    method HandOut(ghost todo: seq<Node<K, V>>)
      requires ht.Valid() && 0 <= index < |ht.rows| && Suffix(todo, ht.rows[index]) && todo != [] && entry == todo[0]
      modifies this`nextEntry, this`rest
      ensures Valid() && Standing() && entry in ht.live
      ensures [entry] + Rest() == todo + After(ht.rows, index + 1)
    {
      hide Dict.Valid, After, Suffix, NodeAt;
      ht.NextInRow(index, todo);
      SuffixTail(todo, ht.rows[index]);
      nextEntry := ht.NextOf(entry);
      rest := todo[1..];
    }

    lemma EntryGone()
      requires Valid() && entry != null
      ensures 0 <= index < |ht.rows| && Suffix(rest, ht.rows[index]) && nextEntry == NodeAt(rest, 0)
      ensures Rest() == rest + After(ht.rows, index + 1)
    {
    }

    lemma RowDone()
      requires index >= 0 && entry == null && rest == []
      ensures Valid() && Rest() == [] + After(ht.rows, index + 1)
    {
    }
  }

  lemma AfterStep<K, V>(rows: seq<seq<Node<K, V>>>, i: nat)
    ensures After(rows, i) == if i < |rows| then rows[i] + After(rows, i + 1) else []
  {
    if i < |rows| {
      assert rows[i..][1..] == rows[i + 1..];
    }
  }

  lemma SuffixTail<K, V>(todo: seq<Node<K, V>>, row: seq<Node<K, V>>)
    requires Suffix(todo, row) && todo != []
    ensures Suffix(todo[1..], row) && [todo[0]] + todo[1..] == todo
  {
    assert row[|row| - |todo|..][1..] == row[|row| - |todo| + 1..];
  }

  // ---- deleting on the way ----

  lemma {:induction false} WithoutAppend<K, V>(a: seq<Node<K, V>>, b: seq<Node<K, V>>, key: K)
    requires Distinct(a + b)
    ensures Without(a + b, key) == Without(a, key) + Without(b, key)
  {
    if a == [] {
      assert a + b == b;
    } else {
      assert (a + b)[1..] == a[1..] + b && (a + b)[0] == a[0];
      assert Distinct(a[1..] + b);
      if a[0].key == key {
        forall i | 0 <= i < |b| ensures b[i].key != key {
          assert (a + b)[|a| + i] == b[i];
        }
        WithoutNone(b, key);
      } else {
        WithoutAppend(a[1..], b, key);
      }
    }
  }

  /** No two nodes from row `i` on have the same key, and all of them belong in these rows. */
  lemma {:induction false} AfterDistinct<K, V>(hash: K -> nat, rows: seq<seq<Node<K, V>>>, i: nat)
    requires Placed(hash, rows) && i <= |rows|
    ensures Distinct(After(rows, i))
    ensures forall j | 0 <= j < |After(rows, i)| :: Index(hash, After(rows, i)[j].key, |rows| - 1) >= i
    decreases |rows| - i
  {
    hide Index, After;
    AfterStep(rows, i);
    if i < |rows| {
      AfterDistinct(hash, rows, i + 1);
      assert Distinct(rows[i]) && Owned(hash, rows[i], |rows| - 1, i);
    }
  }

  /** Deleting a key takes its node out of what comes after any row. */
  lemma {:induction false} AfterSpliced<K, V>(hash: K -> nat, rows: seq<seq<Node<K, V>>>, key: K, i: nat)
    requires Placed(hash, rows) && i <= |rows|
    ensures |Spliced(hash, rows, key)| == |rows|
    ensures After(Spliced(hash, rows, key), i) == Without(After(rows, i), key)
    decreases |rows| - i
  {
    hide After, Index, Spliced, Without, Distinct, Owned;
    var rows' := Spliced(hash, rows, key);
    SplicedSize(hash, rows, key);
    AfterStep(rows, i);
    AfterStep(rows', i);
    if i < |rows| {
      AfterSpliced(hash, rows, key, i + 1);
      SplicedRow(hash, rows, key, i);
      AfterDistinct(hash, rows, i);
      WithoutAppend(rows[i], After(rows, i + 1), key);
    } else {
      WithoutEmpty<K, V>(key);
    }
  }

  lemma SplicedSize<K, V>(hash: K -> nat, rows: seq<seq<Node<K, V>>>, key: K)
    ensures |Spliced(hash, rows, key)| == |rows|
  {
  }

  lemma WithoutEmpty<K, V>(key: K)
    ensures Without<K, V>([], key) == []
  {
  }

  lemma SplicedRow<K, V>(hash: K -> nat, rows: seq<seq<Node<K, V>>>, key: K, i: nat)
    requires Placed(hash, rows) && i < |rows|
    ensures |Spliced(hash, rows, key)| == |rows| && Spliced(hash, rows, key)[i] == Without(rows[i], key)
  {
    hide Index;
    assert Owned(hash, rows[i], |rows| - 1, i);
    if Index(hash, key, |rows| - 1) != i {
      WithoutNone(rows[i], key);
    }
  }

  /** What is left of a row after a deletion is still its end. */
  lemma SuffixSpliced<K, V>(rest: seq<Node<K, V>>, row: seq<Node<K, V>>, key: K)
    requires Distinct(row) && Suffix(rest, row)
    ensures Suffix(Without(rest, key), Without(row, key))
  {
    var before := row[..|row| - |rest|];
    assert row == before + rest;
    WithoutAppend(before, rest, key);
  }

  lemma {:induction false} WithoutKey<K, V>(row: seq<Node<K, V>>, key: K)
    requires Distinct(row)
    ensures forall i | 0 <= i < |Without(row, key)| :: Without(row, key)[i].key != key && Without(row, key)[i] in row
  {
    if row != [] && row[0].key != key {
      WithoutKey(row[1..], key);
    }
  }

  lemma SuffixJoin<K, V>(rest: seq<Node<K, V>>, row: seq<Node<K, V>>, later: seq<Node<K, V>>)
    requires Suffix(rest, row) && Distinct(row + later)
    ensures Distinct(rest + later)
  {
    var k := |row| - |rest|;
    assert row[k..] == rest;
    assert forall i | 0 <= i < |rest + later| :: (rest + later)[i] == (row + later)[k + i];
  }

  lemma AheadDistinct<K, V>(hash: K -> nat, rows: seq<seq<Node<K, V>>>, index: int, entry: Node?<K, V>,
                            nextEntry: Node?<K, V>, rest: seq<Node<K, V>>)
    requires Placed(hash, rows) && InPlace(rows, index, entry, nextEntry, rest)
    ensures Distinct(Ahead(rows, index, rest))
  {
    hide Placed, After, Distinct, Suffix, Index;
    if entry == null {
      assert [] + After(rows, index + 1) == After(rows, index + 1);
      if index + 1 <= |rows| {
        AfterDistinct(hash, rows, index + 1);
      } else {
        AfterStep(rows, index + 1);
        NoneDistinct<K, V>();
      }
    } else {
      AfterDistinct(hash, rows, index);
      AfterStep(rows, index);
      SuffixJoin(rest, rows[index], After(rows, index + 1));
    }
  }

  lemma NoneDistinct<K, V>()
    ensures Distinct<K, V>([])
  {
  }

  /** What a deletion does to an iterator. */
  lemma InPlaceSpliced<K, V>(hash: K -> nat, rows: seq<seq<Node<K, V>>>, index: int, entry: Node?<K, V>,
                             nextEntry: Node?<K, V>, rest: seq<Node<K, V>>, key: K)
    requires Placed(hash, rows) && InPlace(rows, index, entry, nextEntry, rest)
    ensures InPlace(Spliced(hash, rows, key), index, entry, nextEntry, Without(rest, key))
            <==> !(entry != null && nextEntry != null && nextEntry.key == key)
  {
    hide Placed, After, Distinct, Suffix, Index, Spliced, Without, NodeAt;
    if entry == null {
      WithoutEmpty<K, V>(key);
    } else {
      SplicedRow(hash, rows, key, index);
      RowDistinct(hash, rows, index);
      SuffixSpliced(rest, rows[index], key);
      WithoutHead(rest, key);
      RestDistinct(rest, rows[index]);
      WithoutKey(rest, key);
      NodeAtIs(rest, 0);
      NodeAtIs(Without(rest, key), 0);
    }
  }

  lemma RowDistinct<K, V>(hash: K -> nat, rows: seq<seq<Node<K, V>>>, i: nat)
    requires Placed(hash, rows) && i < |rows|
    ensures Distinct(rows[i])
  {
    assert Distinct(rows[i]) && Owned(hash, rows[i], |rows| - 1, i);
  }

  lemma RestDistinct<K, V>(rest: seq<Node<K, V>>, row: seq<Node<K, V>>)
    requires Suffix(rest, row) && Distinct(row)
    ensures Distinct(rest)
  {
    assert row + [] == row && rest + [] == rest;
    SuffixJoin(rest, row, []);
  }

  lemma WithoutHead<K, V>(row: seq<Node<K, V>>, key: K)
    ensures row != [] && row[0].key != key ==> Without(row, key) != [] && Without(row, key)[0] == row[0]
    ensures row == [] ==> Without(row, key) == []
  {
  }

  lemma AheadSpliced<K, V>(hash: K -> nat, rows: seq<seq<Node<K, V>>>, index: int, entry: Node?<K, V>,
                           nextEntry: Node?<K, V>, rest: seq<Node<K, V>>, key: K)
    requires Placed(hash, rows) && InPlace(rows, index, entry, nextEntry, rest)
    ensures Ahead(Spliced(hash, rows, key), index, Without(rest, key)) == Without(Ahead(rows, index, rest), key)
  {
    hide Placed, After, Distinct, Suffix, Index, Spliced, Without, NodeAt;
    AheadDistinct(hash, rows, index, entry, nextEntry, rest);
    WithoutAppend(rest, After(rows, index + 1), key);
    if index + 1 <= |rows| {
      AfterSpliced(hash, rows, key, index + 1);
    } else {
      SplicedSize(hash, rows, key);
      AfterStep(rows, index + 1);
      AfterStep(Spliced(hash, rows, key), index + 1);
      WithoutEmpty<K, V>(key);
    }
  }

  /**
   A caller may delete any key between two calls of `dictNext`, and the iterator goes on with exactly the entries
   that are left, if and only if the key is not that of the remembered successor.
   */
  method DeleteDuring<K(==, !new), V>(it: DictIterator<K, V>, key: K)
    requires it.ht.Valid() && it.Valid()
    modifies it.ht`used, it.ht`rows, it.ht`nodes, it.ht`live, it.ht`links, it.ht`contents, it.ht.table, it.ht.live, it`rest
    ensures it.ht.Valid() && it.ht.contents == Drop(old(it.ht.contents), key) && it.ht.live <= old(it.ht.live)
    ensures it.Valid() <==> !(it.entry != null && it.nextEntry != null && it.nextEntry.key == key)
    ensures it.Valid() ==> it.Rest() == Without(old(it.Rest()), key)
  {
    hide Placed, Spliced, Without, InPlace, Ahead, Dict.Valid, Index, Drop;
    it.ht.RowsPlaced();
    InPlaceSpliced(it.ht.hash, it.ht.rows, it.index, it.entry, it.nextEntry, it.rest, key);
    AheadSpliced(it.ht.hash, it.ht.rows, it.index, it.entry, it.nextEntry, it.rest, key);
    var ok := it.ht.Delete(key);
    it.rest := Without(it.rest, key);
  }

  /** Deleting the entry just returned does not disturb the iteration. */
  method DeleteReturned<K(==, !new), V>(it: DictIterator<K, V>)
    requires it.ht.Valid() && it.Valid() && it.Standing()
    modifies it.ht`used, it.ht`rows, it.ht`nodes, it.ht`live, it.ht`links, it.ht`contents, it.ht.table, it.ht.live, it`rest
    ensures it.ht.Valid() && it.ht.contents == Drop(old(it.ht.contents), old(it.entry).key)
    ensures it.ht.live <= old(it.ht.live)
    ensures it.Valid() && it.Rest() == old(it.Rest())
  {
    hide Placed, Without, InPlace, Ahead, Dict.Valid, Index, Drop, Suffix;
    it.ht.RowsPlaced();
    AheadNot(it.ht.hash, it.ht.rows, it.index, it.entry, it.nextEntry, it.rest);
    DeleteDuring(it, it.ht.KeyOf(it.entry));
  }

  lemma HeadApart<K, V>(head: Node<K, V>, tail: seq<Node<K, V>>)
    requires Distinct([head] + tail)
    ensures forall i | 0 <= i < |tail| :: tail[i].key != head.key
  {
    var all := [head] + tail;
    assert all[0] == head && forall i | 0 <= i < |tail| :: all[i + 1] == tail[i];
  }

  /** The key of an entry that still stands is not ahead. */
  lemma AheadNot<K, V>(hash: K -> nat, rows: seq<seq<Node<K, V>>>, index: int, entry: Node?<K, V>,
                       nextEntry: Node?<K, V>, rest: seq<Node<K, V>>)
    requires Placed(hash, rows) && InPlace(rows, index, entry, nextEntry, rest)
    requires entry != null && 0 <= index < |rows| && Suffix([entry] + rest, rows[index])
    ensures Without(Ahead(rows, index, rest), entry.key) == Ahead(rows, index, rest)
    ensures nextEntry == null || nextEntry.key != entry.key
  {
    hide Placed, After, Suffix, Index, Without;
    var more := [entry] + rest;
    AheadDistinct(hash, rows, index, entry, NodeAt(more, 0), more);
    var all := Ahead(rows, index, rest);
    assert Ahead(rows, index, more) == [entry] + all;
    HeadApart(entry, all);
    WithoutNone(all, entry.key);
    NodeAtIs(rest, 0);
    assert rest != [] ==> all[0] == rest[0];
  }

  lemma {:induction false} AfterHas<K, V>(rows: seq<seq<Node<K, V>>>, i: nat, b: nat, n: Node<K, V>)
    requires i <= b < |rows| && n in rows[b]
    ensures n in After(rows, i)
    decreases b - i
  {
    hide After;
    AfterStep(rows, i);
    if i < b {
      AfterHas(rows, i + 1, b, n);
    }
  }

  lemma {:induction false} AfterInMap<K, V>(rows: seq<seq<Node<K, V>>>, i: nat, nodes: map<K, Node<K, V>>)
    requires i <= |rows| && forall b | 0 <= b < |rows| :: InMap(rows[b], nodes)
    ensures InMap(After(rows, i), nodes)
    decreases |rows| - i
  {
    hide After;
    AfterStep(rows, i);
    if i < |rows| {
      AfterInMap(rows, i + 1, nodes);
      assert InMap(rows[i], nodes);
    }
  }

  /** Every entry comes in the listing of the table, once. */
  lemma ListsAll<K(!new), V>(d: Dict<K, V>)
    requires d.Valid()
    ensures Distinct(After(d.rows, 0))
    ensures forall k | k in d.contents :: HasKey(After(d.rows, 0), k)
  {
    hide After, Index, Total, AllLinked, Dict.Tied, GoodSize;
    AfterDistinct(d.hash, d.rows, 0);
    forall k | k in d.contents ensures HasKey(After(d.rows, 0), k) {
      assert k in d.nodes.Keys;
      var n := d.nodes[k];
      assert InRow(d.hash, d.rows, k, n);
      AfterHas(d.rows, 0, Index(d.hash, k, |d.rows| - 1), n);
    }
  }

  /**
   A full iteration, deleting each entry the caller wants gone as soon as it has been returned: every entry is
   visited exactly once.
   */
  method VisitAll<K(==, !new), V>(d: Dict<K, V>, doomed: K -> bool) returns (visited: seq<(K, V)>)
    requires d.Valid()
    modifies d`used, d`rows, d`nodes, d`live, d`links, d`contents, d.table, d.live
    ensures d.Valid()
    ensures forall i, j | 0 <= i < j < |visited| :: visited[i].0 != visited[j].0
    ensures forall i | 0 <= i < |visited| ::
              visited[i].0 in old(d.contents) && visited[i].1 == old(d.contents)[visited[i].0]
    ensures forall k | k in old(d.contents) :: exists i :: 0 <= i < |visited| && visited[i].0 == k
    ensures forall k :: k in d.contents <==> k in old(d.contents) && !doomed(k)
    ensures forall k | k in d.contents :: d.contents[k] == old(d.contents)[k]
  {
    hide Dict.Valid, DictIterator.Valid, DictIterator.Rest, DictIterator.Standing, Visits, Kept, Distinct, HasKey, After;
    visited := [];
    var it := new DictIterator(d);
    ListsAll(d);
    ghost var all, seen: seq<Node<K, V>> := it.Rest(), [];
    VisitStart(doomed, d.contents);
    HeadTail(all);
    var item := it.Next();
    while item != null
      invariant it.ht == d && fresh(it) && d.Valid() && it.Valid() && Visits(visited, seen, old(d.contents))
      invariant Kept(seen, doomed, old(d.contents), d.contents)
      invariant item != null ==> it.Standing() && item == it.entry && item in d.live
      invariant d.live <= old(d.live)
      invariant if item != null then all == seen + ([item] + it.Rest()) else all == seen
      decreases if item != null then 1 + |it.Rest()| else 0
    {
      var key, val := d.KeyOf(item), d.ValOf(item);
      d.LiveValue(item);
      SeenApart(seen, item, it.Rest());
      VisitStep(visited, seen, doomed, old(d.contents), d.contents, item, val);
      visited := visited + [(key, val)];
      seen := seen + [item];
      if doomed(key) {
        DeleteReturned(it);
      }
      HeadTail(it.Rest());
      item := it.Next();
    }
    VisitEnd(visited, seen, doomed, old(d.contents), d.contents);
  }

  ghost predicate Visits<K, V>(visited: seq<(K, V)>, seen: seq<Node<K, V>>, contents: map<K, V>) {
    && |visited| == |seen|
    && forall i | 0 <= i < |seen| ::
         visited[i].0 == seen[i].key && visited[i].0 in contents && visited[i].1 == contents[visited[i].0]
  }

  /** `now` is what is left of `before` once the doomed keys of the nodes seen are gone. */
  ghost predicate Kept<K(!new), V>(seen: seq<Node<K, V>>, doomed: K -> bool, before: map<K, V>, now: map<K, V>) {
    && (forall k :: k in now <==> k in before && !(doomed(k) && HasKey(seen, k)))
    && (forall k | k in now :: now[k] == before[k])
  }

  lemma VisitStart<K(!new), V>(doomed: K -> bool, contents: map<K, V>)
    ensures Visits<K, V>([], [], contents) && Kept([], doomed, contents, contents)
  {
  }

  lemma HeadTail<K, V>(rest: seq<Node<K, V>>)
    ensures rest != [] ==> rest == [rest[0]] + rest[1..]
    ensures [] + rest == rest
  {
  }

  lemma SeenApart<K, V>(seen: seq<Node<K, V>>, n: Node<K, V>, rest: seq<Node<K, V>>)
    ensures seen + ([n] + rest) == seen + [n] + rest
  {
  }

  lemma VisitStep<K(!new), V>(visited: seq<(K, V)>, seen: seq<Node<K, V>>, doomed: K -> bool, before: map<K, V>,
                              now: map<K, V>, n: Node<K, V>, val: V)
    requires Visits(visited, seen, before) && Kept(seen, doomed, before, now)
    requires n.key in now && now[n.key] == val
    ensures Visits(visited + [(n.key, val)], seen + [n], before)
    ensures Kept(seen + [n], doomed, before, if doomed(n.key) then Drop(now, n.key) else now)
  {
    var more := seen + [n];
    forall k ensures HasKey(more, k) <==> HasKey(seen, k) || k == n.key {
      if HasKey(seen, k) {
        var i :| 0 <= i < |seen| && seen[i].key == k;
        assert more[i].key == k;
      }
      assert more[|seen|] == n;
    }
  }

  lemma VisitEnd<K(!new), V>(visited: seq<(K, V)>, seen: seq<Node<K, V>>, doomed: K -> bool, before: map<K, V>,
                             now: map<K, V>)
    requires Visits(visited, seen, before) && Kept(seen, doomed, before, now)
    requires Distinct(seen) && forall k | k in before :: HasKey(seen, k)
    ensures forall i, j | 0 <= i < j < |visited| :: visited[i].0 != visited[j].0
    ensures forall i | 0 <= i < |visited| :: visited[i].0 in before && visited[i].1 == before[visited[i].0]
    ensures forall k | k in before :: exists i :: 0 <= i < |visited| && visited[i].0 == k
    ensures forall k :: k in now <==> k in before && !doomed(k)
    ensures forall k | k in now :: now[k] == before[k]
  {
    forall k | k in before ensures exists i :: 0 <= i < |visited| && visited[i].0 == k {
      var i :| 0 <= i < |seen| && seen[i].key == k;
      assert visited[i].0 == k;
    }
  }
}
