/**
 The chained hash table of hiredis/dict.c, which grows by relinking every entry into a table twice as large, and
 its iterator. Entries are nodes on the heap, relinked and spliced in place; a freed node keeps no promise about
 its fields, and nothing outside the live nodes may be read.
 */
module Dicts {
  import opened Arith
  import opened ByteStrings

  const DICT_HT_INITIAL_SIZE: nat := 4
  const LONG_MAX: nat := 0x7FFF_FFFF_FFFF_FFFF

  // ---- bit masks ----

  /** `a & b`. */
  function And(a: nat, b: nat): (r: nat)
    ensures r <= b
  {
    if a == 0 || b == 0 then 0
    else 2 * And(a / 2, b / 2) + (if a % 2 == 1 && b % 2 == 1 then 1 else 0)
  }

  predicate IsPowerOfTwo(n: nat) {
    n == 1 || (n > 1 && n % 2 == 0 && IsPowerOfTwo(n / 2))
  }

  /** Masking with a power of two less one is the remainder: hence table sizes are powers of two. */
  lemma {:induction false} MaskIsRemainder(h: nat, n: nat)
    requires n > 0 && IsPowerOfTwo(n)
    ensures And(h, n - 1) == h % n
  {
    hide And;
    if n == 1 {
      MaskOne(h);
    } else {
      var m := n / 2;
      assert n == 2 * m;
      MaskIsRemainder(h / 2, m);
      MaskStep(h, m);
      DoubleRemainder(h, m);
    }
  }

  lemma MaskOne(h: nat)
    ensures And(h, 0) == 0 == h % 1
  {}

  lemma MaskStep(h: nat, m: nat)
    requires m > 0
    ensures And(h, 2 * m - 1) == 2 * And(h / 2, m - 1) + h % 2
  {
    assert (2 * m - 1) / 2 == m - 1 && (2 * m - 1) % 2 == 1;
  }

  lemma DoubleRemainder(h: nat, m: nat)
    requires m > 0
    ensures h % (2 * m) == 2 * ((h / 2) % m) + h % 2
  {
    var q, r := (h / 2) / m, (h / 2) % m;
    assert h / 2 == q * m + r;
    assert h == 2 * (q * m) + (2 * r + h % 2);
    assert 2 * (q * m) == q * (2 * m);
    RemainderUnique(h, q, 2 * r + h % 2, 2 * m);
  }

  // ---- nodes and rows of nodes ----

  /** `dictEntry`. */
  class Node<K, V> {
    const key: K
    var val: V
    var next: Node?<K, V>

    constructor (key: K, val: V, next: Node?<K, V>)
      ensures this.key == key && this.val == val && this.next == next
    {
      this.key, this.val, this.next := key, val, next;
    }
  }

  /** `free` of a node: what its fields hold afterwards is anybody's guess. */
  method Free<K, V>(n: Node<K, V>)
    modifies n
  {
    n.next := *;
  }

  function NodeAt<K, V>(row: seq<Node<K, V>>, i: nat): Node?<K, V> {
    if i < |row| then row[i] else null
  }

  /** The `next` fields of a set of nodes, as a value. */
  type Links<K, V> = map<Node<K, V>, Node?<K, V>>

  /** `head` starts a NULL-terminated list of exactly the nodes of `row`. */
  ghost predicate Linked<K, V>(links: Links<K, V>, head: Node?<K, V>, row: seq<Node<K, V>>) {
    head == NodeAt(row, 0) && forall i | 0 <= i < |row| :: LinkAt(links, row, i)
  }

  /** Node `i` of the row points to its successor. */
  ghost predicate LinkAt<K, V>(links: Links<K, V>, row: seq<Node<K, V>>, i: nat)
    requires i < |row|
  {
    row[i] in links && links[row[i]] == NodeAt(row, i + 1)
  }

  lemma AllLinkedAt<K, V>(links: Links<K, V>, heads: seq<Node?<K, V>>, rows: seq<seq<Node<K, V>>>, b: nat)
    requires AllLinked(links, heads, rows) && b < |rows|
    ensures |heads| == |rows| && Linked(links, heads[b], rows[b])
  {
  }

  predicate Suffix<K, V>(rest: seq<Node<K, V>>, row: seq<Node<K, V>>) {
    |rest| <= |row| && row[|row| - |rest|..] == rest
  }

  /** A list depends on the links of its own nodes only. */
  lemma LinkedFrame<K, V>(links: Links<K, V>, links': Links<K, V>, head: Node?<K, V>, row: seq<Node<K, V>>)
    requires Linked(links, head, row)
    requires forall x | x in row && x in links :: x in links' && links'[x] == links[x]
    ensures Linked(links', head, row)
  {
    forall i | 0 <= i < |row| ensures LinkAt(links', row, i) {
      assert LinkAt(links, row, i);
    }
  }

  ghost predicate AllLinked<K, V>(links: Links<K, V>, heads: seq<Node?<K, V>>, rows: seq<seq<Node<K, V>>>) {
    |heads| == |rows| && forall b | 0 <= b < |rows| :: Linked(links, heads[b], rows[b])
  }

  ghost predicate Distinct<K, V>(row: seq<Node<K, V>>) {
    forall i, j | 0 <= i < j < |row| :: row[i].key != row[j].key
  }

  /** Every key of the row belongs in bucket `b`. */
  ghost predicate Owned<K, V>(hash: K -> nat, row: seq<Node<K, V>>, mask: nat, b: int) {
    forall i | 0 <= i < |row| :: Index(hash, row[i].key, mask) == b
  }

  /** The bucket of `k`. */
  function Index<K>(hash: K -> nat, k: K, mask: nat): (i: nat)
    ensures i <= mask
  {
    And(hash(k), mask)
  }

  /** Every key sits in its own bucket, once. */
  ghost predicate Placed<K, V>(hash: K -> nat, rows: seq<seq<Node<K, V>>>) {
    forall b | 0 <= b < |rows| :: Distinct(rows[b]) && Owned(hash, rows[b], |rows| - 1, b)
  }

  ghost predicate InMap<K, V>(row: seq<Node<K, V>>, nodes: map<K, Node<K, V>>) {
    forall i | 0 <= i < |row| :: row[i].key in nodes && nodes[row[i].key] == row[i]
  }

  ghost predicate NoneIn<K, V>(row: seq<Node<K, V>>, nodes: map<K, Node<K, V>>) {
    forall i | 0 <= i < |row| :: row[i].key !in nodes
  }

  ghost predicate HasKey<K, V>(row: seq<Node<K, V>>, k: K) {
    exists i :: 0 <= i < |row| && row[i].key == k
  }

  /** No key in common. */
  ghost predicate Apart<K, V>(row: seq<Node<K, V>>, other: seq<Node<K, V>>) {
    forall i | 0 <= i < |row| :: !HasKey(other, row[i].key)
  }

  ghost predicate InRow<K, V>(hash: K -> nat, rows: seq<seq<Node<K, V>>>, k: K, n: Node<K, V>) {
    n.key == k && rows != [] && n in rows[Index(hash, k, |rows| - 1)]
  }

  /** The rows consist of exactly the nodes of the map. */
  ghost predicate Holds<K, V>(hash: K -> nat, rows: seq<seq<Node<K, V>>>, nodes: map<K, Node<K, V>>) {
    && (forall k | k in nodes :: InRow(hash, rows, k, nodes[k]))
    && (forall b | 0 <= b < |rows| :: InMap(rows[b], nodes))
  }

  function Total<K, V>(rows: seq<seq<Node<K, V>>>): nat {
    if rows == [] then 0 else |rows[0]| + Total(rows[1..])
  }

  lemma {:induction false} TotalUpdate<K, V>(rows: seq<seq<Node<K, V>>>, b: nat, row: seq<Node<K, V>>)
    requires b < |rows|
    ensures Total(rows[b := row]) == Total(rows) - |rows[b]| + |row|
  {
    if b == 0 {
      assert rows[b := row][1..] == rows[1..];
    } else {
      assert rows[b := row][1..] == rows[1..][b - 1 := row];
      TotalUpdate(rows[1..], b - 1, row);
    }
  }

  /** The nodes of rows `i` and later. */
  function TotalFrom<K, V>(rows: seq<seq<Node<K, V>>>, i: nat): nat {
    if i <= |rows| then Total(rows[i..]) else 0
  }

  lemma TotalSplit<K, V>(rows: seq<seq<Node<K, V>>>, i: nat)
    requires i < |rows|
    ensures TotalFrom(rows, i) == |rows[i]| + TotalFrom(rows, i + 1)
  {
    assert rows[i..][1..] == rows[i + 1..];
  }

  lemma {:induction false} TotalZero<K, V>(rows: seq<seq<Node<K, V>>>)
    ensures Total(rows) == 0 <==> forall b | 0 <= b < |rows| :: rows[b] == []
  {
    if rows != [] {
      TotalZero(rows[1..]);
      assert forall b | 0 < b < |rows| :: rows[b] == rows[1..][b - 1];
    }
  }

  lemma RestEmpty<K, V>(rows: seq<seq<Node<K, V>>>, i: nat)
    requires i <= |rows| && (i < |rows| ==> TotalFrom(rows, i) == 0)
    ensures TotalFrom(rows, i) == 0 && forall b | i <= b < |rows| :: rows[b] == []
  {
    if i < |rows| {
      TotalZero(rows[i..]);
      assert forall b | i <= b < |rows| :: rows[b] == rows[i..][b - i];
    }
  }

  lemma EmptyRows<K, V>(hash: K -> nat, rows: seq<seq<Node<K, V>>>)
    requires forall b | 0 <= b < |rows| :: rows[b] == []
    ensures Placed(hash, rows) && Holds(hash, rows, map[]) && Total(rows) == 0
  {
    TotalZero(rows);
  }

  lemma RowsApart<K, V>(hash: K -> nat, rows: seq<seq<Node<K, V>>>, nodes: map<K, Node<K, V>>, b: nat)
    requires Placed(hash, rows) && Holds(hash, rows, nodes) && b < |rows|
    ensures Distinct(rows[b]) && InMap(rows[b], nodes)
    ensures forall c | 0 <= c < |rows| && c != b :: Apart(rows[c], rows[b])
  {
    hide Index;
    assert Owned(hash, rows[b], |rows| - 1, b);
    forall c | 0 <= c < |rows| && c != b ensures Apart(rows[c], rows[b]) {
      assert Owned(hash, rows[c], |rows| - 1, c);
    }
  }

  /** The rows before `i` are in `moved`; the others are not, and still linked. */
  ghost predicate Moving<K, V>(links: Links<K, V>, heads: seq<Node?<K, V>>, rows: seq<seq<Node<K, V>>>,
                               nodes: map<K, Node<K, V>>, i: nat, moved: map<K, Node<K, V>>) {
    && i <= |rows| == |heads|
    && (forall b | i <= b < |rows| :: Linked(links, heads[b], rows[b]) && NoneIn(rows[b], moved))
    && (forall b | 0 <= b < i :: InMap(rows[b], moved))
    && (forall k | k in moved :: k in nodes && moved[k] == nodes[k])
  }

  lemma MovingAt<K, V>(links: Links<K, V>, heads: seq<Node?<K, V>>, rows: seq<seq<Node<K, V>>>,
                       nodes: map<K, Node<K, V>>, i: nat, moved: map<K, Node<K, V>>)
    requires Moving(links, heads, rows, nodes, i, moved) && i < |rows|
    ensures |heads| == |rows| && Linked(links, heads[i], rows[i]) && NoneIn(rows[i], moved)
  {
  }

  /** Row `i` has gone from `moved` to `moved'`, and only the links of its nodes were written. */
  lemma MovingStep<K, V>(hash: K -> nat, links: Links<K, V>, links': Links<K, V>, heads: seq<Node?<K, V>>,
                         rows: seq<seq<Node<K, V>>>, nodes: map<K, Node<K, V>>, i: nat,
                         moved: map<K, Node<K, V>>, moved': map<K, Node<K, V>>)
    requires Placed(hash, rows) && Holds(hash, rows, nodes) && Moving(links, heads, rows, nodes, i, moved) && i < |rows|
    requires Midway(rows[i], |rows[i]|, moved, moved', links, links')
    ensures Moving(links', heads, rows, nodes, i + 1, moved')
  {
    hide Index, Placed, Holds;
    RowsApart(hash, rows, nodes, i);
    hide Distinct;
    forall b | i < b < |rows| ensures Linked(links', heads[b], rows[b]) && NoneIn(rows[b], moved') {
      assert Apart(rows[b], rows[i]) && Linked(links, heads[b], rows[b]) && NoneIn(rows[b], moved);
      LinkedFrame(links, links', heads[b], rows[b]);
    }
  }

  /** The first `j` nodes of `row` have been added to `moved`. */
  ghost predicate Passed<K, V>(row: seq<Node<K, V>>, j: nat, moved: map<K, Node<K, V>>, moved': map<K, Node<K, V>>) {
    && j <= |row|
    && (forall k | k in moved :: k in moved' && moved'[k] == moved[k])
    && (forall i | 0 <= i < j :: row[i].key in moved' && moved'[row[i].key] == row[i])
    && (forall i | j <= i < |row| :: row[i].key !in moved')
    && (forall k | k in moved' :: k in moved || HasKey(row, k))
  }

  /** Half-way through a row: `j` nodes have been relinked, the others are linked as they were. */
  ghost predicate Midway<K, V>(row: seq<Node<K, V>>, j: nat, moved: map<K, Node<K, V>>, moved': map<K, Node<K, V>>,
                               links: Links<K, V>, links': Links<K, V>) {
    && Passed(row, j, moved, moved')
    && (forall i | j <= i < |row| :: LinkAt(links', row, i))
    && (forall x | x in links && x !in row :: x in links' && links'[x] == links[x])
  }

  lemma MidwayStart<K, V>(links: Links<K, V>, head: Node?<K, V>, row: seq<Node<K, V>>, moved: map<K, Node<K, V>>)
    requires Linked(links, head, row) && NoneIn(row, moved)
    ensures head == NodeAt(row, 0) && Midway(row, 0, moved, moved, links, links)
  {
  }

  lemma LinkedHead<K, V>(links: Links<K, V>, head: Node?<K, V>, row: seq<Node<K, V>>)
    requires Linked(links, head, row)
    ensures head == NodeAt(row, 0)
  {
  }

  lemma LinkedNext<K, V>(links: Links<K, V>, head: Node?<K, V>, row: seq<Node<K, V>>, j: nat)
    requires Linked(links, head, row) && j < |row|
    ensures row[j] in links && links[row[j]] == NodeAt(row, j + 1)
  {
    assert LinkAt(links, row, j);
  }

  lemma NodeAtIs<K, V>(row: seq<Node<K, V>>, j: nat)
    ensures NodeAt(row, j) == if j < |row| then row[j] else null
  {
  }

  lemma MidwayStep<K, V>(row: seq<Node<K, V>>, j: nat, moved: map<K, Node<K, V>>, moved': map<K, Node<K, V>>,
                         links: Links<K, V>, links': Links<K, V>, next: Node?<K, V>)
    requires Distinct(row) && Midway(row, j, moved, moved', links, links') && j < |row|
    ensures row[j] in links' && links'[row[j]] == NodeAt(row, j + 1) && row[j].key !in moved'
    ensures Midway(row, j + 1, moved, Put(moved', row[j].key, row[j]), links, Put(links', row[j], next))
  {
    assert LinkAt(links', row, j);
    var links'' := links'[row[j] := next];
    forall i | j < i < |row| ensures LinkAt(links'', row, i) {
      assert LinkAt(links', row, i) && row[i].key != row[j].key;
    }
    assert row[j] in row;
  }

  /** When every row is in `moved`, or empty, all nodes are in it. */
  lemma AllMoved<K, V>(hash: K -> nat, rows: seq<seq<Node<K, V>>>, nodes: map<K, Node<K, V>>, moved: map<K, Node<K, V>>)
    requires Holds(hash, rows, nodes)
    requires forall b | 0 <= b < |rows| :: InMap(rows[b], moved)
    requires forall k | k in moved :: k in nodes && moved[k] == nodes[k]
    ensures moved == nodes
  {
    hide Index;
    forall k | k in nodes ensures k in moved {
      assert InRow(hash, rows, k, nodes[k]);
      assert InMap(rows[Index(hash, k, |rows| - 1)], moved);
    }
  }

  predicate GoodSize(size: nat) {
    size == 0 || (size >= DICT_HT_INITIAL_SIZE && IsPowerOfTwo(size))
  }

  /** `n` in front of row `b`. */
  function Prepended<K, V>(rows: seq<seq<Node<K, V>>>, b: nat, n: Node<K, V>): seq<seq<Node<K, V>>> {
    if b < |rows| then rows[b := [n] + rows[b]] else rows
  }

  function Put<K, V>(m: map<K, V>, k: K, v: V): map<K, V> {
    m[k := v]
  }

  /** Prepends a node with a new key to its row. */
  lemma InsertKeeps<K, V>(hash: K -> nat, rows: seq<seq<Node<K, V>>>, nodes: map<K, Node<K, V>>, n: Node<K, V>)
    requires Placed(hash, rows) && Holds(hash, rows, nodes) && n.key !in nodes && rows != []
    ensures var r := Prepended(rows, Index(hash, n.key, |rows| - 1), n);
            && Placed(hash, r) && Holds(hash, r, Put(nodes, n.key, n)) && Total(r) == Total(rows) + 1
            && |r| == |rows|
  {
    hide Index, Total;
    var b := Index(hash, n.key, |rows| - 1);
    var row := [n] + rows[b];
    var r := Prepended(rows, b, n);
    var more := Put(nodes, n.key, n);
    TotalUpdate(rows, b, row);
    assert InMap(rows[b], nodes) && Distinct(rows[b]) && Owned(hash, rows[b], |rows| - 1, b);
    assert forall i | 0 < i < |row| :: row[i] == rows[b][i - 1];
    forall c | 0 <= c < |r| ensures InMap(r[c], more) {
      assert c != b ==> InMap(rows[c], nodes);
    }
    forall k | k in more ensures InRow(hash, r, k, more[k]) {
      if k == n.key {
        assert row[0] == n;
      } else {
        assert InRow(hash, rows, k, nodes[k]);
      }
    }
  }

  /** The row without the node of `key`. */
  function Without<K(==), V>(row: seq<Node<K, V>>, key: K): seq<Node<K, V>> {
    if row == [] then []
    else if row[0].key == key then row[1..]
    else [row[0]] + Without(row[1..], key)
  }

  lemma {:induction false} WithoutAt<K, V>(row: seq<Node<K, V>>, j: nat)
    requires Distinct(row) && j < |row|
    ensures Without(row, row[j].key) == row[..j] + row[j + 1..]
  {
    if j > 0 {
      assert row[1..][j - 1] == row[j];
      WithoutAt(row[1..], j - 1);
      assert row[..j] == [row[0]] + row[1..][..j - 1] && row[1..][j..] == row[j + 1..];
    }
  }

  lemma {:induction false} WithoutNone<K, V>(row: seq<Node<K, V>>, key: K)
    requires forall i | 0 <= i < |row| :: row[i].key != key
    ensures Without(row, key) == row
  {
    if row != [] {
      WithoutNone(row[1..], key);
    }
  }

  function Spliced<K(==), V>(hash: K -> nat, rows: seq<seq<Node<K, V>>>, key: K): seq<seq<Node<K, V>>> {
    var b := Index(hash, key, Max(|rows|, 1) - 1);
    if b < |rows| then rows[b := Without(rows[b], key)] else rows
  }

  lemma DropOne<K, V>(m: map<K, V>, k: K)
    requires k in m
    ensures |m - {k}| == |m| - 1
  {
    assert (m - {k})[k := m[k]] == m;
  }

  function Drop<K, V>(m: map<K, V>, k: K): map<K, V> {
    m - {k}
  }

  /** Row `b` without its node `j`. */
  function Shortened<K, V>(rows: seq<seq<Node<K, V>>>, b: nat, j: nat): seq<seq<Node<K, V>>> {
    if b < |rows| && j < |rows[b]| then rows[b := rows[b][..j] + rows[b][j + 1..]] else rows
  }

  /** The links after `de` has been spliced out behind `prevde`. */
  function LinksAfter<K, V>(links: Links<K, V>, prevde: Node?<K, V>, de: Node<K, V>): Links<K, V> {
    if prevde == null || de !in links then links else links[prevde := links[de]]
  }

  /** The heads after `de` has been spliced out behind `prevde`, or as the first of row `h`. */
  function HeadsAfter<K, V>(links: Links<K, V>, heads: seq<Node?<K, V>>, prevde: Node?<K, V>, de: Node<K, V>, h: nat)
    : seq<Node?<K, V>> {
    if prevde == null && de in links && h < |heads| then heads[h := links[de]] else heads
  }

  /** Splicing node `j` out of row `b`, through its predecessor or the head. */
  lemma SpliceKeeps<K, V>(hash: K -> nat, links: Links<K, V>, heads: seq<Node?<K, V>>, rows: seq<seq<Node<K, V>>>,
                          nodes: map<K, Node<K, V>>, b: nat, j: nat)
    requires AllLinked(links, heads, rows) && Placed(hash, rows) && Holds(hash, rows, nodes)
    requires b < |rows| && j < |rows[b]|
    ensures var de := rows[b][j];
            var prevde := if j == 0 then null else rows[b][j - 1];
            AllLinked(LinksAfter(links, prevde, de), HeadsAfter(links, heads, prevde, de, b), Shortened(rows, b, j))
  {
    hide Index, Linked, Placed, Holds;
    var row := rows[b];
    var links' := LinksAfter(links, if j == 0 then null else row[j - 1], row[j]);
    RowsApart(hash, rows, nodes, b);
    forall c | 0 <= c < |rows| && c != b ensures Linked(links', heads[c], rows[c]) {
      ApartNodes(rows[c], row);
      LinkedFrame(links, links', heads[c], rows[c]);
    }
    SpliceRow(links, heads[b], row, j);
  }

  lemma ApartNodes<K, V>(row: seq<Node<K, V>>, other: seq<Node<K, V>>)
    requires Apart(row, other)
    ensures forall x | x in row :: x !in other
  {
  }

  lemma SpliceRow<K, V>(links: Links<K, V>, head: Node?<K, V>, row: seq<Node<K, V>>, j: nat)
    requires Linked(links, head, row) && Distinct(row) && j < |row|
    ensures row[j] in links
    ensures Linked(LinksAfter(links, if j == 0 then null else row[j - 1], row[j]),
                   if j == 0 then links[row[0]] else head, row[..j] + row[j + 1..])
  {
    var links' := LinksAfter(links, if j == 0 then null else row[j - 1], row[j]);
    var short := row[..j] + row[j + 1..];
    LinkedNext(links, head, row, j);
    forall i | 0 <= i < |short| ensures LinkAt(links', short, i) {
      LinkedNext(links, head, row, if i < j then i else i + 1);
    }
  }

  lemma RemoveRow<K, V>(hash: K -> nat, row: seq<Node<K, V>>, nodes: map<K, Node<K, V>>, mask: nat, b: nat, i: nat)
    requires Distinct(row) && Owned(hash, row, mask, b) && InMap(row, nodes) && i < |row|
    ensures var short := row[..i] + row[i + 1..];
            && Distinct(short) && Owned(hash, short, mask, b) && InMap(short, Drop(nodes, row[i].key))
            && forall x | x in row && x != row[i] :: x in short
  {
    hide Index;
    var short := row[..i] + row[i + 1..];
    assert forall j | 0 <= j < |short| :: short[j] == row[if j < i then j else j + 1];
    forall x | x in row && x != row[i] ensures x in short {
      var j :| 0 <= j < |row| && row[j] == x;
      assert short[if j < i then j else j - 1] == x;
    }
  }

  /** Takes node `i` out of row `b`. */
  lemma RemoveKeeps<K, V>(hash: K -> nat, rows: seq<seq<Node<K, V>>>, nodes: map<K, Node<K, V>>, b: nat, i: nat)
    requires Placed(hash, rows) && Holds(hash, rows, nodes) && b < |rows| && i < |rows[b]|
    ensures var r := Shortened(rows, b, i);
            && Placed(hash, r) && Holds(hash, r, Drop(nodes, rows[b][i].key)) && Total(r) == Total(rows) - 1
            && |r| == |rows|
  {
    hide Index, Distinct, Owned, InMap, Total;
    var row := rows[b];
    var r := Shortened(rows, b, i);
    var nodes' := Drop(nodes, row[i].key);
    TotalUpdate(rows, b, row[..i] + row[i + 1..]);
    RowsApart(hash, rows, nodes, b);
    RemoveRow(hash, row, nodes, |rows| - 1, b, i);
    forall c | 0 <= c < |r| ensures InMap(r[c], nodes') {
      if c != b {
        ApartFrom(rows[c], row, nodes, i);
      }
    }
    forall k | k in nodes' ensures InRow(hash, r, k, nodes'[k]) {
      assert InRow(hash, rows, k, nodes[k]);
    }
  }

  lemma ApartFrom<K, V>(other: seq<Node<K, V>>, row: seq<Node<K, V>>, nodes: map<K, Node<K, V>>, i: nat)
    requires Apart(other, row) && InMap(other, nodes) && i < |row|
    ensures InMap(other, Drop(nodes, row[i].key))
  {
  }

  lemma PushRow<K, V>(links: Links<K, V>, head: Node?<K, V>, row: seq<Node<K, V>>, he: Node<K, V>)
    requires Linked(links, head, row) && he !in row
    ensures Linked(Put(links, he, head), he, [he] + row)
  {
    var links' := Put(links, he, head);
    var more := [he] + row;
    LinkedFrame(links, links', head, row);
    forall i | 0 <= i < |more| ensures LinkAt(links', more, i) {
      if i > 0 {
        LinkedNext(links', head, row, i - 1);
        assert more[i] == row[i - 1];
      }
    }
  }

  lemma NotInRow<K, V>(row: seq<Node<K, V>>, nodes: map<K, Node<K, V>>, n: Node<K, V>)
    requires InMap(row, nodes) && n.key !in nodes
    ensures n !in row
  {
  }

  /** Relinking a node in front of row `h`. */
  lemma PushKeeps<K, V>(hash: K -> nat, links: Links<K, V>, heads: seq<Node?<K, V>>, rows: seq<seq<Node<K, V>>>,
                        nodes: map<K, Node<K, V>>, he: Node<K, V>, h: nat)
    requires AllLinked(links, heads, rows) && Holds(hash, rows, nodes)
    requires he.key !in nodes && h < |rows|
    ensures AllLinked(Put(links, he, heads[h]), heads[h := he], Prepended(rows, h, he))
  {
    hide Linked, InMap, InRow, Put;
    var links' := Put(links, he, heads[h]);
    PutElsewhere(links, he, heads[h]);
    forall b | 0 <= b < |rows| ensures Linked(links', heads[b], rows[b]) && he !in rows[b] {
      NotInRow(rows[b], nodes, he);
      LinkedFrame(links, links', heads[b], rows[b]);
    }
    PushRow(links, heads[h], rows[h], he);
  }

  lemma PutElsewhere<K, V>(m: map<K, V>, k: K, v: V)
    ensures forall x | x in m && x != k :: x in Put(m, k, v) && Put(m, k, v)[x] == m[x]
  {
  }

  lemma IndexIsMask<K>(hash: K -> nat, k: K, mask: nat)
    ensures And(hash(k), mask) == Index(hash, k, mask)
  {}

  method NextPower(size: nat) returns (i: nat)
    ensures size < LONG_MAX ==> i >= size && i >= DICT_HT_INITIAL_SIZE && IsPowerOfTwo(i)
    ensures size < LONG_MAX && i > DICT_HT_INITIAL_SIZE ==> i / 2 < size
    ensures size >= LONG_MAX ==> i == LONG_MAX
  {
    i := DICT_HT_INITIAL_SIZE;
    if size >= LONG_MAX {
      return LONG_MAX;
    }
    while true
      invariant i >= DICT_HT_INITIAL_SIZE && IsPowerOfTwo(i)
      invariant i > DICT_HT_INITIAL_SIZE ==> i / 2 < size
      decreases if i >= size then 0 else size - i
    {
      if i >= size {
        return i;
      }
      i := i * 2;
    }
  }

  /** More entries than a table of `int` indices can have buckets for. */
  const INT_ENTRIES: nat := 0x8000_0000

  lemma IntEntriesIsPower()
    ensures IsPowerOfTwo(INT_ENTRIES) && IsPowerOfTwo(INT_ENTRIES / 2)
  {
    assert IsPowerOfTwo(4);
    SixteenTimes(0x4);
    SixteenTimes(0x40);
    SixteenTimes(0x400);
    SixteenTimes(0x4000);
    SixteenTimes(0x4_0000);
    SixteenTimes(0x40_0000);
    SixteenTimes(0x400_0000);
  }

  lemma PowerBound(i: nat, size: nat)
    requires IsPowerOfTwo(i) && size <= INT_ENTRIES && (i > DICT_HT_INITIAL_SIZE ==> i / 2 < size)
    ensures i <= INT_ENTRIES
  {
    IntEntriesIsPower();
    if i > INT_ENTRIES {
      PowerGap(i, INT_ENTRIES);
    }
  }

  lemma SixteenTimes(n: nat)
    requires n > 0 && IsPowerOfTwo(n)
    ensures IsPowerOfTwo(16 * n)
  {
    hide IsPowerOfTwo;
    Twice(n);
    Twice(2 * n);
    Twice(4 * n);
    Twice(8 * n);
  }

  lemma Twice(n: nat)
    requires n > 0 && IsPowerOfTwo(n)
    ensures IsPowerOfTwo(2 * n)
  {}

  /** A table of lists: `to` are its rows, `moved` the nodes in it. */
  ghost predicate Filed<K, V>(hash: K -> nat, links: Links<K, V>, heads: seq<Node?<K, V>>, to: seq<seq<Node<K, V>>>,
                              moved: map<K, Node<K, V>>) {
    to != [] && Placed(hash, to) && Holds(hash, to, moved) && AllLinked(links, heads, to)
  }

  lemma StartFiled<K, V>(hash: K -> nat, links: Links<K, V>, heads: seq<Node?<K, V>>, to: seq<seq<Node<K, V>>>)
    requires |heads| == |to| > 0 && forall b | 0 <= b < |to| :: to[b] == [] && heads[b] == null
    ensures Filed(hash, links, heads, to, map[]) && Total(to) == 0
  {
    EmptyRows(hash, to);
  }

  lemma RelinkKeeps<K, V>(hash: K -> nat, links: Links<K, V>, heads: seq<Node?<K, V>>, to: seq<seq<Node<K, V>>>,
                          moved: map<K, Node<K, V>>, he: Node<K, V>)
    requires Filed(hash, links, heads, to, moved) && he.key !in moved
    ensures var h := Index(hash, he.key, |to| - 1);
            var to' := Prepended(to, h, he);
            && Filed(hash, Put(links, he, heads[h]), heads[h := he], to', Put(moved, he.key, he))
            && Total(to') == Total(to) + 1 && |to'| == |to|
  {
    InsertKeeps(hash, to, moved, he);
    PushKeeps(hash, links, heads, to, moved, he, Index(hash, he.key, |to| - 1));
  }

  class Dict<K(==, !new), V> {
    const hash: K -> nat
    var table: array<Node?<K, V>>
    var size: nat
    var sizemask: nat
    var used: nat
    ghost var rows: seq<seq<Node<K, V>>>       // the nodes of every bucket, in order
    ghost var nodes: map<K, Node<K, V>>
    ghost var live: set<Node<K, V>>            // allocated and not freed
    ghost var links: Links<K, V>               // covers the `next` fields of the live nodes
    ghost var contents: map<K, V>

    ghost predicate Valid()
      reads this, table, live
    {
      && table.Length == size == |rows| && GoodSize(size)
      && size <= INT_ENTRIES && sizemask == (if size == 0 then 0 else size - 1)
      && Placed(hash, rows) && Holds(hash, rows, nodes) && AllLinked(links, table[..], rows)
      && Tied() && Stored() && used == Total(rows) && used == |contents|
    }

    /** The live nodes are those of the map, and their values its contents. */
    ghost predicate Stored()
      reads this`live, this`nodes, this`contents, live`val
    {
      && (forall n | n in live :: n.key in nodes && nodes[n.key] == n)
      && contents.Keys == nodes.Keys
      && (forall k | k in nodes :: nodes[k] in live && nodes[k].key == k && contents[k] == nodes[k].val)
    }

    /** `links` is what the live nodes' fields say. */
    ghost predicate Tied()
      reads this`live, this`links, live`next
    {
      forall n | n in live :: n in links && links[n] == n.next
    }

    constructor (hash: K -> nat)
      ensures Valid() && contents == map[] && live == {} && fresh(table) && this.hash == hash
    {
      this.hash := hash;
      table := new Node?<K, V>[0];
      size, sizemask, used := 0, 0, 0;
      rows, nodes, live, links, contents := [], map[], {}, map[], map[];
      new;
      EmptyRows(hash, rows);
    }

    /** Puts one node in front of its row in table `n`. */
    method Relink(he: Node<K, V>, n: array<Node?<K, V>>, ghost to: seq<seq<Node<K, V>>>, ghost moved: map<K, Node<K, V>>)
      returns (ghost to': seq<seq<Node<K, V>>>)
      requires n.Length == |to| && Filed(hash, links, n[..], to, moved) && Tied() && he in live && he.key !in moved
      modifies this`links, he`next, n
      ensures Filed(hash, links, n[..], to', Put(moved, he.key, he)) && Tied()
      ensures |to'| == |to| && Total(to') == Total(to) + 1
      ensures links == Put(old(links), he, old(n[Index(hash, he.key, n.Length - 1)]))
    {
      hide *;
      ghost var heads := n[..];
      RelinkKeeps(hash, links, heads, to, moved, he);
      IndexIsMask(hash, he.key, n.Length - 1);
      var h := And(hash(he.key), n.Length - 1);
      to' := Prepended(to, h, he);
      WriteNext(he, n, h);
    }

    /** The two pointer writes of `dictExpand`. */
    method WriteNext(he: Node<K, V>, n: array<Node?<K, V>>, h: nat)
      requires h < n.Length && Tied() && he in live
      modifies this`links, he`next, n
      ensures Tied() && links == Put(old(links), he, old(n[h])) && n[..] == old(n[..])[h := he]
    {
      ghost var heads := n[..];
      he.next := n[h];
      n[h] := he;
      assert n[..] == heads[h := he];
      links := links[he := heads[h]];
    }

    /** The inner loop of `dictExpand`: relinks a whole bucket into table `n`. */
    method MoveRow(head: Node?<K, V>, n: array<Node?<K, V>>, ghost row: seq<Node<K, V>>,
                   ghost to: seq<seq<Node<K, V>>>, ghost moved: map<K, Node<K, V>>)
      returns (ghost to': seq<seq<Node<K, V>>>, ghost moved': map<K, Node<K, V>>)
      requires Linked(links, head, row) && Distinct(row) && NoneIn(row, moved)
      requires n.Length == |to| > 0 && Filed(hash, links, n[..], to, moved) && Tied() && used >= |row|
      requires forall x | x in row :: x in live
      modifies this`used, this`links, (set x | x in row)`next, n
      ensures Filed(hash, links, n[..], to', moved') && Tied() && |to'| == |to|
      ensures Total(to') == Total(to) + |row| && used == old(used) - |row|
      ensures Midway(row, |row|, moved, moved', old(links), links)
    {
      hide *;
      MidwayStart(links, head, row, moved);
      var he := head;
      ghost var j, links0 := 0, links;
      to', moved' := to, moved;
      while he != null
        invariant 0 <= j <= |row| && he == NodeAt(row, j) && Midway(row, j, moved, moved', links0, links)
        invariant |to'| == |to| == n.Length > 0 && Filed(hash, links, n[..], to', moved') && Tied()
        invariant Total(to') == Total(to) + j && used == old(used) - j
        decreases |row| - j
      {
        NodeAtIs(row, j);
        TiedNext(row, j);
        MidwayStep(row, j, moved, moved', links0, links, n[Index(hash, he.key, n.Length - 1)]);
        var nextHe := he.next;
        to' := Relink(he, n, to', moved');
        moved' := Put(moved', row[j].key, row[j]);
        used := used - 1;
        j := j + 1;
        he := nextHe;
      }
      NodeAtIs(row, j);
    }

    lemma TiedNext(row: seq<Node<K, V>>, j: nat)
      requires Tied()
      ensures j < |row| && row[j] in live ==> row[j] in links && row[j].next == links[row[j]]
    {
    }

    /** The outer loop of `dictExpand`: every bucket, until no entry is left. */
    method MoveAll(n: array<Node?<K, V>>) returns (ghost to: seq<seq<Node<K, V>>>)
      requires Valid() && n != table && n.Length > 0 && forall b | 0 <= b < n.Length :: n[b] == null
      modifies this`used, this`links, live`next, n
      ensures used == 0 && |to| == n.Length && Filed(hash, links, n[..], to, nodes) && Total(to) == old(used)
      ensures Tied()
    {
      hide *;
      ghost var moved: map<K, Node<K, V>> := map[];
      to := seq(n.Length, _ => []);
      StartFiled(hash, links, n[..], to);
      StartMoving();
      ghost var heads := table[..];
      var i := 0;
      while i < size && used > 0
        invariant i <= size == |rows| && Moving(links, heads, rows, nodes, i, moved) && Tied()
        invariant |to| == n.Length && Filed(hash, links, n[..], to, moved)
        invariant Placed(hash, rows) && Holds(hash, rows, nodes) && Stored()
        invariant used + Total(to) == old(used) && used == TotalFrom(rows, i)
      {
        to, moved := MoveBucket(i, n, to, moved, heads);
        i := i + 1;
      }
      MovedAll(i, heads, moved);
    }

    /** One bucket of the outer loop. */
    method MoveBucket(i: nat, n: array<Node?<K, V>>, ghost to: seq<seq<Node<K, V>>>, ghost moved: map<K, Node<K, V>>,
                      ghost heads: seq<Node?<K, V>>)
      returns (ghost to': seq<seq<Node<K, V>>>, ghost moved': map<K, Node<K, V>>)
      requires i < |rows| && Moving(links, heads, rows, nodes, i, moved) && Tied()
      requires |heads| == table.Length == |rows| && heads[i] == table[i] && n != table
      requires |to| == n.Length > 0 && Filed(hash, links, n[..], to, moved)
      requires Placed(hash, rows) && Holds(hash, rows, nodes) && used == TotalFrom(rows, i) && Stored()
      modifies this`used, this`links, live`next, n
      ensures Moving(links, heads, rows, nodes, i + 1, moved') && Tied()
      ensures |to'| == |to| && Filed(hash, links, n[..], to', moved')
      ensures used + Total(to') == old(used) + Total(to) && used == TotalFrom(rows, i + 1)
    {
      hide *;
      TotalSplit(rows, i);
      RowsApart(hash, rows, nodes, i);
      MovingAt(links, heads, rows, nodes, i, moved);
      RowLive(i);
      to', moved' := MoveRow(table[i], n, rows[i], to, moved);
      MovingStep(hash, old(links), links, heads, rows, nodes, i, moved, moved');
    }

    /** The nodes in the rows are live. */
    lemma RowLive(b: nat)
      requires Holds(hash, rows, nodes) && Stored() && b < |rows|
      ensures forall x | x in rows[b] :: x in live
    {
      hide Index;
      assert InMap(rows[b], nodes);
    }

    lemma StartMoving()
      requires Valid()
      ensures Moving(links, table[..], rows, nodes, 0, map[]) && used == TotalFrom(rows, 0) && table.Length == size == |rows|
      ensures Tied() && Stored() && Placed(hash, rows) && Holds(hash, rows, nodes)
    {
      assert rows[0..] == rows;
    }

    lemma MovedAll(i: nat, heads: seq<Node?<K, V>>, moved: map<K, Node<K, V>>)
      requires Holds(hash, rows, nodes) && Moving(links, heads, rows, nodes, i, moved)
      requires used == TotalFrom(rows, i) && (i < |rows| ==> used == 0)
      ensures moved == nodes && used == 0
    {
      hide Index, Holds;
      RestEmpty(rows, i);
      AllMoved(hash, rows, nodes, moved);
    }

    /** `dictExpand`: grows to at least `newSize` buckets, relinking every node. */
    method Expand(newSize: nat) returns (ok: bool)
      requires Valid() && newSize <= INT_ENTRIES
      modifies this`table, this`size, this`sizemask, this`used, this`rows, this`links, live`next
      ensures Valid() && (ok <==> used <= newSize) && used == old(used)
      ensures ok ==> fresh(table) && newSize <= size && DICT_HT_INITIAL_SIZE <= size
      ensures ok ==> size / 2 < Max(newSize, DICT_HT_INITIAL_SIZE)
      ensures !ok ==> table == old(table) && size == old(size) && rows == old(rows) && links == old(links)
    {
      hide IsPowerOfTwo, Total, Index, Placed, Holds, AllLinked, Tied, Stored, Filed, Valid, And;
      ValidParts();
      var realsize := NextPower(newSize);
      PowerBound(realsize, newSize);
      if used > newSize {
        return false;
      }
      var n := new Node?<K, V>[realsize](_ => null);
      var nused := used;
      ghost var to := MoveAll(n);
      assert used == 0;
      Install(n, nused, to);
      return true;
    }

    /** Remaps the new table into the old. */
    method Install(n: array<Node?<K, V>>, nused: nat, ghost to: seq<seq<Node<K, V>>>)
      requires Filed(hash, links, n[..], to, nodes) && Tied() && Stored() && n.Length == |to|
      requires nused == Total(to) == |contents| && GoodSize(n.Length) && 0 < n.Length <= INT_ENTRIES
      modifies this`table, this`size, this`sizemask, this`used, this`rows
      ensures Valid() && table == n && size == n.Length && used == nused
    {
      hide Total, Placed, Holds, AllLinked, Tied, Stored, GoodSize;
      table := n;
      size := n.Length;
      sizemask := n.Length - 1;
      used := nused;
      rows := to;
    }

    /** `_dictExpandIfNeeded`: four buckets at first, twice as many when there are as many entries as buckets. */
    method ExpandIfNeeded() returns (ok: bool)
      requires Valid() && used < INT_ENTRIES
      modifies this`table, this`size, this`sizemask, this`used, this`rows, this`links, live`next
      ensures Valid() && used == old(used) && ok && (table == old(table) || fresh(table))
      ensures size == if old(size) == 0 then DICT_HT_INITIAL_SIZE
                      else if old(used == size) then 2 * old(size) else old(size)
    {
      hide Index, Placed, Holds, AllLinked, Tied, Stored;
      if size == 0 {
        ok := Expand(DICT_HT_INITIAL_SIZE);
        PowerGap(size / 2, DICT_HT_INITIAL_SIZE / 2);
      } else if used == size {
        IntEntriesIsPower();
        if size > INT_ENTRIES / 2 { PowerGap(size, INT_ENTRIES / 2); }
        ok := Expand(size * 2);
        PowerGap(size / 2, old(size));
      } else {
        ok := true;
      }
    }

    /** The bucket of `key`, ready to be searched. */
    lemma RowOf(key: K)
      requires Valid() && size > 0
      ensures var b := Index(hash, key, sizemask);
              && b < size == |rows| == table.Length && And(hash(key), sizemask) == b && Linked(links, table[b], rows[b])
              && Distinct(rows[b]) && InMap(rows[b], nodes) && Tied()
              && (key in nodes ==> nodes[key] in rows[b] && nodes[key].key == key)
              && forall x | x in rows[b] :: x in live
    {
      hide Linked, Distinct, Tied, Stored;
      IndexIsMask(hash, key, sizemask);
      var b := Index(hash, key, sizemask);
      assert Linked(links, table[..][b], rows[b]);
      RowLive(b);
      if key in nodes {
        assert InRow(hash, rows, key, nodes[key]);
      }
    }

    /** One step of a search along a row. */
    lemma StepAlong(head: Node?<K, V>, row: seq<Node<K, V>>, j: nat)
      requires Linked(links, head, row) && Tied() && forall x | x in row :: x in live
      ensures head == NodeAt(row, 0)
      ensures if j < |row| then NodeAt(row, j) == row[j] && row[j] in live && row[j].next == NodeAt(row, j + 1)
              else NodeAt(row, j) == null
    {
      hide Linked, Tied, NodeAt;
      LinkedHead(links, head, row);
      NodeAtIs(row, j);
      if j < |row| {
        LinkedNext(links, head, row, j);
        TiedNext(row, j);
      }
    }

    /** What the end of a search says. */
    lemma Searched(row: seq<Node<K, V>>, j: nat, key: K)
      requires InMap(row, nodes) && j <= |row| && (forall i | 0 <= i < j :: row[i].key != key)
      requires key in nodes ==> nodes[key] in row && nodes[key].key == key
      requires j < |row| ==> row[j].key == key
      ensures key in nodes <==> j < |row|
      ensures j < |row| ==> nodes[key] == row[j]
    {
    }

    /** `_dictKeyIndex`: the bucket for a new key, or None when the key is already there. */
    method KeyIndex(key: K) returns (index: Option<nat>)
      requires Valid() && used < INT_ENTRIES
      modifies this`table, this`size, this`sizemask, this`used, this`rows, this`links, live`next
      ensures Valid() && used == old(used) && (table == old(table) || fresh(table))
      ensures index.None? <==> key in nodes
      ensures index.Some? ==> size == |rows| > 0 && index.value == Index(hash, key, size - 1) < INT_ENTRIES
    {
      hide Index, Placed, Holds, AllLinked, Linked, Tied, Stored, Distinct, InMap, NodeAt, GoodSize, Total;
      var ok := ExpandIfNeeded();
      RowOf(key);
      var h := And(hash(key), sizemask);
      var he := table[h];
      ghost var j, row := 0, rows[h];
      StepAlong(he, row, 0);
      while he != null
        invariant 0 <= j <= |row| && he == NodeAt(row, j) && forall i | 0 <= i < j :: row[i].key != key
        modifies {}
        decreases |row| - j
      {
        StepAlong(table[h], row, j);
        if he.key == key {
          Searched(row, j, key);
          return None;
        }
        he := he.next;
        j := j + 1;
      }
      StepAlong(table[h], row, j);
      Searched(row, j, key);
      return Some(h);
    }

    lemma SameKeys()
      requires Valid()
      ensures contents.Keys == nodes.Keys
    {
    }

    /** `dictAdd`: false stands for DICT_ERR, the key was there. */
    method Add(key: K, val: V) returns (ok: bool)
      requires Valid() && used < INT_ENTRIES
      modifies this, table, live`next
      ensures Valid() && (table == old(table) || fresh(table)) && fresh(live - old(live))
      ensures ok <==> key !in old(contents)
      ensures contents == if ok then old(contents)[key := val] else old(contents)
      ensures !ok ==> nodes == old(nodes) && live == old(live) && used == old(used)
    {
      hide Index, Placed, Holds, AllLinked, Tied, Stored, GoodSize, Total;
      SameKeys();
      var index := KeyIndex(key);
      if index.None? {
        return false;
      }
      var entry := new Node(key, val, table[index.value]);
      Insert(entry, index.value);
      return true;
    }

    /** Links a new node into its bucket. */
    method Insert(entry: Node<K, V>, index: nat)
      requires Valid() && size > 0 && index == Index(hash, entry.key, size - 1) && index < size
      requires entry !in live && entry.key !in nodes && entry.next == table[index]
      modifies this`used, this`rows, this`nodes, this`live, this`links, this`contents, table
      ensures Valid() && live == old(live) + {entry} && contents == Put(old(contents), entry.key, entry.val)
    {
      hide *;
      ValidParts();
      ghost var heads := table[..];
      InsertKeeps(hash, rows, nodes, entry);
      PushKeeps(hash, links, heads, rows, nodes, entry, index);
      WriteHead(entry, index);
      CountIn(entry, Prepended(rows, index, entry));
    }

    /** Counts `entry` in. */
    method CountIn(entry: Node<K, V>, ghost rows': seq<seq<Node<K, V>>>)
      requires Tied() && Stored() && entry !in live && entry.key !in nodes
      requires table.Length == size == |rows'| && GoodSize(size)
      requires size <= INT_ENTRIES && sizemask == (if size == 0 then 0 else size - 1)
      requires Placed(hash, rows') && Holds(hash, rows', Put(nodes, entry.key, entry))
      requires AllLinked(Put(links, entry, entry.next), table[..], rows')
      requires Total(rows') == used + 1 && used == |contents|
      modifies this`used, this`rows, this`nodes, this`live, this`links, this`contents
      ensures Valid() && live == old(live) + {entry} && contents == Put(old(contents), entry.key, entry.val)
    {
      hide *;
      Remember(entry);
      rows := rows';
      used := used + 1;
      PartsValid();
    }

    method WriteHead(entry: Node<K, V>, index: nat)
      requires index < table.Length
      modifies table
      ensures table[..] == old(table[..])[index := entry]
    {
      table[index] := entry;
    }

    /** Node `entry` is live now. */
    ghost method Remember(entry: Node<K, V>)
      requires Tied() && Stored() && entry !in live && entry.key !in nodes
      modifies this`nodes, this`live, this`links, this`contents
      ensures Tied() && Stored() && |contents| == |old(contents)| + 1 && live == old(live) + {entry}
      ensures nodes == Put(old(nodes), entry.key, entry) && contents == Put(old(contents), entry.key, entry.val)
      ensures links == Put(old(links), entry, entry.next)
    {
      assert entry.key !in contents.Keys;
      live := live + {entry};
      links := links[entry := entry.next];
      nodes := nodes[entry.key := entry];
      contents := contents[entry.key := entry.val];
    }

    /** `dictFind`: the entry of `key`, or NULL. */
    method FindEntry(key: K) returns (he: Node?<K, V>)
      requires Valid()
      ensures he == if key in nodes then nodes[key] else null
      ensures he != null ==> he in live && key in contents && he.key == key && he.val == contents[key]
      ensures he == null ==> key !in contents
    {
      hide Index, Placed, Holds, AllLinked, Linked, Tied, Distinct, InMap, NodeAt, GoodSize, Total;
      if size == 0 {
        NoNodes();
        return null;
      }
      RowOf(key);
      var h := And(hash(key), sizemask);
      he := table[h];
      ghost var j, row := 0, rows[h];
      StepAlong(he, row, 0);
      while he != null
        invariant 0 <= j <= |row| && he == NodeAt(row, j) && forall i | 0 <= i < j :: row[i].key != key
        decreases |row| - j
      {
        StepAlong(table[h], row, j);
        if he.key == key {
          Searched(row, j, key);
          return he;
        }
        he := he.next;
        j := j + 1;
      }
      StepAlong(table[h], row, j);
      Searched(row, j, key);
      return null;
    }

    lemma NodesNeedRows(k: K)
      requires Valid() && k in nodes
      ensures size > 0
    {
      hide Index;
      assert InRow(hash, rows, k, nodes[k]);
    }

    lemma NoNodes()
      requires Valid() && size == 0
      ensures nodes == map[]
    {
      hide Valid;
      forall k ensures k !in nodes {
        if k in nodes {
          NodesNeedRows(k);
        }
      }
    }

    /** `dictReplace`: true when the key is new, false when its value was overwritten. */
    method Replace(key: K, val: V) returns (added: bool)
      requires Valid() && used < INT_ENTRIES
      modifies this, table, live
      ensures Valid() && (table == old(table) || fresh(table)) && fresh(live - old(live))
      ensures added <==> key !in old(contents)
      ensures contents == old(contents)[key := val]
    {
      hide Index, Placed, Holds, AllLinked, Tied, GoodSize, Total;
      added := Add(key, val);
      if added {
        return true;
      }
      var entry := FindEntry(key);
      SetVal(entry, val);
      return false;
    }

    method SetVal(entry: Node<K, V>, val: V)
      requires Valid() && entry in live
      modifies this`contents, entry`val
      ensures Valid() && contents == old(contents)[entry.key := val]
    {
      hide Placed, Holds, AllLinked, GoodSize, Total, Tied;
      entry.val := val;
      contents := contents[entry.key := val];
    }

    /** Without the key there is nothing to splice. */
    lemma NothingToSplice(key: K)
      requires Valid() && key !in nodes
      ensures Spliced(hash, rows, key) == rows
    {
      hide Index, Distinct, Owned;
      var b := Index(hash, key, Max(|rows|, 1) - 1);
      if b < |rows| {
        assert InMap(rows[b], nodes);
        WithoutNone(rows[b], key);
      }
    }

    lemma RowsPlaced()
      requires Valid()
      ensures Placed(hash, rows)
    {
    }

    lemma SameContents(key: K)
      requires Valid() && key !in nodes
      ensures key !in contents && Drop(contents, key) == contents && Drop(nodes, key) == nodes && live - {} == live
    {
      hide Placed, Holds, AllLinked, Tied, GoodSize, Total;
      assert key !in contents.Keys;
    }

    /** The splice of `dictDelete`: `de` is node `j` of bucket `h`, `prevde` the one before it. */
    method Unlink(de: Node<K, V>, prevde: Node?<K, V>, h: nat, ghost j: nat)
      requires Valid() && h < size && j < |rows[h]| && de == rows[h][j]
      requires prevde == if j == 0 then null else rows[h][j - 1]
      modifies this`used, this`rows, this`nodes, this`live, this`links, this`contents, table, live`next
      ensures Valid() && contents == Drop(old(contents), de.key) && nodes == Drop(old(nodes), de.key)
      ensures live == old(live) - {de} && rows == Shortened(old(rows), h, j)
    {
      hide *;
      ValidParts();
      UnlinkFacts(h, j);
      ghost var heads := table[..];
      SpliceKeeps(hash, links, heads, rows, nodes, h, j);
      RemoveKeeps(hash, rows, nodes, h, j);
      Splice(de, prevde, h, heads);
      Erase(de, Shortened(rows, h, j));
    }

    /** Counts `de` out. */
    method Erase(de: Node<K, V>, ghost rows': seq<seq<Node<K, V>>>)
      requires Tied() && Stored() && de in live && table.Length == size == |rows'| && GoodSize(size)
      requires size <= INT_ENTRIES && sizemask == (if size == 0 then 0 else size - 1)
      requires Placed(hash, rows') && Holds(hash, rows', Drop(nodes, de.key)) && AllLinked(links, table[..], rows')
      requires used == Total(rows') + 1 == |contents|
      modifies this`used, this`rows, this`nodes, this`live, this`contents
      ensures Valid() && contents == Drop(old(contents), de.key) && nodes == Drop(old(nodes), de.key)
      ensures live == old(live) - {de} && rows == rows'
    {
      hide *;
      Forget(de);
      rows := rows';
      used := used - 1;
      PartsValid();
    }

    /** The two pointer writes of the splice. */
    method Splice(de: Node<K, V>, prevde: Node?<K, V>, h: nat, ghost heads: seq<Node?<K, V>>)
      requires heads == table[..]
      requires h < table.Length && de in live && Tied() && (prevde != null ==> prevde in live && prevde != de)
      modifies this`links, table, (if prevde == null then {} else {prevde})`next
      ensures Tied()
      ensures links == LinksAfter(old(links), prevde, de)
      ensures table[..] == HeadsAfter(old(links), heads, prevde, de, h)
    {
      if prevde != null {
        prevde.next := de.next;
        links := links[prevde := links[de]];
      } else {
        table[h] := de.next;
        assert table[..] == heads[h := links[de]];
      }
    }

    /** Node `de` is not live any more. */
    ghost method Forget(de: Node<K, V>)
      requires Tied() && Stored() && de in live
      modifies this`nodes, this`live, this`contents
      ensures Tied() && Stored() && |contents| == |old(contents)| - 1 && live == old(live) - {de}
      ensures nodes == Drop(old(nodes), de.key) && contents == Drop(old(contents), de.key)
    {
      DropOne(contents, de.key);
      live := live - {de};
      nodes := nodes - {de.key};
      contents := contents - {de.key};
    }

    lemma ValidParts()
      requires Valid()
      ensures table.Length == size == |rows| && Tied() && Stored() && GoodSize(size)
      ensures size <= INT_ENTRIES && sizemask == (if size == 0 then 0 else size - 1)
      ensures Placed(hash, rows) && Holds(hash, rows, nodes) && AllLinked(links, table[..], rows)
      ensures used == Total(rows) && used == |contents|
    {
    }

    lemma PartsValid()
      requires table.Length == size == |rows| && Tied() && Stored() && GoodSize(size)
      requires size <= INT_ENTRIES && sizemask == (if size == 0 then 0 else size - 1)
      requires Placed(hash, rows) && Holds(hash, rows, nodes) && AllLinked(links, table[..], rows)
      requires used == Total(rows) && used == |contents|
      ensures Valid()
    {
    }

    lemma UnlinkFacts(h: nat, j: nat)
      requires Valid() && h < size && j < |rows[h]|
      ensures Distinct(rows[h]) && rows[h][j] in live && links[rows[h][j]] == rows[h][j].next
      ensures j > 0 ==> rows[h][j - 1] in live && rows[h][j - 1] != rows[h][j]
      ensures rows[h][j].key in contents
    {
      hide Index;
      RowsApart(hash, rows, nodes, h);
      assert Linked(links, table[..][h], rows[h]);
      LinkedNext(links, table[h], rows[h], j);
      if j > 0 {
        LinkedNext(links, table[h], rows[h], j - 1);
      }
    }

    /** `dictDelete`: false stands for DICT_ERR, not found. The node is spliced out of its list and freed. */
    method Delete(key: K) returns (ok: bool)
      requires Valid()
      modifies this`used, this`rows, this`nodes, this`live, this`links, this`contents, table, live
      ensures Valid() && contents == Drop(old(contents), key) && (ok <==> key in old(nodes))
      ensures nodes == Drop(old(nodes), key) && live == old(live) - (if ok then {old(nodes)[key]} else {})
      ensures rows == Spliced(hash, old(rows), key)
    {
      hide Index, Placed, Holds, AllLinked, Linked, Tied, Stored, Distinct, InMap, NodeAt, GoodSize, Total, Spliced;
      if size == 0 {
        NoNodes();
        SameContents(key);
        NothingToSplice(key);
        return false;
      }
      RowOf(key);
      var h := And(hash(key), sizemask);
      var de := table[h];
      var prevde: Node?<K, V> := null;
      ghost var j, row := 0, rows[h];
      StepAlong(de, row, 0);
      while de != null
        invariant 0 <= j <= |row| && de == NodeAt(row, j) && forall i | 0 <= i < j :: row[i].key != key
        invariant prevde == if j == 0 then null else NodeAt(row, j - 1)
        modifies {}
        decreases |row| - j
      {
        StepAlong(table[h], row, j);
        if de.key == key {
          break;
        }
        prevde := de;
        de := de.next;
        j := j + 1;
      }
      StepAlong(table[h], row, j);
      Searched(row, j, key);
      if de == null {
        SameContents(key);
        NothingToSplice(key);
        return false;
      }
      FreeEntry(de, prevde, h, j);
      return true;
    }

    /** The found entry is taken out of its list and freed. */
    method FreeEntry(de: Node<K, V>, prevde: Node?<K, V>, h: nat, ghost j: nat)
      requires Valid() && h < size && h == Index(hash, de.key, size - 1) && j < |rows[h]| && de == rows[h][j]
      requires prevde == if j == 0 then null else NodeAt(rows[h], j - 1)
      modifies this`used, this`rows, this`nodes, this`live, this`links, this`contents, table, live
      ensures Valid() && contents == Drop(old(contents), de.key) && nodes == Drop(old(nodes), de.key)
      ensures live == old(live) - {de} && rows == Spliced(hash, old(rows), de.key)
    {
      hide *;
      ValidParts();
      UnlinkFacts(h, j);
      Cut(de.key, j);
      if j > 0 {
        NodeAtIs(rows[h], j - 1);
      }
      Unlink(de, prevde, h, j);
      Free(de);
    }

    lemma Sizes()
      requires Valid()
      ensures table.Length == size == |rows|
    {
    }

    lemma RowHead(b: nat)
      requires Valid() && b < size
      ensures table.Length == size == |rows| && table[b] == NodeAt(rows[b], 0)
    {
      hide Placed, Holds, Stored, Tied, Total, GoodSize;
      assert Linked(links, table[..][b], rows[b]);
    }

    /** The first node of the rest of a row is live, and its `next` starts what comes after it. */
    lemma NextInRow(b: nat, todo: seq<Node<K, V>>)
      requires Valid() && b < |rows| && todo != [] && Suffix(todo, rows[b])
      ensures todo[0] in live && todo[0].next == NodeAt(todo[1..], 0)
    {
      hide Placed, Holds, Stored, Tied, Total, GoodSize, Linked, AllLinked, LinkAt;
      ValidParts();
      RowHead(b);
      RowLive(b);
      var i := |rows[b]| - |todo|;
      AllLinkedAt(links, table[..], rows, b);
      assert rows[b][i] == todo[0];
      LinkedNext(links, table[b], rows[b], i);
      TiedNext(rows[b], i);
      assert rows[b][i..] == todo;
    }

    lemma LiveValue(n: Node<K, V>)
      requires Valid() && n in live
      ensures n.key in contents && contents[n.key] == n.val
    {
      hide Placed, Holds, AllLinked, Tied, Total, GoodSize;
      assert n.key in contents.Keys;
    }

    /** Only live nodes may be read. */
    function KeyOf(n: Node<K, V>): K
      requires n in live
      reads this`live
    {
      n.key
    }

    function ValOf(n: Node<K, V>): V
      requires n in live
      reads this`live, n`val
    {
      n.val
    }

    function NextOf(n: Node<K, V>): Node?<K, V>
      requires n in live
      reads this`live, n`next
    {
      n.next
    }

    lemma Cut(key: K, j: nat)
      requires Valid() && size > 0
      requires var row := rows[Index(hash, key, size - 1)]; j < |row| && row[j].key == key
      ensures Shortened(rows, Index(hash, key, size - 1), j) == Spliced(hash, rows, key)
    {
      hide Index, Holds, AllLinked, Tied, Stored, Total, Without;
      var row := rows[Index(hash, key, size - 1)];
      WithoutAt(row, j);
    }
  }

  /** There is one power of two between a power of two and its double. */
  lemma {:induction false} PowerGap(p: nat, q: nat)
    requires IsPowerOfTwo(p) && IsPowerOfTwo(q) && q <= p < 2 * q
    ensures p == q
  {
    if q > 1 {
      PowerGap(p / 2, q / 2);
    }
  }

  function Max(a: nat, b: nat): nat { if a > b then a else b }
}
