/**
  The pointer memory behind `struct list_head` (utils.h), as a value.

  A Memory records what the `next` and `prev` fields of nodes hold.  The functions
  Insert and Delete perform the field writes of `__list_add` and `list_del` in the
  order in which the C code performs them, so that calls in which two of the
  pointers are the same node (an empty list, for instance) get the C meaning.

  A Ring is what these writes are meant to maintain: a cycle of distinct nodes in
  which `next` and `prev` undo each other.
 */
module Rings {

  datatype Memory<T(==)> = Memory(next: map<T, T>, prev: map<T, T>)

  /** Reads `x->next`.  A field that was never written reads as the node itself;
      Arrow, and so Ring, only holds of fields that were written. */
  function Next<T(==)>(m: Memory<T>, x: T): T {
    if x in m.next then m.next[x] else x
  }

  /** Reads `x->prev`. */
  function Prev<T(==)>(m: Memory<T>, x: T): T {
    if x in m.prev then m.prev[x] else x
  }

  function SetNext<T(==)>(m: Memory<T>, x: T, y: T): Memory<T> {
    m.(next := m.next[x := y])
  }

  function SetPrev<T(==)>(m: Memory<T>, x: T, y: T): Memory<T> {
    m.(prev := m.prev[x := y])
  }

  /** INIT_LIST_HEAD. */
  function Init<T(==)>(m: Memory<T>, list: T): Memory<T> {
    SetPrev(SetNext(m, list, list), list, list)
  }

  /** `__list_add`: four writes, in this order. */
  function Insert<T(==)>(m: Memory<T>, entry: T, prev: T, next: T): Memory<T> {
    var m := SetPrev(m, next, entry);
    var m := SetNext(m, entry, next);
    var m := SetPrev(m, entry, prev);
    SetNext(m, prev, entry)
  }

  /** `list_add`. */
  function Add<T(==)>(m: Memory<T>, entry: T, list: T): Memory<T> {
    Insert(m, entry, list, Next(m, list))
  }

  /** `list_add_tail`. */
  function AddTail<T(==)>(m: Memory<T>, entry: T, list: T): Memory<T> {
    Insert(m, entry, Prev(m, list), list)
  }

  /** `list_del`: two writes; the second reads the fields again after the first. */
  function Delete<T(==)>(m: Memory<T>, entry: T): Memory<T> {
    var m := SetPrev(m, Next(m, entry), Prev(m, entry));
    SetNext(m, Prev(m, entry), Next(m, entry))
  }

  /** `b` follows `a`, and both nodes say so. */
  predicate Arrow<T(==)>(m: Memory<T>, a: T, b: T) {
    && a in m.next && m.next[a] == b
    && b in m.prev && m.prev[b] == a
  }

  ghost predicate Distinct<T>(c: seq<T>) {
    forall i, j :: 0 <= i < j < |c| ==> c[i] != c[j]
  }

  /** The node after position `i` of the cycle `c`. */
  function Succ<T>(c: seq<T>, i: nat): T
    requires i < |c|
  {
    if i + 1 < |c| then c[i + 1] else c[0]
  }

  /** `c` is a cycle of distinct nodes, linked in both directions. */
  ghost predicate Ring<T>(m: Memory<T>, c: seq<T>) {
    && c != []
    && Distinct(c)
    && forall i :: 0 <= i < |c| ==> Arrow(m, c[i], Succ(c, i))
  }

  // ----- what the writes do to one ring

  function InsertAt<T>(c: seq<T>, k: nat, e: T): seq<T>
    requires k <= |c|
  {
    c[..k] + [e] + c[k..]
  }

  function RemoveAt<T>(c: seq<T>, k: nat): seq<T>
    requires k < |c|
  {
    c[..k] + c[k + 1..]
  }

  /** Inserting a new node between two neighbours inserts it at that place of the cycle. */
  lemma InsertRing<T>(m: Memory<T>, c: seq<T>, k: nat, e: T)
    requires Ring(m, c) && 1 <= k <= |c| && e !in c
    ensures Ring(Insert(m, e, c[k - 1], Succ(c, k - 1)), InsertAt(c, k, e))
  {
    var m' := Insert(m, e, c[k - 1], Succ(c, k - 1));
    var c' := InsertAt(c, k, e);
    forall i | 0 <= i < |c'|
      ensures Arrow(m', c'[i], Succ(c', i))
    {
      if i < k - 1 {
        assert Arrow(m, c[i], Succ(c, i));
      } else if i > k {
        assert c'[i] == c[i - 1] && Succ(c', i) == Succ(c, i - 1);
        assert Arrow(m, c[i - 1], Succ(c, i - 1));
      }
    }
  }

  /** Deleting a node other than the first removes it from the cycle. */
  lemma DeleteRing<T>(m: Memory<T>, c: seq<T>, k: nat)
    requires Ring(m, c) && 1 <= k < |c|
    ensures Ring(Delete(m, c[k]), RemoveAt(c, k))
  {
    var m' := Delete(m, c[k]);
    var c' := RemoveAt(c, k);
    assert Arrow(m, c[k - 1], Succ(c, k - 1)) && Arrow(m, c[k], Succ(c, k));
    forall i | 0 <= i < |c'|
      ensures Arrow(m', c'[i], Succ(c', i))
    {
      if i < k - 1 {
        assert Arrow(m, c[i], Succ(c, i));
      } else if i >= k {
        assert c'[i] == c[i + 1] && Succ(c', i) == Succ(c, i + 1);
        assert Arrow(m, c[i + 1], Succ(c, i + 1));
      }
    }
  }

  /** A ring none of whose nodes is written by `__list_add` is untouched. */
  lemma InsertFrame<T>(m: Memory<T>, c: seq<T>, e: T, p: T, n: T)
    requires Ring(m, c) && e !in c && p !in c && n !in c
    ensures Ring(Insert(m, e, p, n), c)
    ensures forall x :: x in c ==> Next(Insert(m, e, p, n), x) == Next(m, x)
    ensures forall x :: x in c ==> Prev(Insert(m, e, p, n), x) == Prev(m, x)
  {
  }

  /** A ring is untouched by `list_del` of a node whose neighbours lie outside it. */
  lemma DeleteFrame<T>(m: Memory<T>, c: seq<T>, e: T)
    requires Ring(m, c) && e !in c && Next(m, e) !in c && Prev(m, e) !in c
    ensures Ring(Delete(m, e), c)
    ensures forall x :: x in c ==> Next(Delete(m, e), x) == Next(m, x)
    ensures forall x :: x in c ==> Prev(Delete(m, e), x) == Prev(m, x)
  {
  }

  /** The neighbours of a node of a ring are in the ring. */
  lemma RingNeighbours<T>(m: Memory<T>, c: seq<T>, k: nat)
    requires Ring(m, c) && k < |c|
    ensures Next(m, c[k]) == Succ(c, k)
    ensures Prev(m, c[k]) == if k == 0 then c[|c| - 1] else c[k - 1]
    ensures c[k] in m.next && c[k] in m.prev
  {
  }

  // ----- what a ring means

  lemma {:induction false} RingPrefix<T>(m: Memory<T>, c: seq<T>, d: seq<T>, k: nat)
    requires Ring(m, c) && Ring(m, d) && c[0] == d[0]
    requires k < |c| && k < |d|
    ensures forall i :: 0 <= i <= k ==> c[i] == d[i]
  {
    if k == 0 {
    } else {
      RingPrefix(m, c, d, k - 1);
      RingNeighbours(m, c, k - 1);
      RingNeighbours(m, d, k - 1);
    }
  }

  lemma RingsSameLength<T>(m: Memory<T>, c: seq<T>, d: seq<T>)
    requires Ring(m, c) && Ring(m, d) && c[0] == d[0]
    requires |c| <= |d|
    ensures |c| == |d|
  {
    var k := |c| - 1;
    RingPrefix(m, c, d, k);
    RingNeighbours(m, c, k);
    RingNeighbours(m, d, k);
    assert Succ(d, k) == Succ(c, k) == d[0];
  }

  /** The memory determines the cycle: there is only one way to read it from a given node. */
  lemma RingUnique<T>(m: Memory<T>, c: seq<T>, d: seq<T>)
    requires Ring(m, c) && Ring(m, d) && c[0] == d[0]
    ensures c == d
  {
    if |c| <= |d| {
      RingsSameLength(m, c, d);
    } else {
      RingsSameLength(m, d, c);
    }
    RingPrefix(m, c, d, |c| - 1);
  }

  ghost predicate MirroredAt<T>(m: Memory<T>, nodes: set<T>, x: T) {
    && x in m.next && x in m.prev
    && m.next[x] in nodes && m.prev[x] in nodes
    && Arrow(m, x, m.next[x]) && Arrow(m, m.prev[x], x)
  }

  /** The local condition on a set of nodes: the neighbours of every node are in the
      set, and `e->next->prev == e == e->prev->next`. */
  ghost predicate Mirrored<T>(m: Memory<T>, nodes: set<T>) {
    forall x {:trigger MirroredAt(m, nodes, x)} :: x in nodes ==> MirroredAt(m, nodes, x)
  }

  /** Every ring satisfies the local condition. */
  lemma RingIsMirrored<T>(m: Memory<T>, c: seq<T>)
    requires Ring(m, c)
    ensures Mirrored(m, set x | x in c)
  {
    var nodes := set x | x in c;
    forall x | x in nodes
      ensures MirroredAt(m, nodes, x)
    {
      var k :| 0 <= k < |c| && c[k] == x;
      RingNeighbours(m, c, k);
      assert Arrow(m, c[k], Succ(c, k));
      var j := if k == 0 then |c| - 1 else k - 1;
      assert Arrow(m, c[j], Succ(c, j));
    }
  }

  lemma {:induction false} DistinctBound<T>(s: seq<T>, nodes: set<T>)
    requires Distinct(s) && forall x :: x in s ==> x in nodes
    ensures |s| <= |nodes|
  {
    if s == [] {
    } else {
      var x := s[|s| - 1];
      DistinctBound(s[..|s| - 1], nodes - {x});
    }
  }

  lemma {:induction false} CloseRing<T>(m: Memory<T>, nodes: set<T>, path: seq<T>) returns (c: seq<T>)
    requires Mirrored(m, nodes)
    requires path != [] && Distinct(path) && forall x :: x in path ==> x in nodes
    requires forall i :: 0 <= i < |path| - 1 ==> Arrow(m, path[i], path[i + 1])
    ensures Ring(m, c) && c[0] == path[0]
    ensures forall x :: x in c ==> x in nodes
    decreases |nodes| - |path|
  {
    var last := path[|path| - 1];
    assert MirroredAt(m, nodes, last);
    var following := m.next[last];
    if following == path[0] {
      c := path;
    } else {
      forall j | 0 <= j < |path|
        ensures path[j] != following
      {
        if j > 0 {
          assert Arrow(m, path[j - 1], path[j]);
        }
      }
      var longer := path + [following];
      DistinctBound(longer, nodes);
      c := CloseRing(m, nodes, longer);
    }
  }

  /** Conversely the local condition alone gives a ring through every node: following
      `next` from any node of a mirrored set comes back to that node first. */
  lemma MirroredGivesRing<T>(m: Memory<T>, nodes: set<T>, head: T) returns (c: seq<T>)
    requires Mirrored(m, nodes) && head in nodes
    ensures Ring(m, c) && c[0] == head
    ensures forall x :: x in c ==> x in nodes
  {
    assert [head][0] == head;
    c := CloseRing(m, nodes, [head]);
  }
}
