/**
  Several lists over one memory, and runs of the operations of utils.h on them.

  The abstract state maps every list head to the sequence of the nodes on that list.
  Wf relates it to a memory: each list is one ring through its head, and the rings
  are pairwise disjoint.
 */
module Lists {
  import opened Rings

  type Contents<T> = map<T, seq<T>>

  function Cycle<T>(lists: Contents<T>, list: T): seq<T>
    requires list in lists
  {
    [list] + lists[list]
  }

  ghost predicate Disjoint<T>(lists: Contents<T>) {
    forall d, d', x :: d in lists && d' in lists && x in Cycle(lists, d) && x in Cycle(lists, d') ==> d == d'
  }

  ghost predicate Wf<T>(m: Memory<T>, lists: Contents<T>) {
    && (forall d :: d in lists ==> Ring(m, Cycle(lists, d)))
    && Disjoint(lists)
  }

  /** `x` is a list head or is on a list. */
  predicate Linked<T(==)>(lists: Contents<T>, x: T) {
    exists d :: d in lists && x in Cycle(lists, d)
  }

  lemma MemberLinked<T>(lists: Contents<T>, list: T, x: T)
    requires list in lists && (x == list || x in lists[list])
    ensures Linked(lists, x)
  {
  }

  predicate OnList<T(==)>(lists: Contents<T>, x: T) {
    exists d :: d in lists && x in lists[d]
  }

  // ----- reading a list

  /** The node at position `i` of a list; behind the last one comes the head. */
  function NodeOrHead<T>(lists: Contents<T>, list: T, i: nat): T
    requires list in lists && i <= |lists[list]|
  {
    if i < |lists[list]| then lists[list][i] else list
  }

  lemma NextInList<T>(m: Memory<T>, lists: Contents<T>, list: T, i: nat)
    requires Wf(m, lists) && list in lists && i < |lists[list]|
    ensures Next(m, lists[list][i]) == NodeOrHead(lists, list, i + 1)
    ensures lists[list][i] != list
  {
    var c := Cycle(lists, list);
    assert c[i + 1] == lists[list][i] && Ring(m, c) && c[0] == list;
    RingNeighbours(m, c, i + 1);
  }

  // ----- operations

  datatype Op<T> =
    | OpInit(list: T)
    | OpAdd(entry: T, list: T)
    | OpAddTail(entry: T, list: T)
    | OpDel(entry: T)

  /** What the callers of the operations must see to: a node that is given to INIT_LIST_HEAD
      or is added is not in use, and only nodes that are on a list are deleted. */
  predicate Enabled<T(==)>(lists: Contents<T>, op: Op<T>) {
    match op
    case OpInit(list) => !Linked(lists, list)
    case OpAdd(entry, list) => list in lists && !Linked(lists, entry)
    case OpAddTail(entry, list) => list in lists && !Linked(lists, entry)
    case OpDel(entry) => OnList(lists, entry)
  }

  /** The effect on the memory. */
  function Apply<T(==)>(m: Memory<T>, op: Op<T>): Memory<T> {
    match op
    case OpInit(list) => Init(m, list)
    case OpAdd(entry, list) => Add(m, entry, list)
    case OpAddTail(entry, list) => AddTail(m, entry, list)
    case OpDel(entry) => Delete(m, entry)
  }

  function Without<T(==)>(s: seq<T>, e: T): seq<T> {
    if s == [] then []
    else if s[0] == e then Without(s[1..], e)
    else [s[0]] + Without(s[1..], e)
  }

  /** The effect on the sequences. */
  function Effect<T(==)>(lists: Contents<T>, op: Op<T>): Contents<T>
    requires Enabled(lists, op)
  {
    match op
    case OpInit(list) => lists[list := []]
    case OpAdd(entry, list) => lists[list := [entry] + lists[list]]
    case OpAddTail(entry, list) => lists[list := lists[list] + [entry]]
    case OpDel(entry) => map d | d in lists :: Without(lists[d], entry)
  }

  lemma {:induction false} WithoutAbsent<T>(s: seq<T>, e: T)
    requires e !in s
    ensures Without(s, e) == s
  {
    if s == [] {
    } else {
      WithoutAbsent(s[1..], e);
    }
  }

  /** On distinct nodes, dropping a node is removing the one position that holds it. */
  lemma {:induction false} WithoutIsRemoveAt<T>(s: seq<T>, k: nat)
    requires Distinct(s) && k < |s|
    ensures Without(s, s[k]) == RemoveAt(s, k)
  {
    if k == 0 {
      WithoutAbsent(s[1..], s[0]);
    } else {
      WithoutIsRemoveAt(s[1..], k - 1);
      assert RemoveAt(s, k) == [s[0]] + RemoveAt(s[1..], k - 1);
    }
  }

  /** The nodes left by Without are exactly the other ones. */
  lemma {:induction false} WithoutMembers<T>(s: seq<T>, e: T, x: T)
    ensures x in Without(s, e) <==> x in s && x != e
  {
    if s == [] {
    } else {
      WithoutMembers(s[1..], e, x);
    }
  }

  // ----- one operation

  lemma InitRefines<T>(m: Memory<T>, lists: Contents<T>, list: T)
    requires Wf(m, lists) && !Linked(lists, list)
    ensures Wf(Init(m, list), lists[list := []])
  {
  }

  lemma Apart<T>(lists: Contents<T>, d: T, d': T, x: T)
    requires Disjoint(lists) && d in lists && d' in lists && d != d' && x in Cycle(lists, d)
    ensures x !in Cycle(lists, d')
  {
  }

  lemma InsertElsewhere<T>(m: Memory<T>, lists: Contents<T>, entry: T, list: T, k: nat, d: T)
    requires Wf(m, lists) && list in lists && !Linked(lists, entry) && 1 <= k <= |lists[list]| + 1
    requires d in lists && d != list
    ensures var c := Cycle(lists, list);
            var m' := Insert(m, entry, c[k - 1], Succ(c, k - 1));
            && Ring(m', Cycle(lists, d))
            && forall x :: x in Cycle(lists, d) ==> Next(m', x) == Next(m, x) && Prev(m', x) == Prev(m, x)
  {
    var c := Cycle(lists, list);
    Apart(lists, list, d, c[k - 1]);
    Apart(lists, list, d, Succ(c, k - 1));
    InsertFrame(m, Cycle(lists, d), entry, c[k - 1], Succ(c, k - 1));
  }

  lemma DisjointAfterGrowth<T>(lists: Contents<T>, lists': Contents<T>, entry: T, list: T)
    requires Disjoint(lists) && list in lists && !Linked(lists, entry)
    requires lists'.Keys == lists.Keys
    requires forall d :: d in lists && d != list ==> lists'[d] == lists[d]
    requires forall x :: x in Cycle(lists', list) ==> x == entry || x in Cycle(lists, list)
    ensures Disjoint(lists')
  {
  }

  /** Inserting a free node between two neighbours of one ring, at any place of it. */
  lemma InsertRefines<T>(m: Memory<T>, lists: Contents<T>, entry: T, list: T, k: nat)
    requires Wf(m, lists) && list in lists && !Linked(lists, entry) && 1 <= k <= |lists[list]| + 1
    ensures var c := Cycle(lists, list);
            Wf(Insert(m, entry, c[k - 1], Succ(c, k - 1)), lists[list := InsertAt(c, k, entry)[1..]])
  {
    var c := Cycle(lists, list);
    var p, n := c[k - 1], Succ(c, k - 1);
    var lists' := lists[list := InsertAt(c, k, entry)[1..]];
    assert Cycle(lists', list) == InsertAt(c, k, entry);
    forall d | d in lists'
      ensures Ring(Insert(m, entry, p, n), Cycle(lists', d))
    {
      if d == list {
        InsertRing(m, c, k, entry);
      } else {
        assert Cycle(lists', d) == Cycle(lists, d);
        InsertElsewhere(m, lists, entry, list, k, d);
      }
    }
    DisjointAfterGrowth(lists, lists', entry, list);
  }

  lemma AddRefines<T>(m: Memory<T>, lists: Contents<T>, entry: T, list: T)
    requires Wf(m, lists) && list in lists && !Linked(lists, entry)
    ensures Wf(Add(m, entry, list), lists[list := [entry] + lists[list]])
  {
    var c := Cycle(lists, list);
    InsertRefines(m, lists, entry, list, 1);
    RingNeighbours(m, c, 0);
    assert InsertAt(c, 1, entry)[1..] == [entry] + lists[list];
  }

  lemma AddTailRefines<T>(m: Memory<T>, lists: Contents<T>, entry: T, list: T)
    requires Wf(m, lists) && list in lists && !Linked(lists, entry)
    ensures Wf(AddTail(m, entry, list), lists[list := lists[list] + [entry]])
  {
    var c := Cycle(lists, list);
    InsertRefines(m, lists, entry, list, |c|);
    RingNeighbours(m, c, 0);
    assert InsertAt(c, |c|, entry)[1..] == lists[list] + [entry];
  }

  lemma DisjointAfterShrink<T>(lists: Contents<T>, lists': Contents<T>)
    requires Disjoint(lists) && lists'.Keys == lists.Keys
    requires forall d, x :: d in lists && x in lists'[d] ==> x in lists[d]
    ensures Disjoint(lists')
  {
    forall d, d', x | d in lists' && d' in lists' && x in Cycle(lists', d) && x in Cycle(lists', d')
      ensures d == d'
    {
      assert x in Cycle(lists, d) && x in Cycle(lists, d');
    }
  }

  lemma DelElsewhere<T>(m: Memory<T>, lists: Contents<T>, entry: T, list: T, d: T)
    requires Wf(m, lists) && list in lists && entry in lists[list] && d in lists && d != list
    ensures Without(lists[d], entry) == lists[d]
    ensures Ring(Delete(m, entry), Cycle(lists, d))
    ensures forall x :: x in Cycle(lists, d) ==>
              Next(Delete(m, entry), x) == Next(m, x) && Prev(Delete(m, entry), x) == Prev(m, x)
  {
    var c := Cycle(lists, list);
    var j :| 0 <= j < |lists[list]| && lists[list][j] == entry;
    assert c[j + 1] == entry;
    RingNeighbours(m, c, j + 1);
    Apart(lists, list, d, entry);
    Apart(lists, list, d, Succ(c, j + 1));
    Apart(lists, list, d, c[j]);
    WithoutAbsent(lists[d], entry);
    DeleteFrame(m, Cycle(lists, d), entry);
  }

  lemma CycleWithout<T>(lists: Contents<T>, list: T, k: nat)
    requires list in lists && Distinct(Cycle(lists, list)) && 1 <= k < |Cycle(lists, list)|
    ensures [list] + Without(lists[list], Cycle(lists, list)[k]) == RemoveAt(Cycle(lists, list), k)
  {
    var c := Cycle(lists, list);
    assert c[1..] == lists[list];
    WithoutIsRemoveAt(lists[list], k - 1);
  }

  lemma DelRefines<T>(m: Memory<T>, lists: Contents<T>, entry: T, list: T)
    requires Wf(m, lists) && list in lists && entry in lists[list]
    ensures Wf(Delete(m, entry), map d | d in lists :: Without(lists[d], entry))
  {
    var lists' := map d | d in lists :: Without(lists[d], entry);
    var c := Cycle(lists, list);
    var j :| 0 <= j < |lists[list]| && lists[list][j] == entry;
    var k := j + 1;
    assert c[k] == entry;
    RingNeighbours(m, c, k);
    forall d | d in lists'
      ensures Ring(Delete(m, entry), Cycle(lists', d))
    {
      if d == list {
        DeleteRing(m, c, k);
        CycleWithout(lists, list, k);
      } else {
        DelElsewhere(m, lists, entry, list, d);
      }
    }
    forall d, x | d in lists && x in lists'[d]
      ensures x in lists[d]
    {
      WithoutMembers(lists[d], entry, x);
    }
    DisjointAfterShrink(lists, lists');
  }

  /** Every enabled operation on the pointers has exactly its effect on the sequences:
      the memory stays a family of disjoint rings, one for each head. */
  lemma ApplyRefines<T>(m: Memory<T>, lists: Contents<T>, op: Op<T>)
    requires Wf(m, lists) && Enabled(lists, op)
    ensures Wf(Apply(m, op), Effect(lists, op))
  {
    match op
    case OpInit(list) => InitRefines(m, lists, list);
    case OpAdd(entry, list) => AddRefines(m, lists, entry, list);
    case OpAddTail(entry, list) => AddTailRefines(m, lists, entry, list);
    case OpDel(entry) =>
      var d :| d in lists && entry in lists[d];
      DelRefines(m, lists, entry, d);
  }
}
