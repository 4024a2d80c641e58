/**
  Whole runs of the list operations: what every run keeps, what moves conserve, and
  how a run of deletions is undone.
 */
module Runs {
  import opened Rings
  import opened Lists

  // ----- arbitrary runs

  function Run<T(==)>(m: Memory<T>, ops: seq<Op<T>>): Memory<T>
    decreases |ops|
  {
    if ops == [] then m else Run(Apply(m, ops[0]), ops[1..])
  }

  /** Every operation of the run is enabled where it is performed. */
  predicate RunEnabled<T(==)>(lists: Contents<T>, ops: seq<Op<T>>)
    decreases |ops|
  {
    ops == [] || (Enabled(lists, ops[0]) && RunEnabled(Effect(lists, ops[0]), ops[1..]))
  }

  function RunEffect<T(==)>(lists: Contents<T>, ops: seq<Op<T>>): Contents<T>
    requires RunEnabled(lists, ops)
    decreases |ops|
  {
    if ops == [] then lists else RunEffect(Effect(lists, ops[0]), ops[1..])
  }

  /** Safety over whole runs: from any family of lists, any enabled run of pointer
      operations leaves exactly the lists that the same run of sequence operations leaves. */
  lemma {:induction false} RunRefines<T>(m: Memory<T>, lists: Contents<T>, ops: seq<Op<T>>)
    requires Wf(m, lists) && RunEnabled(lists, ops)
    ensures Wf(Run(m, ops), RunEffect(lists, ops))
    decreases |ops|
  {
    if ops == [] {
    } else {
      ApplyRefines(m, lists, ops[0]);
      RunRefines(Apply(m, ops[0]), Effect(lists, ops[0]), ops[1..]);
    }
  }

  function LinkedNodes<T(==)>(lists: Contents<T>): set<T> {
    set d, x | d in lists && x in Cycle(lists, d) :: x
  }

  /** In a family of lists `e->next->prev == e == e->prev->next` for every head and member. */
  lemma WfIsMirrored<T>(m: Memory<T>, lists: Contents<T>)
    requires Wf(m, lists)
    ensures Mirrored(m, LinkedNodes(lists))
  {
    var nodes := LinkedNodes(lists);
    forall x | x in nodes
      ensures MirroredAt(m, nodes, x)
    {
      var d :| d in lists && x in Cycle(lists, d);
      RingIsMirrored(m, Cycle(lists, d));
      assert MirroredAt(m, (set y | y in Cycle(lists, d)), x);
    }
  }

  /** A run that starts with no lists at all, on a memory holding anything. */
  lemma RunFromNothing<T>(m: Memory<T>, ops: seq<Op<T>>)
    requires RunEnabled(map[], ops)
    ensures Wf(Run(m, ops), RunEffect(map[], ops))
    ensures Mirrored(Run(m, ops), LinkedNodes(RunEffect(map[], ops)))
  {
    assert Wf(m, map[]);
    RunRefines(m, map[], ops);
    WfIsMirrored(Run(m, ops), RunEffect(map[], ops));
  }

  lemma {:induction false} RunConcat<T>(m: Memory<T>, lists: Contents<T>, ops: seq<Op<T>>, ops': seq<Op<T>>)
    requires RunEnabled(lists, ops) && RunEnabled(RunEffect(lists, ops), ops')
    ensures RunEnabled(lists, ops + ops')
    ensures RunEffect(lists, ops + ops') == RunEffect(RunEffect(lists, ops), ops')
    ensures Run(m, ops + ops') == Run(Run(m, ops), ops')
    decreases |ops|
  {
    if ops == [] {
      assert ops + ops' == ops';
    } else {
      assert (ops + ops')[1..] == ops[1..] + ops';
      RunConcat(Apply(m, ops[0]), Effect(lists, ops[0]), ops[1..], ops');
    }
  }

  /** Families of lists that share no node and hold none twice. */
  ghost predicate ProperLists<T>(lists: Contents<T>) {
    Disjoint(lists) && forall d :: d in lists ==> Distinct(Cycle(lists, d))
  }

  lemma RunOneMore<T>(lists: Contents<T>, ops: seq<Op<T>>, op: Op<T>)
    requires RunEnabled(lists, ops) && Enabled(RunEffect(lists, ops), op)
    ensures RunEnabled(lists, ops + [op])
    ensures RunEffect(lists, ops + [op]) == Effect(RunEffect(lists, ops), op)
  {
    var last: seq<Op<T>> := [op];
    var none: seq<Op<T>> := [];
    var before := RunEffect(lists, ops);
    assert last[1..] == none && RunEnabled(Effect(before, op), none);
    assert RunEnabled(before, last) && RunEffect(before, last) == Effect(before, op);
    RunConcat(Memory(map[], map[]), lists, ops, last);
  }

  /** A family with its last node or its empty list taken away. */
  lemma TakeAway<T>(lists: Contents<T>, d: T, less: Contents<T>, x: T)
    requires ProperLists(lists) && d in lists
    requires if lists[d] == [] then x == d && less == lists - {d}
             else x == lists[d][|lists[d]| - 1] && less == lists[d := lists[d][..|lists[d]| - 1]]
    ensures ProperLists(less) && !Linked(less, x) && LinkedNodes(less) < LinkedNodes(lists)
  {
    var c := Cycle(lists, d);
    assert x in c && x in LinkedNodes(lists);
    forall e | e in less
      ensures Distinct(Cycle(less, e)) && x !in Cycle(less, e)
      ensures forall y :: y in Cycle(less, e) ==> y in Cycle(lists, e)
    {
      if e == d {
        assert Cycle(less, e) == c[..|c| - 1] && x == c[|c| - 1];
      } else {
        assert Cycle(less, e) == Cycle(lists, e);
        Apart(lists, d, e, x);
      }
    }
  }

  /** Every such family is built by a run. */
  lemma {:induction false} BuildLists<T>(lists: Contents<T>) returns (ops: seq<Op<T>>)
    requires ProperLists(lists)
    ensures RunEnabled(map[], ops) && RunEffect(map[], ops) == lists
    decreases LinkedNodes(lists)
  {
    if lists == map[] {
      ops := [];
    } else {
      var d :| d in lists;
      var n := |lists[d]|;
      var less := if n == 0 then lists - {d} else lists[d := lists[d][..n - 1]];
      var x := if n == 0 then d else lists[d][n - 1];
      var op := if n == 0 then OpInit(d) else OpAddTail(x, d);
      TakeAway(lists, d, less, x);
      ops := BuildLists(less);
      assert n > 0 ==> lists[d][..n - 1] + [x] == lists[d];
      assert Effect(less, op) == lists;
      RunOneMore(map[], ops, op);
      ops := ops + [op];
    }
  }

  /** The runs that start with no lists lead to exactly the families that share no node and hold
      none twice. */
  lemma ReachableIff<T>(lists: Contents<T>)
    ensures (exists ops :: RunEnabled(map[], ops) && RunEffect(map[], ops) == lists) <==> ProperLists(lists)
  {
    if ops :| RunEnabled(map[], ops) && RunEffect(map[], ops) == lists {
      RunFromNothing(Memory(map[], map[]), ops);
    }
    if ProperLists(lists) {
      var ops := BuildLists(lists);
    }
  }

  /** Two families with the same heads that describe one memory are the same family. */
  lemma WfUnique<T>(m: Memory<T>, lists: Contents<T>, lists': Contents<T>)
    requires Wf(m, lists) && Wf(m, lists') && lists.Keys == lists'.Keys
    ensures lists == lists'
  {
    forall d | d in lists
      ensures lists[d] == lists'[d]
    {
      RingUnique(m, Cycle(lists, d), Cycle(lists', d));
      assert lists[d] == Cycle(lists, d)[1..] == Cycle(lists', d)[1..] == lists'[d];
    }
  }

  // ----- one list at a time

  /** An operation on one list leaves the nodes, the order and every pointer of all the
      other lists as they were. */
  lemma OtherListsUntouched<T>(m: Memory<T>, lists: Contents<T>, op: Op<T>, d: T)
    requires Wf(m, lists) && Enabled(lists, op) && d in lists
    requires if op.OpDel? then op.entry !in lists[d] else op.list != d
    ensures d in Effect(lists, op) && Effect(lists, op)[d] == lists[d]
    ensures forall x :: x in Cycle(lists, d) ==>
              Next(Apply(m, op), x) == Next(m, x) && Prev(Apply(m, op), x) == Prev(m, x)
  {
    match op
    case OpInit(list) =>
      assert list !in Cycle(lists, d);
    case OpAdd(entry, list) =>
      RingNeighbours(m, Cycle(lists, list), 0);
      InsertElsewhere(m, lists, entry, list, 1, d);
    case OpAddTail(entry, list) =>
      RingNeighbours(m, Cycle(lists, list), 0);
      InsertElsewhere(m, lists, entry, list, |Cycle(lists, list)|, d);
    case OpDel(entry) =>
      var list :| list in lists && entry in lists[list];
      DelElsewhere(m, lists, entry, list, d);
  }

  // ----- moves between lists

  datatype Move<T> = ToFront(entry: T, list: T) | ToBack(entry: T, list: T)

  /** `list_del`, then `list_add` or `list_add_tail` on a list. */
  function MoveOps<T>(mv: Move<T>): seq<Op<T>> {
    match mv
    case ToFront(entry, list) => [OpDel(entry), OpAdd(entry, list)]
    case ToBack(entry, list) => [OpDel(entry), OpAddTail(entry, list)]
  }

  function MoveRunOps<T>(mvs: seq<Move<T>>): seq<Op<T>> {
    if mvs == [] then [] else MoveOps(mvs[0]) + MoveRunOps(mvs[1..])
  }

  function Members<T(==)>(lists: Contents<T>): set<T> {
    set d, x | d in lists && x in lists[d] :: x
  }

  /** Deleting a node takes it off every list and nothing else. */
  lemma AfterDel<T>(m: Memory<T>, lists: Contents<T>, entry: T)
    requires Wf(m, lists) && OnList(lists, entry)
    ensures Members(Effect(lists, OpDel(entry))) == Members(lists) - {entry}
    ensures Effect(lists, OpDel(entry)).Keys == lists.Keys
    ensures !Linked(Effect(lists, OpDel(entry)), entry)
  {
    var lists' := Effect(lists, OpDel(entry));
    forall d, x | d in lists
      ensures x in lists'[d] <==> x in lists[d] && x != entry
    {
      WithoutMembers(lists[d], entry, x);
    }
    assert Members(lists') == Members(lists) - {entry};
    var list :| list in lists && entry in lists[list];
    var j :| 0 <= j < |lists[list]| && lists[list][j] == entry;
    assert Cycle(lists, list)[j + 1] == entry;
    forall d | d in lists'
      ensures entry !in Cycle(lists', d)
    {
      if d != list {
        Apart(lists, list, d, entry);
        assert d in Cycle(lists, d);
      } else {
        assert Ring(m, Cycle(lists, d)) && Cycle(lists, d)[0] == d;
        assert entry !in lists'[d];
      }
    }
  }

  /** A move needs only that its node is on some list and its destination is a list. */
  predicate Movable<T(==)>(lists: Contents<T>, mv: Move<T>) {
    OnList(lists, mv.entry) && mv.list in lists
  }

  /** A run of two operations, step by step. */
  lemma RunOfTwo<T>(lists: Contents<T>, ops: seq<Op<T>>)
    requires |ops| == 2 && Enabled(lists, ops[0]) && Enabled(Effect(lists, ops[0]), ops[1])
    ensures RunEnabled(lists, ops)
    ensures RunEffect(lists, ops) == Effect(Effect(lists, ops[0]), ops[1])
  {
    var lists1 := Effect(lists, ops[0]);
    var lists2 := Effect(lists1, ops[1]);
    assert ops[1..][0] == ops[1] && ops[1..][1..] == [];
    assert RunEnabled(lists2, ops[1..][1..]);
    assert RunEnabled(lists1, ops[1..]) && RunEffect(lists1, ops[1..]) == lists2;
  }

  /** Adding a free node adds it to the members. */
  lemma AfterAdd<T>(lists: Contents<T>, op: Op<T>)
    requires Enabled(lists, op) && (op.OpAdd? || op.OpAddTail?)
    ensures Members(Effect(lists, op)) == Members(lists) + {op.entry}
    ensures Effect(lists, op).Keys == lists.Keys
  {
    var lists' := Effect(lists, op);
    assert op.entry in lists'[op.list];
    forall x | x in Members(lists)
      ensures x in Members(lists')
    {
      var d :| d in lists && x in lists[d];
      assert x in lists'[d];
    }
    assert Members(lists') == Members(lists) + {op.entry};
  }

  /** A move is possible; it takes its node off its list and puts it at one end of the destination. */
  lemma MoveEffect<T>(m: Memory<T>, lists: Contents<T>, mv: Move<T>)
    requires Wf(m, lists) && Movable(lists, mv)
    ensures RunEnabled(lists, MoveOps(mv))
    ensures var without := map d | d in lists :: Without(lists[d], mv.entry);
            var to := if mv.ToFront? then [mv.entry] + without[mv.list] else without[mv.list] + [mv.entry];
            && RunEffect(lists, MoveOps(mv)) == without[mv.list := to]
            && Wf(Run(m, MoveOps(mv)), without[mv.list := to])
  {
    var ops := MoveOps(mv);
    AfterDel(m, lists, mv.entry);
    RunOfTwo(lists, ops);
    RunRefines(m, lists, ops);
  }

  lemma MoveConserves<T>(m: Memory<T>, lists: Contents<T>, mv: Move<T>)
    requires Wf(m, lists) && Movable(lists, mv)
    ensures RunEnabled(lists, MoveOps(mv))
    ensures Members(RunEffect(lists, MoveOps(mv))) == Members(lists)
    ensures RunEffect(lists, MoveOps(mv)).Keys == lists.Keys
  {
    var ops := MoveOps(mv);
    AfterDel(m, lists, mv.entry);
    AfterAdd(Effect(lists, ops[0]), ops[1]);
    RunOfTwo(lists, ops);
    assert mv.entry in Members(lists);
  }

  lemma StillMovable<T>(m: Memory<T>, lists: Contents<T>, mvs: seq<Move<T>>)
    requires Wf(m, lists) && mvs != []
    requires forall mv :: mv in mvs ==> Movable(lists, mv)
    ensures RunEnabled(lists, MoveOps(mvs[0]))
    ensures forall mv :: mv in mvs[1..] ==> Movable(RunEffect(lists, MoveOps(mvs[0])), mv)
  {
    MoveConserves(m, lists, mvs[0]);
    var lists' := RunEffect(lists, MoveOps(mvs[0]));
    forall mv | mv in mvs[1..]
      ensures Movable(lists', mv)
    {
      assert mv in mvs && Movable(lists, mv);
      assert mv.entry in Members(lists');
    }
  }

  /** Any run of moves between lists is possible, keeps the lists disjoint rings, and
      conserves the nodes: since no node is on two lists or twice on one (Wf), equality of
      the member sets says that every node is still on exactly one list. */
  lemma {:induction false} MovesConserve<T>(m: Memory<T>, lists: Contents<T>, mvs: seq<Move<T>>)
    requires Wf(m, lists)
    requires forall mv :: mv in mvs ==> Movable(lists, mv)
    ensures RunEnabled(lists, MoveRunOps(mvs))
    ensures Wf(Run(m, MoveRunOps(mvs)), RunEffect(lists, MoveRunOps(mvs)))
    ensures Members(RunEffect(lists, MoveRunOps(mvs))) == Members(lists)
    ensures RunEffect(lists, MoveRunOps(mvs)).Keys == lists.Keys
    decreases |mvs|
  {
    if mvs == [] {
    } else {
      var ops := MoveOps(mvs[0]);
      MoveConserves(m, lists, mvs[0]);
      RunRefines(m, lists, ops);
      var lists' := RunEffect(lists, ops);
      StillMovable(m, lists, mvs);
      MovesConserve(Run(m, ops), lists', mvs[1..]);
      RunConcat(m, lists, ops, MoveRunOps(mvs[1..]));
    }
  }

  lemma AfterMove<T>(m: Memory<T>, lists: Contents<T>, mv: Move<T>, x: T, d: T)
    requires Wf(m, lists) && Movable(lists, mv) && d in lists
    ensures RunEnabled(lists, MoveOps(mv)) && d in RunEffect(lists, MoveOps(mv))
    ensures x in RunEffect(lists, MoveOps(mv))[d] <==> if x == mv.entry then d == mv.list else x in lists[d]
  {
    MoveEffect(m, lists, mv);
    WithoutMembers(lists[d], mv.entry, x);
  }

  /** The run after its first move. */
  lemma AfterFirstMove<T>(m: Memory<T>, lists: Contents<T>, mvs: seq<Move<T>>)
    requires Wf(m, lists) && mvs != []
    requires forall mv :: mv in mvs ==> Movable(lists, mv)
    ensures RunEnabled(lists, MoveOps(mvs[0]))
    ensures var m', lists' := Run(m, MoveOps(mvs[0])), RunEffect(lists, MoveOps(mvs[0]));
            && Wf(m', lists') && lists'.Keys == lists.Keys
            && (forall mv :: mv in mvs[1..] ==> Movable(lists', mv))
            && RunEnabled(lists, MoveRunOps(mvs)) && RunEnabled(lists', MoveRunOps(mvs[1..]))
            && RunEffect(lists, MoveRunOps(mvs)) == RunEffect(lists', MoveRunOps(mvs[1..]))
  {
    var ops := MoveOps(mvs[0]);
    MoveConserves(m, lists, mvs[0]);
    RunRefines(m, lists, ops);
    StillMovable(m, lists, mvs);
    MovesConserve(Run(m, ops), RunEffect(lists, ops), mvs[1..]);
    RunConcat(m, lists, ops, MoveRunOps(mvs[1..]));
  }

  /** A node that no move names stays on its list. */
  lemma {:induction false} UnmovedStays<T>(m: Memory<T>, lists: Contents<T>, mvs: seq<Move<T>>, x: T, d: T)
    requires Wf(m, lists) && d in lists
    requires forall mv :: mv in mvs ==> Movable(lists, mv) && mv.entry != x
    ensures RunEnabled(lists, MoveRunOps(mvs)) && d in RunEffect(lists, MoveRunOps(mvs))
    ensures x in RunEffect(lists, MoveRunOps(mvs))[d] <==> x in lists[d]
    decreases |mvs|
  {
    if mvs != [] {
      AfterFirstMove(m, lists, mvs);
      AfterMove(m, lists, mvs[0], x, d);
      UnmovedStays(Run(m, MoveOps(mvs[0])), RunEffect(lists, MoveOps(mvs[0])), mvs[1..], x, d);
    }
  }

  /** After any run of moves a node is on the list that its last move names, and on no other. */
  lemma {:induction false} LastMoveDecides<T>(m: Memory<T>, lists: Contents<T>, mvs: seq<Move<T>>, j: nat, d: T)
    requires Wf(m, lists) && d in lists && j < |mvs|
    requires forall mv :: mv in mvs ==> Movable(lists, mv)
    requires forall i :: j < i < |mvs| ==> mvs[i].entry != mvs[j].entry
    ensures RunEnabled(lists, MoveRunOps(mvs)) && d in RunEffect(lists, MoveRunOps(mvs))
    ensures mvs[j].entry in RunEffect(lists, MoveRunOps(mvs))[d] <==> d == mvs[j].list
    decreases |mvs|
  {
    var x := mvs[j].entry;
    AfterFirstMove(m, lists, mvs);
    AfterMove(m, lists, mvs[0], x, d);
    var m', lists' := Run(m, MoveOps(mvs[0])), RunEffect(lists, MoveOps(mvs[0]));
    if j == 0 {
      UnmovedStays(m', lists', mvs[1..], x, d);
    } else {
      LastMoveDecides(m', lists', mvs[1..], j - 1, d);
    }
  }

  // ----- undoing deletions

  function DeleteAll<T(==)>(m: Memory<T>, es: seq<T>): Memory<T>
    decreases |es|
  {
    if es == [] then m else DeleteAll(Delete(m, es[0]), es[1..])
  }

  /** `__list_add(e, e->prev, e->next)`, with the fields that the node still holds. */
  function Relink<T(==)>(m: Memory<T>, e: T): Memory<T> {
    Insert(m, e, Prev(m, e), Next(m, e))
  }

  /** Relinks the nodes last to first. */
  function RelinkAll<T(==)>(m: Memory<T>, es: seq<T>): Memory<T>
    decreases |es|
  {
    if es == [] then m else Relink(RelinkAll(m, es[1..]), es[0])
  }

  /** `list_del` leaves the deleted node's own fields alone: this is what makes undoing possible. */
  lemma DeleteKeepsOwnFields<T>(m: Memory<T>, e: T)
    requires Next(m, e) != e && Prev(m, e) != e
    ensures Next(Delete(m, e), e) == Next(m, e) && Prev(Delete(m, e), e) == Prev(m, e)
  {
  }

  /** One deletion is undone by one relinking exactly when the node's neighbours pointed
      at it before. */
  lemma RelinkUndoesDeleteIff<T>(m: Memory<T>, e: T)
    requires e in m.next && e in m.prev && m.next[e] != e && m.prev[e] != e
    ensures Relink(Delete(m, e), e) == m <==> Arrow(m, m.prev[e], e) && Arrow(m, e, m.next[e])
  {
  }

  lemma MemberArrows<T>(m: Memory<T>, lists: Contents<T>, e: T)
    requires Wf(m, lists) && OnList(lists, e)
    ensures e in m.next && e in m.prev && m.next[e] != e && m.prev[e] != e
    ensures Arrow(m, m.prev[e], e) && Arrow(m, e, m.next[e])
  {
    var d :| d in lists && e in lists[d];
    var c := Cycle(lists, d);
    var j :| 0 <= j < |lists[d]| && lists[d][j] == e;
    assert c[j + 1] == e;
    RingNeighbours(m, c, j + 1);
    assert Arrow(m, c[j], Succ(c, j)) && Arrow(m, c[j + 1], Succ(c, j + 1));
  }

  /** Undo theorem: after deleting any distinct nodes from any of the lists, in any order,
      relinking them in the reverse order restores every pointer of the memory. */
  lemma {:induction false} UndoDeletions<T>(m: Memory<T>, lists: Contents<T>, es: seq<T>)
    requires Wf(m, lists) && Distinct(es)
    requires forall e :: e in es ==> OnList(lists, e)
    ensures RelinkAll(DeleteAll(m, es), es) == m
    decreases |es|
  {
    if es == [] {
    } else {
      var e := es[0];
      var m' := Delete(m, e);
      var lists' := Effect(lists, OpDel(e));
      ApplyRefines(m, lists, OpDel(e));
      AfterDel(m, lists, e);
      forall x | x in es[1..]
        ensures OnList(lists', x)
      {
        assert x in es && OnList(lists, x) && x != e;
        assert x in Members(lists');
      }
      UndoDeletions(m', lists', es[1..]);
      MemberArrows(m, lists, e);
      RelinkUndoesDeleteIff(m, e);
    }
  }

  lemma HeadIsNoMember<T>(m: Memory<T>, lists: Contents<T>, head: T)
    requires Wf(m, lists) && head in lists
    ensures !OnList(lists, head)
  {
    var c := Cycle(lists, head);
    assert Ring(m, c) && c[0] == head;
    forall d | d in lists
      ensures head !in lists[d]
    {
      if d != head {
        Apart(lists, head, d, head);
        assert lists[d] == Cycle(lists, d)[1..];
      } else {
        assert lists[d] == c[1..];
      }
    }
  }

  lemma {:induction false} DeleteOneMore<T>(m: Memory<T>, es: seq<T>, i: nat)
    requires i < |es|
    ensures DeleteAll(m, es[..i + 1]) == Delete(DeleteAll(m, es[..i]), es[i])
    decreases i
  {
    var none: seq<T> := [];
    if i == 0 {
      assert es[..1][1..] == none && es[..0] == none;
    } else {
      assert es[..i + 1][1..] == es[1..][..i] && es[..i][1..] == es[1..][..i - 1];
      DeleteOneMore(Delete(m, es[0]), es[1..], i - 1);
    }
  }

  /** The nodes of `s` that are not in `es`, in order. */
  function WithoutAll<T(==)>(s: seq<T>, es: seq<T>): seq<T> {
    if s == [] then []
    else (if s[0] in es then [] else [s[0]]) + WithoutAll(s[1..], es)
  }

  lemma {:induction false} WithoutOneMore<T>(s: seq<T>, es: seq<T>, e: T)
    ensures WithoutAll(s, es + [e]) == Without(WithoutAll(s, es), e)
  {
    if s == [] {
    } else {
      WithoutOneMore(s[1..], es, e);
      var rest := WithoutAll(s[1..], es);
      assert ([s[0]] + rest)[1..] == rest && [] + rest == rest;
    }
  }

  lemma {:induction false} WithoutNone<T>(s: seq<T>)
    ensures WithoutAll(s, []) == s
  {
    if s != [] {
      WithoutNone(s[1..]);
    }
  }

  function ListsWithout<T(==)>(lists: Contents<T>, es: seq<T>): Contents<T> {
    map d | d in lists :: WithoutAll(lists[d], es)
  }

  lemma OneMoreListsWithout<T>(lists: Contents<T>, es: seq<T>, e: T)
    requires OnList(ListsWithout(lists, es), e)
    ensures ListsWithout(lists, es + [e]) ==
              Effect(ListsWithout(lists, es), OpDel(e))
  {
    forall d | d in lists
      ensures WithoutAll(lists[d], es + [e]) == Without(WithoutAll(lists[d], es), e)
    {
      WithoutOneMore(lists[d], es, e);
    }
    assert ListsWithout(lists, es + [e]) == Effect(ListsWithout(lists, es), OpDel(e));
  }

  lemma ListsWithoutNone<T>(lists: Contents<T>)
    ensures ListsWithout(lists, []) == lists
  {
    forall d | d in lists
      ensures WithoutAll(lists[d], []) == lists[d]
    {
      WithoutNone(lists[d]);
    }
    assert ListsWithout(lists, []) == lists;
  }

  /** On the way through a run of deletions every memory is a family of lists that still holds
      the nodes to come. */
  lemma {:induction false} AfterDeletions<T>(m: Memory<T>, lists: Contents<T>, es: seq<T>, i: nat)
    returns (now: Contents<T>)
    requires Wf(m, lists) && Distinct(es) && i <= |es|
    requires forall e :: e in es ==> OnList(lists, e)
    ensures Wf(DeleteAll(m, es[..i]), now)
    ensures forall e :: e in es[i..] ==> OnList(now, e)
    ensures now.Keys == lists.Keys && Members(now) == Members(lists) - set e | e in es[..i]
    ensures now == ListsWithout(lists, es[..i])
    decreases i
  {
    if i == 0 {
      now := lists;
      var none: seq<T> := [];
      assert es[..0] == none;
      ListsWithoutNone(lists);
    } else {
      var before := AfterDeletions(m, lists, es, i - 1);
      var e := es[i - 1];
      assert e in es[i - 1..];
      now := Effect(before, OpDel(e));
      ApplyRefines(DeleteAll(m, es[..i - 1]), before, OpDel(e));
      AfterDel(DeleteAll(m, es[..i - 1]), before, e);
      DeleteOneMore(m, es, i - 1);
      assert es[..i] == es[..i - 1] + [e];
      OneMoreListsWithout(lists, es[..i - 1], e);
      forall x | x in es[i..]
        ensures OnList(now, x)
      {
        assert x in es[i - 1..] && x != e && x in Members(before);
        assert x in Members(now);
      }
    }
  }

  lemma {:induction false} EmptyWithoutAll<T>(s: seq<T>, es: seq<T>)
    ensures WithoutAll(s, es) == [] <==> forall x :: x in s ==> x in es
  {
    if s != [] {
      EmptyWithoutAll(s[1..], es);
      assert s == [s[0]] + s[1..];
    }
  }

  /** After deleting any distinct members of any of the lists, in any order, every list holds
      exactly the other nodes, in order. */
  lemma DeletionsLeaveOthers<T>(m: Memory<T>, lists: Contents<T>, es: seq<T>)
    requires Wf(m, lists) && Distinct(es)
    requires forall e :: e in es ==> OnList(lists, e)
    ensures Wf(DeleteAll(m, es), ListsWithout(lists, es))
  {
    var _ := AfterDeletions(m, lists, es, |es|);
    assert es[..|es|] == es;
  }

  // ----- undoing in the order of the deletions

  /** Relinks the nodes first to last. */
  function RelinkForward<T(==)>(m: Memory<T>, es: seq<T>): Memory<T>
    decreases |es|
  {
    if es == [] then m else RelinkForward(Relink(m, es[0]), es[1..])
  }

  /** The field `f0[x]` of a linked node names the node `es[i]` with lo <= i < hi, and `x` itself is
      not deleted before that node. */
  ghost predicate Pending<T>(f0: map<T, T>, nodes: set<T>, es: seq<T>, lo: nat, hi: nat, x: T) {
    && x in nodes && x in f0
    && exists i :: lo <= i < hi && i < |es| && f0[x] == es[i]
                   && forall j :: 0 <= j < |es| && es[j] == x ==> i < j
  }

  /** The fields `f` are `f0` except where a relinking is still to come. */
  ghost predicate OffWherePending<T>(f: map<T, T>, f0: map<T, T>, nodes: set<T>,
                                     es: seq<T>, lo: nat, hi: nat) {
    && f.Keys == f0.Keys
    && forall x :: x in f0 ==> f[x] == f0[x] || Pending(f0, nodes, es, lo, hi, x)
  }

  lemma OffAfterDelete<T>(f: map<T, T>, f0: map<T, T>, nodes: set<T>, es: seq<T>, k: nat, q: T, v: T)
    requires OffWherePending(f, f0, nodes, es, 0, k) && k < |es|
    requires q in nodes && q in f && f[q] == es[k] && q !in es[..k + 1]
    ensures OffWherePending(f[q := v], f0, nodes, es, 0, k + 1)
  {
    forall x | x in f0 && Pending(f0, nodes, es, 0, k, x)
      ensures Pending(f0, nodes, es, 0, k + 1, x)
    {
    }
    forall j | 0 <= j <= k
      ensures es[j] != q
    {
      assert es[j] in es[..k + 1];
    }
    assert f[q] == f0[q] ==> Pending(f0, nodes, es, 0, k + 1, q);
  }

  /** When its turn comes, the node's own field is right. */
  lemma OwnFieldIsRight<T>(f: map<T, T>, f0: map<T, T>, nodes: set<T>, es: seq<T>, k: nat)
    requires k < |es| && OffWherePending(f, f0, nodes, es, k, |es|) && es[k] in f0
    ensures f[es[k]] == f0[es[k]]
  {
  }

  ghost predicate InjectiveOn<T>(f: map<T, T>, nodes: set<T>) {
    forall x, y :: x in nodes && y in nodes && x in f && y in f && f[x] == f[y] ==> x == y
  }

  lemma OffAfterRelink<T>(f: map<T, T>, f0: map<T, T>, nodes: set<T>, es: seq<T>, k: nat, q: T)
    requires k < |es| && OffWherePending(f, f0, nodes, es, k, |es|)
    requires InjectiveOn(f0, nodes) && q in nodes && q in f0 && f0[q] == es[k]
    ensures OffWherePending(f[q := es[k]], f0, nodes, es, k + 1, |es|)
  {
    forall x | x in f0 && x != q && Pending(f0, nodes, es, k, |es|, x)
      ensures Pending(f0, nodes, es, k + 1, |es|, x)
    {
    }
  }

  lemma NothingPending<T>(f: map<T, T>, f0: map<T, T>, nodes: set<T>, es: seq<T>)
    requires OffWherePending(f, f0, nodes, es, |es|, |es|)
    ensures f == f0
  {
  }

  /** A neighbour of a node about to be deleted is linked, and has not been deleted before. */
  lemma NotYetDeleted<T>(m: Memory<T>, lists: Contents<T>, es: seq<T>, k: nat, now: Contents<T>, q: T)
    requires Wf(m, lists) && k < |es| && q != es[k]
    requires forall e :: e in es ==> OnList(lists, e)
    requires now.Keys == lists.Keys && Members(now) == Members(lists) - set e | e in es[..k]
    requires q in LinkedNodes(now)
    ensures q in LinkedNodes(lists) && q !in es[..k + 1]
  {
    assert es[..k + 1] == es[..k] + [es[k]];
    var d :| d in now && q in Cycle(now, d);
    if q == d {
      HeadIsNoMember(m, lists, q);
      assert q in Cycle(lists, q);
    } else {
      assert q in Members(now);
      var c :| c in lists && q in lists[c];
      assert q in Cycle(lists, c);
    }
  }

  /** Deleting a member writes one field of either kind. */
  lemma DeleteWrites<T>(m: Memory<T>, lists: Contents<T>, e: T)
    requires Wf(m, lists) && OnList(lists, e)
    ensures e in m.next && e in m.prev
    ensures var p, n := m.prev[e], m.next[e];
            && {p, n} <= LinkedNodes(lists) && p != e && n != e
            && p in m.next && m.next[p] == e && n in m.prev && m.prev[n] == e
            && Delete(m, e) == Memory(m.next[p := n], m.prev[n := p])
  {
    MemberArrows(m, lists, e);
    WfIsMirrored(m, lists);
    var d :| d in lists && e in lists[d];
    assert e in Cycle(lists, d);
    assert MirroredAt(m, LinkedNodes(lists), e);
  }

  /** One more deletion of a run, as writes to two nodes that are linked and not yet deleted. */
  lemma OneMoreDeletionWrites<T>(m: Memory<T>, lists: Contents<T>, es: seq<T>, k: nat)
    returns (p: T, n: T)
    requires Wf(m, lists) && Distinct(es) && k < |es|
    requires forall e :: e in es ==> OnList(lists, e)
    ensures {p, n} <= LinkedNodes(lists) && p !in es[..k + 1] && n !in es[..k + 1]
    ensures var r := DeleteAll(m, es[..k]);
            && p in r.next && r.next[p] == es[k] && n in r.prev && r.prev[n] == es[k]
            && DeleteAll(m, es[..k + 1]) == Memory(r.next[p := n], r.prev[n := p])
  {
    var r, e := DeleteAll(m, es[..k]), es[k];
    var now := AfterDeletions(m, lists, es, k);
    assert e in es[k..];
    DeleteWrites(r, now, e);
    p, n := r.prev[e], r.next[e];
    NotYetDeleted(m, lists, es, k, now, p);
    NotYetDeleted(m, lists, es, k, now, n);
    DeleteOneMore(m, es, k);
  }

  lemma {:induction false} OffAfterDeletions<T>(m: Memory<T>, lists: Contents<T>, es: seq<T>, k: nat)
    requires Wf(m, lists) && Distinct(es) && k <= |es|
    requires forall e :: e in es ==> OnList(lists, e)
    ensures OffWherePending(DeleteAll(m, es[..k]).next, m.next, LinkedNodes(lists), es, 0, k)
    ensures OffWherePending(DeleteAll(m, es[..k]).prev, m.prev, LinkedNodes(lists), es, 0, k)
    decreases k
  {
    if k == 0 {
      var none: seq<T> := [];
      assert es[..0] == none;
    } else {
      var r, nodes := DeleteAll(m, es[..k - 1]), LinkedNodes(lists);
      OffAfterDeletions(m, lists, es, k - 1);
      var p, n := OneMoreDeletionWrites(m, lists, es, k - 1);
      OffAfterDelete(r.next, m.next, nodes, es, k - 1, p, n);
      OffAfterDelete(r.prev, m.prev, nodes, es, k - 1, n, p);
    }
  }

  lemma LinksAreInjective<T>(m: Memory<T>, lists: Contents<T>)
    requires Wf(m, lists)
    ensures InjectiveOn(m.next, LinkedNodes(lists)) && InjectiveOn(m.prev, LinkedNodes(lists))
  {
    WfIsMirrored(m, lists);
    var nodes := LinkedNodes(lists);
    forall x | x in nodes
      ensures MirroredAt(m, nodes, x)
    {
    }
  }

  lemma RelinkWrites<T>(r: Memory<T>, p: T, e: T, n: T)
    requires e in r.next && r.next[e] == n && e in r.prev && r.prev[e] == p && p != e && n != e
    ensures Relink(r, e) == Memory(r.next[p := e], r.prev[n := e])
  {
  }

  /** From any state in which only pending fields are off, relinking the rest restores all. */
  lemma {:induction false} RelinkForwardFrom<T>(m: Memory<T>, lists: Contents<T>,
                                                es: seq<T>, k: nat, r: Memory<T>)
    requires Wf(m, lists) && k <= |es|
    requires forall e :: e in es ==> OnList(lists, e)
    requires OffWherePending(r.next, m.next, LinkedNodes(lists), es, k, |es|)
    requires OffWherePending(r.prev, m.prev, LinkedNodes(lists), es, k, |es|)
    ensures RelinkForward(r, es[k..]) == m
    decreases |es| - k
  {
    var nodes := LinkedNodes(lists);
    if k == |es| {
      NothingPending(r.next, m.next, nodes, es);
      NothingPending(r.prev, m.prev, nodes, es);
    } else {
      var e := es[k];
      DeleteWrites(m, lists, e);
      var p, n := m.prev[e], m.next[e];
      OwnFieldIsRight(r.next, m.next, nodes, es, k);
      OwnFieldIsRight(r.prev, m.prev, nodes, es, k);
      RelinkWrites(r, p, e, n);
      LinksAreInjective(m, lists);
      OffAfterRelink(r.next, m.next, nodes, es, k, p);
      OffAfterRelink(r.prev, m.prev, nodes, es, k, n);
      assert es[k..][1..] == es[k + 1..];
      RelinkForwardFrom(m, lists, es, k + 1, Relink(r, e));
    }
  }

  /** Relinking in the order of the deletions restores every pointer, too. */
  lemma UndoInOrder<T>(m: Memory<T>, lists: Contents<T>, es: seq<T>)
    requires Wf(m, lists) && Distinct(es)
    requires forall e :: e in es ==> OnList(lists, e)
    ensures RelinkForward(DeleteAll(m, es), es) == m
  {
    assert es[..|es|] == es == es[0..];
    OffAfterDeletions(m, lists, es, |es|);
    RelinkForwardFrom(m, lists, es, 0, DeleteAll(m, es));
  }

  lemma DeleteAndRelinkTwo<T>(m: Memory<T>, es: seq<T>)
    requires |es| == 2
    ensures DeleteAll(m, es) == Delete(Delete(m, es[0]), es[1])
    ensures RelinkAll(m, es) == Relink(Relink(m, es[1]), es[0])
    ensures RelinkForward(m, es) == Relink(Relink(m, es[0]), es[1])
  {
    var none: seq<T> := [];
    assert es[1..][0] == es[1] && es[1..][1..] == none;
    assert DeleteAll(Delete(m, es[0]), es[1..]) == Delete(Delete(m, es[0]), es[1]);
    assert RelinkAll(m, es[1..]) == Relink(RelinkAll(m, none), es[1]);
    assert RelinkForward(Relink(m, es[0]), es[1..]) == Relink(Relink(m, es[0]), es[1]);
  }

  /** In particular two deletions can be undone in either order. */
  lemma TwoUndoneInEitherOrder<T>(m: Memory<T>, lists: Contents<T>, a: T, b: T)
    requires Wf(m, lists) && OnList(lists, a) && OnList(lists, b) && a != b
    ensures Relink(Relink(Delete(Delete(m, a), b), b), a) == m
    ensures Relink(Relink(Delete(Delete(m, a), b), a), b) == m
  {
    var es: seq<T> :| es == [a, b];
    UndoDeletions(m, lists, es);
    UndoInOrder(m, lists, es);
    DeleteAndRelinkTwo(m, es);
    DeleteAndRelinkTwo(DeleteAll(m, es), es);
  }

  // ----- which orders undo three deletions

  /** The nodes `a`, `b` and `c` stand between `p` and `n`, which may be one node. */
  ghost predicate Between<T>(m: Memory<T>, p: T, a: T, b: T, c: T, n: T) {
    && Arrow(m, p, a) && Arrow(m, a, b) && Arrow(m, b, c) && Arrow(m, c, n)
    && Distinct([p, a, b, c]) && n !in {a, b, c}
  }

  function WithoutThree<T>(m: Memory<T>, p: T, a: T, b: T, c: T, n: T): Memory<T> {
    Memory(m.next[p := n], m.prev[b := p][c := p][n := p])
  }

  lemma DeleteThree<T>(m: Memory<T>, p: T, a: T, b: T, c: T, n: T)
    requires Between(m, p, a, b, c, n)
    ensures Delete(Delete(Delete(m, a), b), c) == WithoutThree(m, p, a, b, c, n)
  {
    assert [p, a, b, c][0] != a && [p, a, b, c][1] == a && [p, a, b, c][2] == b && [p, a, b, c][3] == c;
    assert Delete(m, a) == Memory(m.next[p := b], m.prev[b := p]);
    assert Delete(Delete(m, a), b) == Memory(m.next[p := c], m.prev[b := p][c := p]);
  }

  lemma MiddleFirst<T>(m: Memory<T>, p: T, a: T, b: T, c: T, n: T)
    requires Between(m, p, a, b, c, n)
    ensures var m' := Relink(WithoutThree(m, p, a, b, c, n), b);
            Relink(Relink(m', a), c) == m == Relink(Relink(m', c), a)
  {
    var m' := Relink(WithoutThree(m, p, a, b, c, n), b);
    assert m' == Memory(m.next[p := b], m.prev[b := p][n := p]);
    assert Relink(m', a) == Memory(m.next, m.prev[n := p]);
    assert Relink(m', c) == Memory(m.next[p := b], m.prev[b := p]);
  }

  lemma LastFirst<T>(m: Memory<T>, p: T, a: T, b: T, c: T, n: T)
    requires Between(m, p, a, b, c, n)
    ensures var m' := Relink(WithoutThree(m, p, a, b, c, n), c);
            Relink(Relink(m', a), b) == m == Relink(Relink(m', b), a)
  {
    var m' := Relink(WithoutThree(m, p, a, b, c, n), c);
    assert m' == Memory(m.next[p := c], m.prev[b := p][c := p]);
    assert Relink(m', a) == Memory(m.next, m.prev[c := p]);
    assert Relink(m', b) == Memory(m.next[p := b], m.prev[b := p]);
  }

  lemma FirstFirst<T>(m: Memory<T>, p: T, a: T, b: T, c: T, n: T)
    requires Between(m, p, a, b, c, n)
    ensures var m' := Relink(WithoutThree(m, p, a, b, c, n), a);
            Relink(Relink(m', b), c) == m && Next(Relink(Relink(m', c), b), p) == c
  {
    var m' := Relink(WithoutThree(m, p, a, b, c, n), a);
    assert m' == Memory(m.next, m.prev[c := p][n := p]);
    assert Relink(m', b) == Memory(m.next, m.prev[n := p]);
    assert Relink(m', c) == Memory(m.next[p := c], m.prev[c := p]);
  }

  lemma RelinkThree<T>(m: Memory<T>, order: seq<T>)
    requires |order| == 3
    ensures RelinkForward(m, order) == Relink(Relink(Relink(m, order[0]), order[1]), order[2])
  {
    var m1 := Relink(m, order[0]);
    var m2 := Relink(m1, order[1]);
    assert order[1..][0] == order[1] && order[1..][1..] == order[2..] && order[2..][0] == order[2];
    var none: seq<T> := [];
    assert order[2..][1..] == none;
    assert RelinkForward(m2, order[2..]) == Relink(m2, order[2]);
    assert RelinkForward(m1, order[1..]) == RelinkForward(m2, order[2..]);
  }

  lemma RingBetween<T>(m: Memory<T>, ring: seq<T>, k: nat)
    requires Ring(m, ring) && k + 3 < |ring|
    ensures Between(m, ring[k], ring[k + 1], ring[k + 2], ring[k + 3], Succ(ring, k + 3))
  {
    assert Arrow(m, ring[k], Succ(ring, k)) && Arrow(m, ring[k + 1], Succ(ring, k + 1));
    assert Arrow(m, ring[k + 2], Succ(ring, k + 2)) && Arrow(m, ring[k + 3], Succ(ring, k + 3));
  }

  lemma ThreeRelinked<T>(m: Memory<T>, p: T, a: T, b: T, c: T, n: T, x: T, y: T, z: T)
    requires Between(m, p, a, b, c, n) && {x, y, z} == {a, b, c}
    ensures var m' := Relink(Relink(Relink(WithoutThree(m, p, a, b, c, n), x), y), z);
            if x == a && y == c then Next(m', p) == c else m' == m
  {
    assert [p, a, b, c][1] == a && [p, a, b, c][2] == b && [p, a, b, c][3] == c;
    assert a in {x, y, z} && b in {x, y, z} && c in {x, y, z} && x in {a, b, c} && y in {a, b, c};
    if x == a {
      FirstFirst(m, p, a, b, c, n);
    } else if x == b {
      MiddleFirst(m, p, a, b, c, n);
    } else {
      LastFirst(m, p, a, b, c, n);
    }
  }

  lemma OneOrder<T>(a: T, b: T, c: T, order: seq<T>)
    requires a != b && b != c && |order| == 3 && {order[0], order[1], order[2]} == {a, b, c}
    ensures order == [a, c, b] <==> order[0] == a && order[1] == c
  {
    assert b in {order[0], order[1], order[2]};
  }

  /** Of the six orders in which three consecutive nodes of any ring, deleted from first to last,
      can be relinked, exactly one does not restore the memory: first, last, middle.  It leaves
      the node before them pointing at the last. */
  lemma ThreeUndoneIff<T>(m: Memory<T>, ring: seq<T>, k: nat, order: seq<T>)
    requires Ring(m, ring) && k + 3 < |ring|
    requires |order| == 3 && {order[0], order[1], order[2]} == {ring[k + 1], ring[k + 2], ring[k + 3]}
    ensures var p, a, b, c := ring[k], ring[k + 1], ring[k + 2], ring[k + 3];
            var m' := RelinkForward(Delete(Delete(Delete(m, a), b), c), order);
            && (m' == m <==> order != [a, c, b])
            && (order == [a, c, b] ==> Next(m', p) == c)
  {
    var p, a, b, c, n := ring[k], ring[k + 1], ring[k + 2], ring[k + 3], Succ(ring, k + 3);
    RingBetween(m, ring, k);
    DeleteThree(m, p, a, b, c, n);
    RelinkThree(WithoutThree(m, p, a, b, c, n), order);
    ThreeRelinked(m, p, a, b, c, n, order[0], order[1], order[2]);
    OneOrder(a, b, c, order);
    assert Next(m, p) == a != c;
  }

  // ----- why a node must be free before it is added

  /** The memory is again a family of lists with the same heads, on which nothing is lost and
      `e` is linked. */
  ghost predicate KeepsLists<T>(m: Memory<T>, lists: Contents<T>, e: T, lists': Contents<T>) {
    Wf(m, lists') && lists'.Keys == lists.Keys && LinkedNodes(lists) + {e} <= LinkedNodes(lists')
  }

  lemma NothingLost<T>(lists: Contents<T>, lists': Contents<T>, e: T, list: T)
    requires list in lists && lists'.Keys == lists.Keys
    requires forall d :: d in lists && d != list ==> lists'[d] == lists[d]
    requires lists'[list] == [e] + lists[list] || lists'[list] == lists[list] + [e]
    ensures LinkedNodes(lists) + {e} <= LinkedNodes(lists')
  {
    assert e in Cycle(lists', list);
    forall d, x | d in lists && x in Cycle(lists, d)
      ensures x in Cycle(lists', d)
    {
    }
  }

  lemma LinkedHasPrevious<T>(m: Memory<T>, lists: Contents<T>, e: T)
    requires Wf(m, lists) && Linked(lists, e)
    ensures Prev(m, e) in LinkedNodes(lists) && Next(m, Prev(m, e)) == e
    ensures Prev(m, e) == e ==> e in lists
  {
    WfIsMirrored(m, lists);
    assert MirroredAt(m, LinkedNodes(lists), e);
    if OnList(lists, e) {
      MemberArrows(m, lists, e);
    } else {
      var d :| d in lists && e in Cycle(lists, d);
      assert e == d;
    }
  }

  /** No two linked nodes have the same next node. */
  lemma LinkedNextInjective<T>(m: Memory<T>, lists: Contents<T>, x: T, y: T)
    requires Wf(m, lists) && {x, y} <= LinkedNodes(lists) && Next(m, x) == Next(m, y)
    ensures x == y
  {
    WfIsMirrored(m, lists);
    assert MirroredAt(m, LinkedNodes(lists), x) && MirroredAt(m, LinkedNodes(lists), y);
  }

  /** A head is no neighbour of another head. */
  lemma HeadsAreNoNeighbours<T>(m: Memory<T>, lists: Contents<T>, d: T, e: T)
    requires Wf(m, lists) && d in lists && e in lists && (Next(m, d) == e || Prev(m, d) == e)
    ensures d == e
  {
    var c := Cycle(lists, d);
    RingNeighbours(m, c, 0);
    assert e in c && e in Cycle(lists, e);
  }

  /** A head that is its own predecessor has an empty list. */
  lemma AloneIsEmpty<T>(m: Memory<T>, lists: Contents<T>, list: T)
    requires Wf(m, lists) && list in lists && Prev(m, list) == list
    ensures lists[list] == []
  {
    var c := Cycle(lists, list);
    RingNeighbours(m, c, 0);
    assert Ring(m, c) && c[|c| - 1] == c[0];
  }

  /** Adding a node that is linked makes two nodes lead to it, or makes a head the neighbour
      of another. */
  lemma AddLinkedFails<T>(m: Memory<T>, lists: Contents<T>, e: T, list: T, lists': Contents<T>)
    requires Wf(m, lists) && list in lists && Linked(lists, e) && !(e == list && lists[list] == [])
    ensures !KeepsLists(Add(m, e, list), lists, e, lists')
  {
    var m', q := Add(m, e, list), Prev(m, e);
    LinkedHasPrevious(m, lists, e);
    assert list in Cycle(lists, list) && list in LinkedNodes(lists);
    assert Next(m', list) == e;
    if KeepsLists(m', lists, e, lists') {
      if q == e {
        HeadsAreNoNeighbours(m', lists', list, e);
        AloneIsEmpty(m, lists, list);
      } else {
        LinkedNextInjective(m', lists', list, if q == list then e else q);
      }
    }
  }

  lemma AddTailLinkedFails<T>(m: Memory<T>, lists: Contents<T>, e: T, list: T, lists': Contents<T>)
    requires Wf(m, lists) && list in lists && Linked(lists, e) && !(e == list && lists[list] == [])
    ensures !KeepsLists(AddTail(m, e, list), lists, e, lists')
  {
    var m', q, last := AddTail(m, e, list), Prev(m, e), Prev(m, list);
    assert list in Cycle(lists, list);
    LinkedHasPrevious(m, lists, e);
    LinkedHasPrevious(m, lists, list);
    assert Next(m', last) == e;
    if KeepsLists(m', lists, e, lists') {
      if q == e {
        if e == list {
          AloneIsEmpty(m, lists, list);
        } else {
          HeadsAreNoNeighbours(m', lists', list, e);
        }
      } else {
        LinkedNextInjective(m', lists', last, if q == last then e else q);
      }
    }
  }

  /** `list_add` keeps a family of lists exactly when the node is not linked anywhere, neither
      on this list nor on another, nor as a head (adding a head to its own empty list changes
      nothing). */
  lemma AddKeepsListsIff<T>(m: Memory<T>, lists: Contents<T>, e: T, list: T)
    requires Wf(m, lists) && list in lists
    ensures (exists lists' :: KeepsLists(Add(m, e, list), lists, e, lists'))
            <==> !Linked(lists, e) || (e == list && lists[list] == [])
  {
    if !Linked(lists, e) {
      AddRefines(m, lists, e, list);
      NothingLost(lists, lists[list := [e] + lists[list]], e, list);
      assert KeepsLists(Add(m, e, list), lists, e, lists[list := [e] + lists[list]]);
    } else if e == list && lists[list] == [] {
      RingNeighbours(m, Cycle(lists, list), 0);
      assert Add(m, e, list) == m;
      assert KeepsLists(m, lists, e, lists);
    } else {
      forall lists': Contents<T>
        ensures !KeepsLists(Add(m, e, list), lists, e, lists')
      {
        AddLinkedFails(m, lists, e, list, lists');
      }
    }
  }

  /** The same for `list_add_tail`. */
  lemma AddTailKeepsListsIff<T>(m: Memory<T>, lists: Contents<T>, e: T, list: T)
    requires Wf(m, lists) && list in lists
    ensures (exists lists' :: KeepsLists(AddTail(m, e, list), lists, e, lists'))
            <==> !Linked(lists, e) || (e == list && lists[list] == [])
  {
    if !Linked(lists, e) {
      AddTailRefines(m, lists, e, list);
      NothingLost(lists, lists[list := lists[list] + [e]], e, list);
      assert KeepsLists(AddTail(m, e, list), lists, e, lists[list := lists[list] + [e]]);
    } else if e == list && lists[list] == [] {
      RingNeighbours(m, Cycle(lists, list), 0);
      assert AddTail(m, e, list) == m;
      assert KeepsLists(m, lists, e, lists);
    } else {
      forall lists': Contents<T>
        ensures !KeepsLists(AddTail(m, e, list), lists, e, lists')
      {
        AddTailLinkedFails(m, lists, e, list, lists');
      }
    }
  }

  ghost predicate KeepsRing<T>(m: Memory<T>, c: seq<T>, e: T, c': seq<T>)
    requires c != []
  {
    Ring(m, c') && c'[0] == c[0] && e in c' && forall x :: x in c ==> x in c'
  }

  lemma RingAsList<T>(m: Memory<T>, c: seq<T>, e: T, c': seq<T>)
    requires c != [] && KeepsRing(m, c, e, c')
    ensures KeepsLists(m, map[c[0] := c[1..]], e, map[c[0] := c'[1..]])
  {
    var lists, lists' := map[c[0] := c[1..]], map[c[0] := c'[1..]];
    assert Cycle(lists, c[0]) == c && Cycle(lists', c[0]) == c';
  }

  lemma ListAsRing<T>(m: Memory<T>, c: seq<T>, e: T, lists': Contents<T>)
    requires c != [] && KeepsLists(m, map[c[0] := c[1..]], e, lists')
    ensures c[0] in lists' && KeepsRing(m, c, e, Cycle(lists', c[0]))
  {
    var lists := map[c[0] := c[1..]];
    assert c[0] in lists.Keys && Cycle(lists, c[0]) == c;
    forall x | x in c || x == e
      ensures x in Cycle(lists', c[0])
    {
      assert x in LinkedNodes(lists) + {e};
    }
  }

  lemma RingKeptIffListsKept<T>(m: Memory<T>, c: seq<T>, e: T)
    requires c != []
    ensures (exists c' :: KeepsRing(m, c, e, c'))
            <==> exists lists' :: KeepsLists(m, map[c[0] := c[1..]], e, lists')
  {
    if c' :| KeepsRing(m, c, e, c') {
      RingAsList(m, c, e, c');
    }
    if lists' :| KeepsLists(m, map[c[0] := c[1..]], e, lists') {
      ListAsRing(m, c, e, lists');
    }
  }

  lemma RingAsOneList<T>(m: Memory<T>, c: seq<T>, e: T)
    requires Ring(m, c)
    ensures Wf(m, map[c[0] := c[1..]])
    ensures Linked(map[c[0] := c[1..]], e) <==> e in c
    ensures c[1..] == [] && e == c[0] <==> c == [e]
  {
    var lists := map[c[0] := c[1..]];
    assert Cycle(lists, c[0]) == c;
  }

  /** For a single list: one ring with all the old nodes and the new one. */
  lemma AddKeepsRingIff<T>(m: Memory<T>, c: seq<T>, e: T)
    requires Ring(m, c)
    ensures (exists c' :: KeepsRing(Add(m, e, c[0]), c, e, c')) <==> e !in c || c == [e]
  {
    var lists := map[c[0] := c[1..]];
    RingAsOneList(m, c, e);
    AddKeepsListsIff(m, lists, e, c[0]);
    RingKeptIffListsKept(Add(m, e, c[0]), c, e);
  }
}
