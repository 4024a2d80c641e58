/**
  `struct list_head` of utils.h as objects whose fields are updated in place.

  The ghost parameter `mem` of a method is the set of nodes under consideration; its
  Snapshot is the value that the methods are specified by.
 */
module ListHeads {
  import opened Rings
  import opened Lists
  import opened Runs
  import opened Iteration

  ghost function Snapshot(mem: set<ListHead>): Memory<ListHead>
    reads mem
  {
    Memory(map x | x in mem :: x.next, map x | x in mem :: x.prev)
  }

  class ListHead {
    var next: ListHead
    var prev: ListHead

    /** LIST_HEAD_INIT */
    constructor ()
      ensures next == this && prev == this
    {
      next, prev := this, this;
    }

    /** The assignment `this->next = x`, as the snapshot sees it. */
    method WriteNext(x: ListHead, ghost mem: set<ListHead>)
      requires this in mem
      modifies this`next
      ensures next == x
      ensures Snapshot(mem) == SetNext(old(Snapshot(mem)), this, x)
    {
      next := x;
      assert Snapshot(mem).prev == old(Snapshot(mem)).prev;
    }

    /** The assignment `this->prev = x`, as the snapshot sees it. */
    method WritePrev(x: ListHead, ghost mem: set<ListHead>)
      requires this in mem
      modifies this`prev
      ensures prev == x
      ensures Snapshot(mem) == SetPrev(old(Snapshot(mem)), this, x)
    {
      prev := x;
      assert Snapshot(mem).next == old(Snapshot(mem)).next;
    }
  }

  /** INIT_LIST_HEAD */
  method InitListHead(list: ListHead, ghost mem: set<ListHead>)
    requires list in mem
    modifies list
    ensures list.next == list && list.prev == list
    ensures Snapshot(mem) == Init(old(Snapshot(mem)), list)
  {
    list.WriteNext(list, mem);
    list.WritePrev(list, mem);
  }

  /** `__list_add` */
  method ListAddBetween(entry: ListHead, prev: ListHead, next: ListHead, ghost mem: set<ListHead>)
    requires {entry, prev, next} <= mem
    modifies entry, prev, next
    ensures prev.next == entry && entry.next == (if entry == prev then entry else next)
    ensures entry.prev == prev && next.prev == (if next == entry then prev else entry)
    ensures Snapshot(mem) == Insert(old(Snapshot(mem)), entry, prev, next)
  {
    next.WritePrev(entry, mem);
    entry.WriteNext(next, mem);
    entry.WritePrev(prev, mem);
    prev.WriteNext(entry, mem);
  }

  method ListAdd(entry: ListHead, list: ListHead, ghost mem: set<ListHead>)
    requires {entry, list, list.next} <= mem
    modifies entry, list, list.next
    ensures list.next == entry && entry.prev == list
    ensures entry != list ==> entry.next == old(list.next)
    ensures entry != old(list.next) ==> old(list.next).prev == entry
    ensures Snapshot(mem) == Add(old(Snapshot(mem)), entry, list)
  {
    ListAddBetween(entry, list, list.next, mem);
  }

  method ListAddTail(entry: ListHead, list: ListHead, ghost mem: set<ListHead>)
    requires {entry, list, list.prev} <= mem
    modifies entry, list, list.prev
    ensures old(list.prev).next == entry && entry.prev == old(list.prev)
    ensures entry != list ==> list.prev == entry
    ensures entry != old(list.prev) ==> entry.next == list
    ensures Snapshot(mem) == AddTail(old(Snapshot(mem)), entry, list)
  {
    ListAddBetween(entry, list.prev, list, mem);
  }

  method ListDel(entry: ListHead, ghost mem: set<ListHead>)
    requires {entry, entry.next, entry.prev} <= mem
    modifies entry.next, entry.prev
    ensures old(entry.next).prev == old(entry.prev) && old(entry.prev).next == old(entry.next)
    ensures Snapshot(mem) == Delete(old(Snapshot(mem)), entry)
  {
    entry.next.WritePrev(entry.prev, mem);
    entry.prev.WriteNext(entry.next, mem);
  }

  /** The nodes of the lists, and so their neighbours, are all in the snapshot. */
  lemma LinkedInMem(mem: set<ListHead>, lists: Contents<ListHead>, x: ListHead)
    requires Wf(Snapshot(mem), lists) && Linked(lists, x)
    ensures x in mem && x.next in mem && x.prev in mem
    ensures Linked(lists, x.next)
  {
    WfIsMirrored(Snapshot(mem), lists);
    var nodes := LinkedNodes(lists);
    assert MirroredAt(Snapshot(mem), nodes, x);
    assert MirroredAt(Snapshot(mem), nodes, x.next) && MirroredAt(Snapshot(mem), nodes, x.prev);
  }

  lemma StartIteration(mem: set<ListHead>, lists: Contents<ListHead>, list: ListHead,
                       plan: ListHead -> Action<ListHead>)
    requires Wf(Snapshot(mem), lists) && list in lists
    ensures Handled(Snapshot(mem), lists, list, plan, 0)
    ensures list.next == NodeOrHead(lists, list, 0)
  {
    OutcomeAtStart(lists, list, plan);
    MemberLinked(lists, list, list);
    LinkedInMem(mem, lists, list);
    FirstNode(Snapshot(mem), lists, list);
  }

  /** The entry about to be handled is on the list, and its `next` is the entry after it. */
  lemma CurrentEntry(mem: set<ListHead>, lists: Contents<ListHead>, list: ListHead,
                     plan: ListHead -> Action<ListHead>, i: nat)
    requires Handled(Snapshot(mem), lists, list, plan, i) && i < |lists[list]|
    requires NoneSentBack(lists[list], list, plan, i)
    ensures var e, now := lists[list][i], Outcome(lists, list, plan, i);
            && e in now[list] && e in mem && e.next in mem && e.prev in mem
            && e.next == NodeOrHead(lists, list, i + 1)
            && e.next != e && e.prev != e
  {
    var e, now := lists[list][i], Outcome(lists, list, plan, i);
    NodeStillLinked(lists, list, plan, i);
    LinkedInMem(mem, now, e);
    NextOfCurrent(Snapshot(mem), lists, list, plan, i);
    MemberArrows(Snapshot(mem), now, e);
  }

  method AttachEntry(entry: ListHead, a: Action<ListHead>,
                     ghost mem: set<ListHead>, ghost lists: Contents<ListHead>)
    requires Wf(Snapshot(mem), lists) && entry in mem
    requires (a.MoveFront? || a.MoveBack?) && a.to in lists
    modifies mem
    ensures Snapshot(mem) == if a.MoveFront? then Add(old(Snapshot(mem)), entry, a.to)
                             else AddTail(old(Snapshot(mem)), entry, a.to)
  {
    MemberLinked(lists, a.to, a.to);
    LinkedInMem(mem, lists, a.to);
    if a.MoveFront? {
      ListAdd(entry, a.to, mem);
    } else {
      ListAddTail(entry, a.to, mem);
    }
  }

  method PerformAction(entry: ListHead, a: Action<ListHead>, list: ListHead,
                       ghost mem: set<ListHead>, ghost lists: Contents<ListHead>)
    requires Wf(Snapshot(mem), lists)
    requires list in lists && entry in lists[list] && LeadsToList(lists, a)
    modifies mem
    ensures Snapshot(mem) == Perform(old(Snapshot(mem)), entry, a)
  {
    MemberLinked(lists, list, entry);
    LinkedInMem(mem, lists, entry);
    if a != Keep {
      ghost var m := Snapshot(mem);
      ListDel(entry, mem);
      ghost var lists' := Effect(lists, OpDel(entry));
      DelRefines(m, lists, entry, list);
      if a.MoveFront? || a.MoveBack? {
        AttachEntry(entry, a, mem, lists');
      }
    }
  }

  /** The loop body: what the plan says for the current entry. */
  method HandleEntry(entry: ListHead, plan: ListHead -> Action<ListHead>, list: ListHead,
                     ghost mem: set<ListHead>, ghost lists: Contents<ListHead>, ghost i: nat)
    requires Handled(Snapshot(mem), lists, list, plan, i)
    requires i < |lists[list]| && entry == lists[list][i] && LeadsToList(lists, plan(entry))
    requires NoneSentBack(lists[list], list, plan, i)
    modifies mem
    ensures Snapshot(mem) == Perform(old(Snapshot(mem)), entry, plan(entry))
    ensures Handled(Snapshot(mem), lists, list, plan, i + 1)
    ensures old(entry.next) == NodeOrHead(lists, list, i + 1)
  {
    CurrentEntry(mem, lists, list, plan, i);
    HandleNode(Snapshot(mem), lists, list, plan, i);
    PerformAction(entry, plan(entry), list, mem, Outcome(lists, list, plan, i));
  }

  /** `list_for_each_safe` over `list`, with any plan for the loop body: every node that was
      on the list is visited once, in order, and the lists end up as the plan says. */
  method ForEachSafe(list: ListHead, plan: ListHead -> Action<ListHead>,
                     ghost mem: set<ListHead>, ghost lists: Contents<ListHead>)
    returns (visited: seq<ListHead>)
    requires Wf(Snapshot(mem), lists) && list in lists
    requires SafePlan(lists, list, plan)
    modifies mem
    ensures visited == lists[list]
    ensures Wf(Snapshot(mem), Final(lists, list, plan))
  {
    visited := [];
    StartIteration(mem, lists, list, plan);
    var entry := list.next;
    var tmp := entry.next;
    ghost var i := 0;
    while entry != list
      invariant i <= |lists[list]| && visited == lists[list][..i]
      invariant Handled(Snapshot(mem), lists, list, plan, i)
      invariant entry == NodeOrHead(lists, list, i)
      invariant tmp == entry.next
      decreases |lists[list]| - i
    {
      visited := visited + [entry];
      HandleEntry(entry, plan, list, mem, lists, i);
      i := i + 1;
      entry := tmp;
      tmp := entry.next;
    }
    HeadOnlyAtEnd(Snapshot(mem), lists, list, plan, i);
    OutcomeAtEnd(lists, list, plan);
  }

  /** The loop body of the plain loop; the entry keeps its `next`, deleted or not. */
  method DeleteIfDoomed(entry: ListHead, doomed: ListHead -> bool, list: ListHead,
                        ghost mem: set<ListHead>, ghost lists: Contents<ListHead>, ghost i: nat)
    requires Handled(Snapshot(mem), lists, list, Deleting(doomed), i)
    requires i < |lists[list]| && entry == lists[list][i]
    modifies mem
    ensures Handled(Snapshot(mem), lists, list, Deleting(doomed), i + 1)
    ensures entry.next == NodeOrHead(lists, list, i + 1)
  {
    CurrentEntry(mem, lists, list, Deleting(doomed), i);
    HandleNode(Snapshot(mem), lists, list, Deleting(doomed), i);
    if doomed(entry) {
      ListDel(entry, mem);
    }
  }

  /** `list_for_each` (the plain loop), with a body that may `list_del` the current entry: it
      too visits every node once and in order, since a deleted node still leads to its
      successor. */
  method ForEachDeleting(list: ListHead, doomed: ListHead -> bool,
                         ghost mem: set<ListHead>, ghost lists: Contents<ListHead>)
    returns (visited: seq<ListHead>)
    requires Wf(Snapshot(mem), lists) && list in lists
    modifies mem
    ensures visited == lists[list]
    ensures Wf(Snapshot(mem), lists[list := Those(lists[list], doomed, false)])
  {
    ghost var plan := Deleting(doomed);
    visited := [];
    StartIteration(mem, lists, list, plan);
    var entry := list.next;
    ghost var i := 0;
    while entry != list
      invariant i <= |lists[list]| && visited == lists[list][..i]
      invariant Handled(Snapshot(mem), lists, list, plan, i)
      invariant entry == NodeOrHead(lists, list, i)
      decreases |lists[list]| - i
    {
      visited := visited + [entry];
      DeleteIfDoomed(entry, doomed, list, mem, lists, i);
      i := i + 1;
      entry := entry.next;
    }
    HeadOnlyAtEnd(Snapshot(mem), lists, list, plan, i);
    OutcomeAtEnd(lists, list, plan);
    FinalOfDeleting(lists, list, doomed);
  }

  /** `list_empty` */
  predicate ListEmpty(list: ListHead)
    reads list
  {
    list.next == list
  }

  lemma ListEmptyIff(mem: set<ListHead>, lists: Contents<ListHead>, list: ListHead)
    requires Wf(Snapshot(mem), lists) && list in lists
    ensures ListEmpty(list) <==> lists[list] == []
  {
    RingNeighbours(Snapshot(mem), Cycle(lists, list), 0);
  }

  // ----- undoing deletions on the objects

  /** Deleting a node of a family, and the fields that the deleted node still holds. */
  lemma DeletedNode(m: Memory<ListHead>, lists: Contents<ListHead>, e: ListHead)
    requires Wf(m, lists) && OnList(lists, e)
    ensures Relink(Delete(m, e), e) == m
    ensures Next(Delete(m, e), e) == Next(m, e) && Prev(Delete(m, e), e) == Prev(m, e)
    ensures e in m.next && Next(m, e) in m.next && Prev(m, e) in m.next
  {
    MemberArrows(m, lists, e);
    RelinkUndoesDeleteIff(m, e);
    WfIsMirrored(m, lists);
    var d :| d in lists && e in lists[d];
    assert e in Cycle(lists, d);
    var nodes := LinkedNodes(lists);
    assert MirroredAt(m, nodes, e);
    assert MirroredAt(m, nodes, m.next[e]) && MirroredAt(m, nodes, m.prev[e]);
  }

  /** The memory before deletion number `i` of a run, and what deleting and relinking that node
      do to it. */
  lemma DeletionStep(m: Memory<ListHead>, lists: Contents<ListHead>, es: seq<ListHead>, i: nat)
    requires Wf(m, lists) && Distinct(es) && i < |es|
    requires forall e :: e in es ==> OnList(lists, e)
    ensures var m1, m2 := DeleteAll(m, es[..i]), DeleteAll(m, es[..i + 1]);
            && m2 == Delete(m1, es[i]) && Relink(m2, es[i]) == m1
            && Next(m2, es[i]) == Next(m1, es[i]) && Prev(m2, es[i]) == Prev(m1, es[i])
            && es[i] in m1.next && Next(m1, es[i]) in m1.next && Prev(m1, es[i]) in m1.next
            && m1.next.Keys <= m2.next.Keys
  {
    var now := AfterDeletions(m, lists, es, i);
    assert es[i] in es[i..];
    DeleteOneMore(m, es, i);
    DeletedNode(DeleteAll(m, es[..i]), now, es[i]);
  }

  method DeleteEach(es: seq<ListHead>, ghost mem: set<ListHead>, ghost lists: Contents<ListHead>)
    requires Wf(Snapshot(mem), lists) && Distinct(es)
    requires forall e :: e in es ==> OnList(lists, e)
    modifies mem
    ensures Snapshot(mem) == DeleteAll(old(Snapshot(mem)), es)
    ensures Wf(Snapshot(mem), ListsWithout(lists, es))
  {
    ghost var m := Snapshot(mem);
    var i := 0;
    while i < |es|
      invariant 0 <= i <= |es|
      invariant Snapshot(mem) == DeleteAll(m, es[..i])
    {
      DeletionStep(m, lists, es, i);
      ListDel(es[i], mem);
      i := i + 1;
    }
    assert es[..i] == es;
    DeletionsLeaveOthers(m, lists, es);
  }

  method RelinkNode(e: ListHead, ghost mem: set<ListHead>)
    requires e in mem && Prev(Snapshot(mem), e) in mem && Next(Snapshot(mem), e) in mem
    modifies mem
    ensures Snapshot(mem) == Relink(old(Snapshot(mem)), e)
  {
    ListAddBetween(e, e.prev, e.next, mem);
  }

  /** Relinks the nodes of such a run with `__list_add(e, e->prev, e->next)`, last to first. */
  method RelinkEach(es: seq<ListHead>, ghost mem: set<ListHead>,
                    ghost m: Memory<ListHead>, ghost lists: Contents<ListHead>)
    requires Wf(m, lists) && Distinct(es) && Snapshot(mem) == DeleteAll(m, es)
    requires forall e :: e in es ==> OnList(lists, e)
    modifies mem
    ensures Snapshot(mem) == m
  {
    var i := |es|;
    assert es[..i] == es;
    while i > 0
      invariant 0 <= i <= |es|
      invariant Snapshot(mem) == DeleteAll(m, es[..i])
    {
      i := i - 1;
      DeletionStep(m, lists, es, i);
      RelinkNode(es[i], mem);
    }
    var none: seq<ListHead> := [];
    assert es[..i] == none;
  }

  lemma SameFields(mem: set<ListHead>, m: Memory<ListHead>)
    requires Snapshot(mem) == m
    ensures forall x :: x in mem ==> x.next == Next(m, x) && x.prev == Prev(m, x)
  {
  }

  /** Deleting distinct members of the lists and relinking them in the reverse order leaves
      every field of every node as it was; in between, each list is empty exactly if all its
      nodes are among the deleted ones. */
  method DeleteAndRelink(es: seq<ListHead>, list: ListHead,
                         ghost mem: set<ListHead>, ghost lists: Contents<ListHead>)
    returns (emptied: bool)
    requires Wf(Snapshot(mem), lists) && Distinct(es) && list in lists
    requires forall e :: e in es ==> OnList(lists, e)
    modifies mem
    ensures emptied <==> forall x :: x in lists[list] ==> x in es
    ensures forall x :: x in mem ==> x.next == old(x.next) && x.prev == old(x.prev)
  {
    ghost var m := Snapshot(mem);
    DeleteEach(es, mem, lists);
    ListEmptyIff(mem, ListsWithout(lists, es), list);
    EmptyWithoutAll(lists[list], es);
    emptied := ListEmpty(list);
    RelinkEach(es, mem, m, lists);
    SameFields(mem, m);
  }
}
