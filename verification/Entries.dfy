/**
  Records that embed a `struct list_head`: container_of and the entry iterators of utils.h.

  Nodes and records are addresses here, and a record's node lies `offset` bytes into it.
  Address arithmetic wraps at 64 bits.  The head of a list is not embedded in a record, yet
  the loops compute the address of a record around it; they never use it as a record.
 */
module Entries {
  import opened Rings
  import opened Lists
  import opened Iteration

  const ADDRESSES := 0x1_0000_0000_0000_0000

  type Address = a: int | 0 <= a < 0x1_0000_0000_0000_0000

  /** `&owner->member` */
  function MemberOf(owner: Address, offset: Address): Address {
    (owner + offset) % ADDRESSES
  }

  /** `list_entry(ptr, type, member)`, that is `container_of` */
  function ListEntry(ptr: Address, offset: Address): Address {
    (ptr - offset) % ADDRESSES
  }

  /** The record starts `offset` bytes before its member, and the member lies `offset` bytes behind the
      start of the record, with wrap-around at the ends of the address space. */
  lemma EntryDistance(a: Address, offset: Address)
    ensures ListEntry(a, offset) == if a >= offset then a - offset else a - offset + 0x1_0000_0000_0000_0000
    ensures MemberOf(a, offset) == if a + offset < 0x1_0000_0000_0000_0000 then a + offset
                                   else a + offset - 0x1_0000_0000_0000_0000
  {
  }

  /** Going to the record and going to its member undo each other, for every offset. */
  lemma EntryMemberInverse(a: Address, offset: Address)
    ensures MemberOf(ListEntry(a, offset), offset) == a
    ensures ListEntry(MemberOf(a, offset), offset) == a
  {
    if a - offset >= 0 {
      assert (a - offset) % ADDRESSES == a - offset;
    } else {
      assert (a - offset) % ADDRESSES == a - offset + ADDRESSES;
    }
  }

  /** The records of a sequence of nodes. */
  function Owners(s: seq<Address>, offset: Address): seq<Address> {
    seq(|s|, i requires 0 <= i < |s| => ListEntry(s[i], offset))
  }

  /** The visited records are those whose members are the nodes, place by place. */
  lemma MembersOfOwners(s: seq<Address>, offset: Address, i: nat)
    requires i < |s|
    ensures |Owners(s, offset)| == |s| && MemberOf(Owners(s, offset)[i], offset) == s[i]
  {
    EntryMemberInverse(s[i], offset);
  }

  lemma OwnersExtend(s: seq<Address>, offset: Address, i: nat)
    requires i < |s|
    ensures Owners(s[..i + 1], offset) == Owners(s[..i], offset) + [ListEntry(s[i], offset)]
  {
  }

  /** A plan for records, as a plan for their nodes. */
  function OnNodes(plan: Address -> Action<Address>, offset: Address): Address -> Action<Address> {
    (x: Address) => plan(ListEntry(x, offset))
  }

  /** A choice of records, as a choice of their nodes. */
  function NodeDoomed(doomed: Address -> bool, offset: Address): Address -> bool {
    (x: Address) => doomed(ListEntry(x, offset))
  }

  /** The node of a record is treated as the record is. */
  lemma RecordDecides(plan: Address -> Action<Address>, doomed: Address -> bool,
                      owner: Address, offset: Address)
    ensures OnNodes(plan, offset)(MemberOf(owner, offset)) == plan(owner)
    ensures NodeDoomed(doomed, offset)(MemberOf(owner, offset)) == doomed(owner)
  {
    EntryMemberInverse(owner, offset);
  }

  /** `list_for_each_entry` with a body that may `list_del` the current record: it visits exactly
      the records of the nodes that were on the list, in order, and not the one "around" the
      head, and leaves exactly the other nodes, as `list_for_each` does on the nodes. */
  method ForEachEntry(m0: Memory<Address>, list: Address, offset: Address,
                      doomed: Address -> bool, ghost lists: Contents<Address>)
    returns (visited: seq<Address>, m: Memory<Address>)
    requires Wf(m0, lists) && list in lists
    ensures visited == Owners(lists[list], offset)
    ensures ListEntry(list, offset) !in visited
    ensures Wf(m, lists[list := Those(lists[list], NodeDoomed(doomed, offset), false)])
  {
    ghost var s, nodePlan := lists[list], Deleting(NodeDoomed(doomed, offset));
    visited, m := [], m0;
    OutcomeAtStart(lists, list, nodePlan);
    FirstNode(m, lists, list);
    var entry := ListEntry(Next(m, list), offset);
    EntryMemberInverse(Next(m, list), offset);
    ghost var i := 0;
    while MemberOf(entry, offset) != list
      invariant i <= |s| && visited == Owners(s[..i], offset)
      invariant Handled(m, lists, list, nodePlan, i)
      invariant MemberOf(entry, offset) == NodeOrHead(lists, list, i)
      invariant entry == ListEntry(NodeOrHead(lists, list, i), offset)
      invariant ListEntry(list, offset) !in visited
      decreases |s| - i
    {
      EntryMemberInverse(list, offset);
      OwnersExtend(s, offset, i);
      StayingNodeLeadsOn(m, lists, list, nodePlan, i);
      visited := visited + [entry];
      if doomed(entry) {
        m := Delete(m, MemberOf(entry, offset));
      }
      EntryMemberInverse(Next(m, MemberOf(entry, offset)), offset);
      entry := ListEntry(Next(m, MemberOf(entry, offset)), offset);
      i := i + 1;
    }
    HeadOnlyAtEnd(m, lists, list, nodePlan, i);
    OutcomeAtEnd(lists, list, nodePlan);
    FinalOfDeleting(lists, list, NodeDoomed(doomed, offset));
    assert s[..i] == s;
  }

  /** `list_for_each_entry_safe` with any plan for the loop body: it visits exactly the records
      of the nodes that were on the list, in order, and has the outcome that
      `list_for_each_safe` has on the nodes. */
  method ForEachEntrySafe(m0: Memory<Address>, list: Address, offset: Address,
                          plan: Address -> Action<Address>, ghost lists: Contents<Address>)
    returns (visited: seq<Address>, m: Memory<Address>)
    requires Wf(m0, lists) && list in lists
    requires SafePlan(lists, list, OnNodes(plan, offset))
    ensures visited == Owners(lists[list], offset)
    ensures Wf(m, Final(lists, list, OnNodes(plan, offset)))
  {
    ghost var s, nodePlan := lists[list], OnNodes(plan, offset);
    visited, m := [], m0;
    OutcomeAtStart(lists, list, nodePlan);
    FirstNode(m, lists, list);
    var entry := ListEntry(Next(m, list), offset);
    EntryMemberInverse(Next(m, list), offset);
    var tmp := ListEntry(Next(m, MemberOf(entry, offset)), offset);
    ghost var i := 0;
    while MemberOf(entry, offset) != list
      invariant i <= |s| && visited == Owners(s[..i], offset)
      invariant Handled(m, lists, list, nodePlan, i)
      invariant MemberOf(entry, offset) == NodeOrHead(lists, list, i)
      invariant entry == ListEntry(NodeOrHead(lists, list, i), offset)
      invariant tmp == ListEntry(Next(m, MemberOf(entry, offset)), offset)
      decreases |s| - i
    {
      NextOfCurrent(m, lists, list, nodePlan, i);
      HandleNode(m, lists, list, nodePlan, i);
      OwnersExtend(s, offset, i);
      visited := visited + [entry];
      m := Perform(m, MemberOf(entry, offset), plan(entry));
      i := i + 1;
      EntryMemberInverse(NodeOrHead(lists, list, i), offset);
      entry := tmp;
      tmp := ListEntry(Next(m, MemberOf(tmp, offset)), offset);
    }
    HeadOnlyAtEnd(m, lists, list, nodePlan, i);
    OutcomeAtEnd(lists, list, nodePlan);
    assert s[..i] == s;
  }
}
