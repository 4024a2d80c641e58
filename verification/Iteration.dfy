/**
  What a loop over a list may do to the list while it runs.

  A plan says, for every node, what the loop body does with the current entry: nothing,
  `list_del`, or `list_del` followed by `list_add` / `list_add_tail` on another or the same list.
  Outcome is the state of all lists when the first `i` nodes have been handled;
  HandleNode is the step that the loops of ListHeads.dfy and Entries.dfy take.
 */
module Iteration {
  import opened Rings
  import opened Lists
  import opened Runs

  datatype Action<T> = Keep | Drop | MoveFront(to: T) | MoveBack(to: T)

  /** The pointer writes of the loop body. */
  function Perform<T(==)>(m: Memory<T>, e: T, a: Action<T>): Memory<T> {
    match a
    case Keep => m
    case Drop => Delete(m, e)
    case MoveFront(to) => Add(Delete(m, e), e, to)
    case MoveBack(to) => AddTail(Delete(m, e), e, to)
  }

  /** Moves lead to lists, possibly to the one iterated over. */
  predicate LeadsToList<T(==)>(lists: Contents<T>, a: Action<T>) {
    (a.MoveFront? || a.MoveBack?) ==> a.to in lists
  }

  /** None of the first `n` nodes goes to the back of the list that is iterated over, where the
      loop would meet it again. */
  predicate NoneSentBack<T(==)>(s: seq<T>, list: T, plan: T -> Action<T>, n: int) {
    forall k :: 0 <= k < n && k < |s| ==> plan(s[k]) != MoveBack(list)
  }

  /** What the safe loop tolerates, see SafeWalkIff: any plan whose moves lead to lists and which
      sends no node but the last to the back of the same list. */
  predicate SafePlan<T(==)>(lists: Contents<T>, list: T, plan: T -> Action<T>)
    requires list in lists
  {
    && (forall x :: x in lists[list] ==> LeadsToList(lists, plan(x)))
    && NoneSentBack(lists[list], list, plan, |lists[list]| - 1)
  }

  /** The nodes whose action is `a`, in order. */
  function Those<T, A(==)>(s: seq<T>, plan: T -> A, a: A): seq<T> {
    if s == [] then []
    else
      var n := |s| - 1;
      Those(s[..n], plan, a) + if plan(s[n]) == a then [s[n]] else []
  }

  /** The nodes whose action is `a`, the last one first. */
  function Stacked<T, A(==)>(s: seq<T>, plan: T -> A, a: A): seq<T> {
    if s == [] then []
    else
      var n := |s| - 1;
      (if plan(s[n]) == a then [s[n]] else []) + Stacked(s[..n], plan, a)
  }

  /** The list `d` after the first `i` nodes of `list` have been handled. */
  function OutcomeOf<T(==)>(lists: Contents<T>, list: T, plan: T -> Action<T>, i: nat, d: T): seq<T>
    requires list in lists && i <= |lists[list]| && d in lists
  {
    var handled := lists[list][..i];
    var unmoved := if d == list then Those(handled, plan, Keep) + lists[list][i..] else lists[d];
    Stacked(handled, plan, MoveFront(d)) + (unmoved + Those(handled, plan, MoveBack(d)))
  }

  function Outcome<T(==)>(lists: Contents<T>, list: T, plan: T -> Action<T>, i: nat): Contents<T>
    requires list in lists && i <= |lists[list]|
  {
    map d | d in lists :: OutcomeOf(lists, list, plan, i, d)
  }

  lemma OutcomeAtStart<T>(lists: Contents<T>, list: T, plan: T -> Action<T>)
    requires list in lists
    ensures Outcome(lists, list, plan, 0) == lists
  {
    var none: seq<T> := [];
    assert lists[list][..0] == none && lists[list][0..] == lists[list];
    forall d | d in lists
      ensures OutcomeOf(lists, list, plan, 0, d) == lists[d]
    {
    }
  }

  /** How many nodes stand before the ones that are still to be handled. */
  function Before<T>(lists: Contents<T>, list: T, plan: T -> Action<T>, i: nat): nat
    requires list in lists && i <= |lists[list]|
  {
    var handled := lists[list][..i];
    |Stacked(handled, plan, MoveFront(list))| + |Those(handled, plan, Keep)|
  }

  /** The iterated list has the nodes to come between those already handled. */
  lemma OutcomeOfIteratedList<T>(lists: Contents<T>, list: T, plan: T -> Action<T>, i: nat)
    requires list in lists && i < |lists[list]|
    ensures var s, k, now := lists[list], Before(lists, list, plan, i), OutcomeOf(lists, list, plan, i, list);
            && k < |now| && now[k] == s[i]
            && now[k + 1..] == s[i + 1..] + Those(s[..i], plan, MoveBack(list))
  {
    var s := lists[list];
    var front, kept, back :=
      Stacked(s[..i], plan, MoveFront(list)), Those(s[..i], plan, Keep), Those(s[..i], plan, MoveBack(list));
    assert s[i..] == [s[i]] + s[i + 1..];
    assert front + (kept + s[i..] + back) == (front + kept + [s[i]]) + (s[i + 1..] + back);
  }

  /** An action on the node at position `k` of a list, as changes of at most two lists; a move may
      lead back to the same list. */
  function AfterAction<T(==)>(lists: Contents<T>, list: T, k: nat, a: Action<T>): (r: Contents<T>)
    requires list in lists && k < |lists[list]| && LeadsToList(lists, a)
    ensures r.Keys == lists.Keys
  {
    var e := lists[list][k];
    var without := lists[list := RemoveAt(lists[list], k)];
    match a
    case Keep => lists
    case Drop => without
    case MoveFront(to) => without[to := [e] + without[to]]
    case MoveBack(to) => without[to := without[to] + [e]]
  }

  /** Taking the first of the nodes to come off the list, and putting a node at either end. */
  lemma IteratedListParts<T>(front: seq<T>, kept: seq<T>, e: T, rest: seq<T>, back: seq<T>)
    ensures var s, k := front + ((kept + ([e] + rest)) + back), |front| + |kept|;
            RemoveAt(s, k) == front + ((kept + rest) + back)
    ensures kept + ([e] + rest) == (kept + [e]) + rest
  {
    assert front + ((kept + ([e] + rest)) + back) == (front + kept) + [e] + (rest + back);
  }

  lemma AtEitherEnd<T>(front: seq<T>, middle: seq<T>, back: seq<T>, e: T)
    ensures [e] + (front + (middle + back)) == ([e] + front) + (middle + back)
    ensures (front + (middle + back)) + [e] == front + (middle + (back + [e]))
  {
  }

  /** The nodes with one action when one more node has been handled. */
  lemma OneMoreHandled<T, A>(s: seq<T>, plan: T -> A, a: A, i: nat)
    requires i < |s|
    ensures Those(s[..i + 1], plan, a) ==
              if plan(s[i]) == a then Those(s[..i], plan, a) + [s[i]] else Those(s[..i], plan, a)
    ensures Stacked(s[..i + 1], plan, a) ==
              if plan(s[i]) == a then [s[i]] + Stacked(s[..i], plan, a) else Stacked(s[..i], plan, a)
  {
    assert s[..i + 1][..i] == s[..i];
  }

  /** What an action on the node at position `k` does to the list it stands on. */
  function OnOwnList<T(==)>(s: seq<T>, list: T, k: nat, a: Action<T>): seq<T>
    requires k < |s|
  {
    if a == Keep then s
    else if a == MoveFront(list) then [s[k]] + RemoveAt(s, k)
    else if a == MoveBack(list) then RemoveAt(s, k) + [s[k]]
    else RemoveAt(s, k)
  }

  lemma AfterActionOnOwnList<T>(lists: Contents<T>, list: T, k: nat, a: Action<T>)
    requires list in lists && k < |lists[list]| && LeadsToList(lists, a)
    ensures AfterAction(lists, list, k, a)[list] == OnOwnList(lists[list], list, k, a)
  {
  }

  /** The list that is iterated over: what was sent to its front, what was kept, what is still to
      come, and what was sent to its back. */
  datatype Parts<T> = Parts(front: seq<T>, kept: seq<T>, rest: seq<T>, back: seq<T>)

  function Joined<T>(p: Parts<T>): seq<T> {
    p.front + ((p.kept + p.rest) + p.back)
  }

  /** The parts after an action on the first of the nodes to come. */
  function PartsAfter<T(==)>(p: Parts<T>, list: T, a: Action<T>): Parts<T>
    requires p.rest != []
  {
    var e := p.rest[0];
    Parts(if a == MoveFront(list) then [e] + p.front else p.front, if a == Keep then p.kept + [e] else p.kept,
          p.rest[1..], if a == MoveBack(list) then p.back + [e] else p.back)
  }

  lemma JoinedAfter<T>(p: Parts<T>, list: T, a: Action<T>)
    requires p.rest != []
    ensures var s, k := Joined(p), |p.front| + |p.kept|;
            && k < |s| && s[k] == p.rest[0]
            && OnOwnList(s, list, k, a) == Joined(PartsAfter(p, list, a))
  {
    var e, rest := p.rest[0], p.rest[1..];
    assert p.rest == [e] + rest;
    IteratedListParts(p.front, p.kept, e, rest, p.back);
    AtEitherEnd(p.front, p.kept + rest, p.back, e);
  }

  function PartsOf<T(==)>(s: seq<T>, list: T, plan: T -> Action<T>, i: nat): Parts<T>
    requires i <= |s|
  {
    var handled := s[..i];
    Parts(Stacked(handled, plan, MoveFront(list)), Those(handled, plan, Keep),
          s[i..], Those(handled, plan, MoveBack(list)))
  }

  lemma RestOf<T>(s: seq<T>, i: nat)
    requires i < |s|
    ensures s[i..] != [] && s[i..][0] == s[i] && s[i..][1..] == s[i + 1..]
  {
  }

  lemma NextParts<T>(s: seq<T>, list: T, plan: T -> Action<T>, i: nat)
    requires i < |s|
    ensures PartsOf(s, list, plan, i).rest != []
    ensures PartsOf(s, list, plan, i + 1) == PartsAfter(PartsOf(s, list, plan, i), list, plan(s[i]))
  {
    RestOf(s, i);
    OneMoreHandled(s, plan, MoveFront(list), i);
    OneMoreHandled(s, plan, Keep, i);
    OneMoreHandled(s, plan, MoveBack(list), i);
  }

  lemma OutcomeOfOwnList<T>(lists: Contents<T>, list: T, plan: T -> Action<T>, i: nat)
    requires list in lists && i <= |lists[list]|
    ensures var p := PartsOf(lists[list], list, plan, i);
            && OutcomeOf(lists, list, plan, i, list) == Joined(p)
            && Before(lists, list, plan, i) == |p.front| + |p.kept|
  {
  }

  lemma IteratedListNext<T>(lists: Contents<T>, list: T, plan: T -> Action<T>, i: nat)
    requires list in lists && i < |lists[list]|
    ensures Before(lists, list, plan, i) < |OutcomeOf(lists, list, plan, i, list)|
    ensures var now, k := OutcomeOf(lists, list, plan, i, list), Before(lists, list, plan, i);
            OutcomeOf(lists, list, plan, i + 1, list) == OnOwnList(now, list, k, plan(lists[list][i]))
  {
    var s := lists[list];
    NextParts(s, list, plan, i);
    OutcomeOfOwnList(lists, list, plan, i);
    OutcomeOfOwnList(lists, list, plan, i + 1);
    JoinedAfter(PartsOf(s, list, plan, i), list, plan(s[i]));
  }

  lemma OutcomeOfOtherList<T>(lists: Contents<T>, list: T, plan: T -> Action<T>, i: nat, d: T)
    requires list in lists && i < |lists[list]| && d in lists && d != list
    ensures var e, now := lists[list][i], OutcomeOf(lists, list, plan, i, d);
            OutcomeOf(lists, list, plan, i + 1, d) ==
              if plan(e) == MoveFront(d) then [e] + now
              else if plan(e) == MoveBack(d) then now + [e] else now
  {
    var s := lists[list];
    AtEitherEnd(Stacked(s[..i], plan, MoveFront(d)), lists[d], Those(s[..i], plan, MoveBack(d)), s[i]);
    OneMoreHandled(s, plan, MoveFront(d), i);
    OneMoreHandled(s, plan, MoveBack(d), i);
  }

  /** The change from one outcome to the next, as changes of at most two lists. */
  lemma OutcomeNext<T>(lists: Contents<T>, list: T, plan: T -> Action<T>, i: nat)
    requires list in lists && i < |lists[list]| && LeadsToList(lists, plan(lists[list][i]))
    ensures var e, now, k := lists[list][i], Outcome(lists, list, plan, i), Before(lists, list, plan, i);
            && k < |now[list]| && now[list][k] == e
            && Outcome(lists, list, plan, i + 1) == AfterAction(now, list, k, plan(e))
  {
    OutcomeOfIteratedList(lists, list, plan, i);
    IteratedListNext(lists, list, plan, i);
    var k := Before(lists, list, plan, i);
    AfterActionOnOwnList(Outcome(lists, list, plan, i), list, k, plan(lists[list][i]));
    var after := AfterAction(Outcome(lists, list, plan, i), list, k, plan(lists[list][i]));
    forall d | d in lists
      ensures OutcomeOf(lists, list, plan, i + 1, d) == after[d]
    {
      if d != list {
        OutcomeOfOtherList(lists, list, plan, i, d);
      }
    }
  }

  /** What a loop over `list` keeps: the memory holds the outcome of the first `i` entries. */
  ghost predicate Handled<T>(m: Memory<T>, lists: Contents<T>, list: T, plan: T -> Action<T>, i: nat) {
    list in lists && i <= |lists[list]| && Wf(m, Outcome(lists, list, plan, i))
  }

  lemma {:induction false} NoneOfThose<T, A>(s: seq<T>, plan: T -> A, a: A)
    requires forall x :: x in s ==> plan(x) != a
    ensures Those(s, plan, a) == [] && Stacked(s, plan, a) == []
  {
    if s == [] {
    } else {
      assert s[|s| - 1] in s && forall x :: x in s[..|s| - 1] ==> x in s;
      NoneOfThose(s[..|s| - 1], plan, a);
    }
  }

  /** As long as no node was sent to the back, the current node leads to the next one. */
  lemma NextOfCurrent<T>(m: Memory<T>, lists: Contents<T>, list: T, plan: T -> Action<T>, i: nat)
    requires Handled(m, lists, list, plan, i) && i < |lists[list]|
    requires NoneSentBack(lists[list], list, plan, i)
    ensures lists[list][i] in Outcome(lists, list, plan, i)[list]
    ensures Next(m, lists[list][i]) == NodeOrHead(lists, list, i + 1)
  {
    OutcomeOfIteratedList(lists, list, plan, i);
    var s, k, now := lists[list], Before(lists, list, plan, i), Outcome(lists, list, plan, i);
    NextInList(m, now, list, k);
    NoneOfThose(s[..i], plan, MoveBack(list));
    assert i + 1 < |s| ==> now[list][k + 1] == now[list][k + 1..][0];
  }

  lemma DropAt<T>(m: Memory<T>, lists: Contents<T>, list: T, k: nat)
    requires Wf(m, lists) && list in lists && k < |lists[list]|
    ensures var without := Effect(lists, OpDel(lists[list][k]));
            without == lists[list := RemoveAt(lists[list], k)]
  {
    var e := lists[list][k];
    var c := Cycle(lists, list);
    assert c[k + 1] == e && c[1..] == lists[list] && Ring(m, c);
    WithoutIsRemoveAt(lists[list], k);
    forall d | d in lists && d != list
      ensures Without(lists[d], e) == lists[d]
    {
      Apart(lists, list, d, e);
      WithoutAbsent(lists[d], e);
    }
  }

  lemma ActionRefines<T>(m: Memory<T>, lists: Contents<T>, list: T, k: nat, a: Action<T>)
    requires Wf(m, lists) && list in lists && k < |lists[list]| && LeadsToList(lists, a)
    ensures Wf(Perform(m, lists[list][k], a), AfterAction(lists, list, k, a))
  {
    var e := lists[list][k];
    DelRefines(m, lists, e, list);
    AfterDel(m, lists, e);
    DropAt(m, lists, list, k);
    var without := lists[list := RemoveAt(lists[list], k)];
    match a
    case Keep =>
    case Drop =>
    case MoveFront(to) => AddRefines(Delete(m, e), without, e, to);
    case MoveBack(to) => AddTailRefines(Delete(m, e), without, e, to);
  }

  /** Handling one more node, whatever its action, takes the memory from one outcome to the next. */
  lemma HandleNode<T>(m: Memory<T>, lists: Contents<T>, list: T, plan: T -> Action<T>, i: nat)
    requires Handled(m, lists, list, plan, i) && i < |lists[list]|
    requires LeadsToList(lists, plan(lists[list][i]))
    ensures var e := lists[list][i];
            Handled(Perform(m, e, plan(e)), lists, list, plan, i + 1)
  {
    OutcomeNext(lists, list, plan, i);
    ActionRefines(m, Outcome(lists, list, plan, i), list, Before(lists, list, plan, i), plan(lists[list][i]));
  }

  /** The first node that the loops visit. */
  lemma FirstNode<T>(m: Memory<T>, lists: Contents<T>, list: T)
    requires Wf(m, lists) && list in lists
    ensures Next(m, list) == if lists[list] == [] then list else lists[list][0]
  {
    RingNeighbours(m, Cycle(lists, list), 0);
  }

  /** The node to be visited next is still linked. */
  lemma NodeStillLinked<T>(lists: Contents<T>, list: T, plan: T -> Action<T>, i: nat)
    requires list in lists && i <= |lists[list]|
    ensures Linked(Outcome(lists, list, plan, i), NodeOrHead(lists, list, i))
  {
    var now := Outcome(lists, list, plan, i);
    if i < |lists[list]| {
      OutcomeOfIteratedList(lists, list, plan, i);
      MemberLinked(now, list, lists[list][i]);
    } else {
      MemberLinked(now, list, list);
    }
  }

  /** The loop meets the head only after all nodes. */
  lemma HeadOnlyAtEnd<T>(m: Memory<T>, lists: Contents<T>, list: T, plan: T -> Action<T>, i: nat)
    requires Handled(m, lists, list, plan, i)
    ensures NodeOrHead(lists, list, i) == list <==> i == |lists[list]|
  {
    if i < |lists[list]| {
      OutcomeOfIteratedList(lists, list, plan, i);
      NextInList(m, Outcome(lists, list, plan, i), list, Before(lists, list, plan, i));
    }
  }

  /** All lists after the loop: of the iterated list the kept nodes remain in order, the other
      lists are unchanged, and each list has the nodes sent to its front before it, last one
      first, and those sent to its back behind it, in order. */
  function Final<T(==)>(lists: Contents<T>, list: T, plan: T -> Action<T>): Contents<T>
    requires list in lists
  {
    var s := lists[list];
    map d | d in lists ::
      Stacked(s, plan, MoveFront(d)) + (if d == list then Those(s, plan, Keep) else lists[d])
      + Those(s, plan, MoveBack(d))
  }

  lemma OutcomeAtEnd<T>(lists: Contents<T>, list: T, plan: T -> Action<T>)
    requires list in lists
    ensures Outcome(lists, list, plan, |lists[list]|) == Final(lists, list, plan)
  {
    var s, end := lists[list], Final(lists, list, plan);
    assert s[..|s|] == s && Those(s, plan, Keep) + s[|s|..] == Those(s, plan, Keep);
    forall d | d in lists
      ensures OutcomeOf(lists, list, plan, |s|, d) == end[d]
    {
    }
  }

  lemma {:induction false} ThoseMembers<T, A>(s: seq<T>, plan: T -> A, a: A, x: T)
    ensures x in Those(s, plan, a) <==> x in s && plan(x) == a
    ensures x in Stacked(s, plan, a) <==> x in s && plan(x) == a
  {
    if s == [] {
    } else {
      var n := |s| - 1;
      ThoseMembers(s[..n], plan, a, x);
      assert s == s[..n] + [s[n]];
    }
  }

  function Dropped<T(==)>(s: seq<T>, plan: T -> Action<T>): set<T> {
    set x | x in s && plan(x) == Drop
  }

  lemma OutcomeHolds<T>(lists: Contents<T>, list: T, plan: T -> Action<T>, x: T)
    requires list in lists && Disjoint(lists)
    requires forall y :: y in lists[list] ==> LeadsToList(lists, plan(y))
    ensures OnList(Final(lists, list, plan), x)
            <==> OnList(lists, x) && !(x in lists[list] && plan(x) == Drop)
  {
    var s, end := lists[list], Final(lists, list, plan);
    forall d | d in lists
      ensures x in end[d] <==>
                || (x in s && (plan(x) == MoveFront(d) || plan(x) == MoveBack(d)))
                || (if d == list then x in s && plan(x) == Keep else x in lists[d])
    {
      ThoseMembers(s, plan, Keep, x);
      ThoseMembers(s, plan, MoveFront(d), x);
      ThoseMembers(s, plan, MoveBack(d), x);
    }
    if x in s {
      assert x in Cycle(lists, list) && OnList(lists, x);
      forall d | d in lists && d != list
        ensures x !in lists[d]
      {
        Apart(lists, list, d, x);
        assert lists[d] == Cycle(lists, d)[1..];
      }
      if plan(x) != Drop {
        var home := if plan(x) == Keep then list else plan(x).to;
        assert LeadsToList(lists, plan(x)) && home in lists;
        assert x in end[home];
      }
    } else if OnList(lists, x) {
      var d :| d in lists && x in lists[d];
      assert x in end[d];
    }
  }

  /** A loop loses exactly the nodes that it drops, and gains none. */
  lemma OutcomeConserves<T>(lists: Contents<T>, list: T, plan: T -> Action<T>)
    requires list in lists && Disjoint(lists)
    requires forall x :: x in lists[list] ==> LeadsToList(lists, plan(x))
    ensures Members(Final(lists, list, plan)) == Members(lists) - Dropped(lists[list], plan)
  {
    var s, end := lists[list], Final(lists, list, plan);
    var before, after := Members(lists) - Dropped(s, plan), Members(end);
    forall x
      ensures x in after <==> x in before
    {
      OutcomeHolds(lists, list, plan, x);
    }
    assert after == before;
  }

  /** The plan that only deletes. */
  function Deleting<T>(doomed: T -> bool): T -> Action<T> {
    (x: T) => if doomed(x) then Drop else Keep
  }

  lemma {:induction false} KeptAreNotDoomed<T>(s: seq<T>, doomed: T -> bool)
    ensures Those(s, Deleting(doomed), Keep) == Those(s, doomed, false)
  {
    if s == [] {
    } else {
      KeptAreNotDoomed(s[..|s| - 1], doomed);
    }
  }

  /** A loop that only deletes takes the doomed nodes off its list and touches no other list. */
  lemma FinalOfDeleting<T>(lists: Contents<T>, list: T, doomed: T -> bool)
    requires list in lists
    ensures Final(lists, list, Deleting(doomed)) == lists[list := Those(lists[list], doomed, false)]
  {
    var s, plan := lists[list], Deleting(doomed);
    KeptAreNotDoomed(s, doomed);
    forall d | d in lists
      ensures Final(lists, list, plan)[d] == if d == list then Those(s, doomed, false) else lists[d]
    {
      NoneOfThose(s, plan, MoveFront(d));
      NoneOfThose(s, plan, MoveBack(d));
      var rest := if d == list then Those(s, doomed, false) else lists[d];
      assert [] + rest + [] == rest;
    }
  }

  // ----- which bodies the loops tolerate

  predicate Stays<T>(a: Action<T>) {
    a.Keep? || a.Drop?
  }

  /** A node that is kept or dropped still leads to the next node of the list. */
  lemma StayingNodeLeadsOn<T>(m: Memory<T>, lists: Contents<T>, list: T, plan: T -> Action<T>, i: nat)
    requires Handled(m, lists, list, plan, i) && i < |lists[list]| && Stays(plan(lists[list][i]))
    requires NoneSentBack(lists[list], list, plan, i)
    ensures var e := lists[list][i];
            Handled(Perform(m, e, plan(e)), lists, list, plan, i + 1)
            && Next(Perform(m, e, plan(e)), e) == NodeOrHead(lists, list, i + 1)
            && e != list
  {
    var e := lists[list][i];
    HandleNode(m, lists, list, plan, i);
    NextOfCurrent(m, lists, list, plan, i);
    HeadOnlyAtEnd(m, lists, list, plan, i);
    MemberArrows(m, Outcome(lists, list, plan, i), e);
  }

  /** The node expected behind position `j` of the original sequence. */
  function Expected<T>(s: seq<T>, list: T, j: nat): T {
    if j < |s| then s[j] else list
  }

  /** The first `n` entries that `list_for_each` visits from `cur` on: `next` is read after the
      body has handled the entry. */
  function PlainWalk<T(==)>(m: Memory<T>, list: T, plan: T -> Action<T>, cur: T, n: nat): seq<T>
    decreases n
  {
    if n == 0 || cur == list then []
    else
      var m' := Perform(m, cur, plan(cur));
      [cur] + PlainWalk(m', list, plan, Next(m', cur), n - 1)
  }

  /** The actions after which the plain loop goes on with the next node: keeping, deleting, moving
      the current first node to the front of its own list, and moving the last one to the back. */
  predicate OnCourse<T(==)>(s: seq<T>, list: T, plan: T -> Action<T>, i: nat)
    requires i < |s|
  {
    || Stays(plan(s[i]))
    || (plan(s[i]) == MoveFront(list) && forall k :: 0 <= k < i ==> plan(s[k]) == Drop)
    || (plan(s[i]) == MoveBack(list) && i == |s| - 1)
  }

  /** The walk from position `j` on is the rest of the sequence exactly if the body leads to the
      expected node and the walk from there is the rest. */
  lemma PlainStep<T>(m: Memory<T>, list: T, plan: T -> Action<T>, s: seq<T>, j: nat, n: nat)
    requires j < |s| && list !in s && n >= 2
    ensures var m' := Perform(m, s[j], plan(s[j]));
            PlainWalk(m, list, plan, s[j], n) == s[j..]
            <==> Next(m', s[j]) == Expected(s, list, j + 1)
                 && PlainWalk(m', list, plan, Next(m', s[j]), n - 1) == s[j + 1..]
  {
    var m' := Perform(m, s[j], plan(s[j]));
    var x := Next(m', s[j]);
    var rest := PlainWalk(m', list, plan, x, n - 1);
    assert s[j..] == [s[j]] + s[j + 1..] && ([s[j]] + rest)[1..] == rest;
    assert if x == list then rest == [] else rest != [] && rest[0] == x;
  }

  lemma ListParts<T>(now: seq<T>, list: T, s: seq<T>, j: nat, pre: seq<T>, post: seq<T>, a: Action<T>)
    requires j < |s| && now == pre + s[j..] + post
    ensures |pre| < |now| && now[|pre|] == s[j]
    ensures OnOwnList(now, list, |pre|, a) ==
              (if a == MoveFront(list) then [s[j]] else []) + pre + (if a == Keep then [s[j]] else [])
              + s[j + 1..] + post + if a == MoveBack(list) then [s[j]] else []
  {
    var e, rest := s[j], s[j + 1..];
    RestOf(s, j);
    assert now == pre + [e] + rest + post;
    assert RemoveAt(now, |pre|) == pre + rest + post;
  }

  /** Where a list has been handled up to position `j`, the action there changes what lies before
      (`pre`) and what lies behind (`post`) the nodes to come, or another list. */
  lemma HandledList<T>(m: Memory<T>, now: Contents<T>, list: T,
                       s: seq<T>, j: nat, pre: seq<T>, post: seq<T>, a: Action<T>)
    returns (then': Contents<T>)
    requires Wf(m, now) && list in now && LeadsToList(now, a)
    requires j < |s| && now[list] == pre + s[j..] + post
    ensures Wf(Perform(m, s[j], a), then') && then'.Keys == now.Keys
    ensures then'[list] == (if a == MoveFront(list) then [s[j]] else []) + pre + (if a == Keep then [s[j]] else [])
                           + s[j + 1..] + post + if a == MoveBack(list) then [s[j]] else []
    ensures a.MoveFront? ==> then'[a.to] != [] && then'[a.to][0] == s[j]
    ensures a.MoveBack? ==> then'[a.to] != [] && then'[a.to][|then'[a.to]| - 1] == s[j]
  {
    var k := |pre|;
    ListParts(now[list], list, s, j, pre, post, a);
    ActionRefines(m, now, list, k, a);
    AfterActionOnOwnList(now, list, k, a);
    then' := AfterAction(now, list, k, a);
  }

  lemma StayingNext<T>(m: Memory<T>, now: Contents<T>, list: T, s: seq<T>, j: nat, pre: seq<T>, a: Action<T>)
    requires Wf(m, now) && list in now && j < |s| && now[list] == pre + s[j..] && Stays(a)
    ensures Next(Perform(m, s[j], a), s[j]) == Expected(s, list, j + 1)
  {
    assert now[list][|pre|] == s[j];
    NextInList(m, now, list, |pre|);
    MemberArrows(m, now, s[j]);
    DeleteKeepsOwnFields(m, s[j]);
  }

  /** A node moved to another list leads on in that list. */
  lemma GoneNext<T>(m': Memory<T>, then': Contents<T>, list: T, s: seq<T>, j: nat, pre: seq<T>, a: Action<T>)
    requires Wf(m', then') && list in then' && j < |s| && then'[list] == pre + s[j + 1..]
    requires !Stays(a) && a.to in then' && a.to != list && then'[a.to] != []
    requires then'[a.to][if a.MoveFront? then 0 else |then'[a.to]| - 1] == s[j]
    ensures Next(m', s[j]) != Expected(s, list, j + 1)
  {
    assert j + 1 < |s| ==> then'[list][|pre|] == s[j + 1];
    assert Expected(s, list, j + 1) in Cycle(then', list);
    NextInList(m', then', a.to, if a.MoveFront? then 0 else |then'[a.to]| - 1);
    assert Next(m', s[j]) in Cycle(then', a.to);
    Apart(then', a.to, list, Next(m', s[j]));
  }

  /** A node moved to the front of its own list leads to the nodes before it, if any are left. */
  lemma FrontNext<T>(m': Memory<T>, then': Contents<T>, list: T, s: seq<T>, j: nat, pre: seq<T>)
    requires Wf(m', then') && list in then' && j < |s| && then'[list] == [s[j]] + pre + s[j + 1..]
    ensures Next(m', s[j]) == Expected(s, list, j + 1) <==> pre == []
  {
    var c := Cycle(then', list);
    NextInList(m', then', list, 0);
    assert Ring(m', c) && c[0] == list;
    if pre != [] {
      assert c[2] == then'[list][1] == pre[0];
      assert j + 1 < |s| ==> c[|pre| + 2] == s[j + 1];
    } else {
      assert then'[list][1..] == s[j + 1..];
      assert j + 1 < |s| ==> then'[list][1] == s[j + 1];
    }
  }

  /** A node moved to the back of its own list leads to the head. */
  lemma BackNext<T>(m': Memory<T>, then': Contents<T>, list: T, s: seq<T>, j: nat, pre: seq<T>)
    requires Wf(m', then') && list in then' && j < |s| && then'[list] == pre + s[j + 1..] + [s[j]]
    ensures Next(m', s[j]) == Expected(s, list, j + 1) <==> j + 1 == |s|
  {
    NextInList(m', then', list, |then'[list]| - 1);
    if j + 1 < |s| {
      assert then'[list][|pre|] == s[j + 1];
      NextInList(m', then', list, |pre|);
    }
  }

  /** Where the body leads: to the expected node exactly if the action is on course. */
  lemma PlainNext<T>(m: Memory<T>, now: Contents<T>, list: T, plan: T -> Action<T>,
                     s: seq<T>, j: nat, pre: seq<T>)
    returns (then': Contents<T>)
    requires Wf(m, now) && list in now && j < |s|
    requires now[list] == pre + s[j..] && LeadsToList(now, plan(s[j]))
    requires pre == [] <==> forall k :: 0 <= k < j ==> plan(s[k]) == Drop
    ensures Next(Perform(m, s[j], plan(s[j])), s[j]) == Expected(s, list, j + 1) <==> OnCourse(s, list, plan, j)
    ensures Wf(Perform(m, s[j], plan(s[j])), then') && then'.Keys == now.Keys
    ensures OnCourse(s, list, plan, j) && plan(s[j]) != MoveBack(list) ==>
              then'[list] == (if plan(s[j]).Drop? then pre else pre + [s[j]]) + s[j + 1..]
  {
    var e, a := s[j], plan(s[j]);
    var m' := Perform(m, e, a);
    var none: seq<T> := [];
    assert now[list] == pre + s[j..] + none;
    then' := HandledList(m, now, list, s, j, pre, none, a);
    if Stays(a) {
      StayingNext(m, now, list, s, j, pre, a);
    } else if a.to != list {
      GoneNext(m', then', list, s, j, pre, a);
    } else if a.MoveFront? {
      FrontNext(m', then', list, s, j, pre);
    } else {
      BackNext(m', then', list, s, j, pre);
    }
  }

  lemma {:induction false} PlainWalkFrom<T>(m: Memory<T>, now: Contents<T>, list: T, plan: T -> Action<T>,
                                            s: seq<T>, j: nat, pre: seq<T>, n: nat)
    requires Wf(m, now) && list in now && j <= |s| && n > |s| - j && list !in s
    requires now[list] == pre + s[j..]
    requires forall x :: x in s ==> LeadsToList(now, plan(x))
    requires pre == [] <==> forall k :: 0 <= k < j ==> plan(s[k]) == Drop
    ensures PlainWalk(m, list, plan, Expected(s, list, j), n) == s[j..]
            <==> forall i :: j <= i < |s| ==> OnCourse(s, list, plan, i)
    decreases n
  {
    if j == |s| {
    } else {
      var e, a := s[j], plan(s[j]);
      var m' := Perform(m, e, a);
      PlainStep(m, list, plan, s, j, n);
      var then' := PlainNext(m, now, list, plan, s, j, pre);
      if OnCourse(s, list, plan, j) && a != MoveBack(list) {
        PlainWalkFrom(m', then', list, plan, s, j + 1, if a.Drop? then pre else pre + [e], n - 1);
      }
    }
  }

  /** For any plan at all, plain iteration visits the nodes of the list, in order, and then stops
      exactly when every action leaves it on course. */
  lemma PlainWalkIff<T>(m: Memory<T>, lists: Contents<T>, list: T, plan: T -> Action<T>)
    requires Wf(m, lists) && list in lists
    requires forall x :: x in lists[list] ==> LeadsToList(lists, plan(x))
    ensures PlainWalk(m, list, plan, Next(m, list), |lists[list]| + 1) == lists[list]
            <==> forall i :: 0 <= i < |lists[list]| ==> OnCourse(lists[list], list, plan, i)
  {
    var s := lists[list];
    FirstNode(m, lists, list);
    var pre: seq<T> := [];
    assert pre + s[0..] == s == s[0..];
    forall k | 0 <= k < |s|
      ensures s[k] != list
    {
      NextInList(m, lists, list, k);
    }
    PlainWalkFrom(m, lists, list, plan, s, 0, pre, |s| + 1);
  }

  predicate SameList<T(==)>(list: T, a: Action<T>) {
    (a.MoveFront? || a.MoveBack?) && a.to == list
  }

  /** If moves lead to other lists only, the plain loop tolerates exactly the plans without moves. */
  lemma PlainWalkWithoutMoves<T>(m: Memory<T>, lists: Contents<T>, list: T, plan: T -> Action<T>)
    requires Wf(m, lists) && list in lists
    requires forall x :: x in lists[list] ==> LeadsToList(lists, plan(x)) && !SameList(list, plan(x))
    ensures PlainWalk(m, list, plan, Next(m, list), |lists[list]| + 1) == lists[list]
            <==> forall x :: x in lists[list] ==> Stays(plan(x))
  {
    PlainWalkIff(m, lists, list, plan);
    forall i | 0 <= i < |lists[list]|
      ensures OnCourse(lists[list], list, plan, i) <==> Stays(plan(lists[list][i]))
    {
      assert !SameList(list, plan(lists[list][i]));
    }
  }

  // ----- the safe loop

  /** The first `n` entries that `list_for_each_safe` visits: `tmp` was read before the body. */
  function SafeWalk<T(==)>(m: Memory<T>, list: T, plan: T -> Action<T>, cur: T, tmp: T, n: nat): seq<T>
    decreases n
  {
    if n == 0 || cur == list then []
    else
      var m' := Perform(m, cur, plan(cur));
      [cur] + SafeWalk(m', list, plan, tmp, Next(m', tmp), n - 1)
  }

  lemma SafeStep<T>(m: Memory<T>, list: T, plan: T -> Action<T>, s: seq<T>, j: nat, tmp: T, n: nat)
    requires j < |s| && s[j] != list && n >= 2
    ensures var m' := Perform(m, s[j], plan(s[j]));
            SafeWalk(m, list, plan, s[j], tmp, n) == s[j..]
            <==> SafeWalk(m', list, plan, tmp, Next(m', tmp), n - 1) == s[j + 1..]
    ensures var m' := Perform(m, s[j], plan(s[j]));
            tmp == list <==> SafeWalk(m', list, plan, tmp, Next(m', tmp), n - 1) == []
  {
    var m' := Perform(m, s[j], plan(s[j]));
    var rest := SafeWalk(m', list, plan, tmp, Next(m', tmp), n - 1);
    assert s[j..] == [s[j]] + s[j + 1..] && ([s[j]] + rest)[1..] == rest;
  }

  lemma NextOnTheWay<T>(m: Memory<T>, now: Contents<T>, list: T,
                        s: seq<T>, j: nat, pre: seq<T>, extra: seq<T>)
    requires Wf(m, now) && list in now && j < |s| && now[list] == pre + s[j..] + extra
    ensures s[j] != list
    ensures j < |s| - 1 ==> Next(m, s[j]) == s[j + 1]
    ensures j == |s| - 1 ==> (Next(m, s[j]) == list <==> extra == [])
  {
    assert now[list][|pre|] == s[j];
    NextInList(m, now, list, |pre|);
    if j == |s| - 1 && extra != [] {
      NextInList(m, now, list, |pre| + 1);
    }
  }

  /** Behind the nodes to come stand those that were moved to the back (`extra`). */
  lemma {:induction false} SafeWalkFrom<T>(m: Memory<T>, now: Contents<T>, list: T, plan: T -> Action<T>,
                                           s: seq<T>, j: nat, pre: seq<T>, extra: seq<T>, n: nat)
    requires Wf(m, now) && list in now && j < |s| && n > |s| - j
    requires now[list] == pre + s[j..] + extra
    requires forall x :: x in s ==> LeadsToList(now, plan(x))
    ensures SafeWalk(m, list, plan, s[j], Next(m, s[j]), n) == s[j..]
            <==> extra == [] && forall i :: j <= i < |s| - 1 ==> plan(s[i]) != MoveBack(list)
    decreases n
  {
    var e, a, tmp := s[j], plan(s[j]), Next(m, s[j]);
    NextOnTheWay(m, now, list, s, j, pre, extra);
    SafeStep(m, list, plan, s, j, tmp, n);
    if j < |s| - 1 {
      var then' := HandledList(m, now, list, s, j, pre, extra, a);
      var pre' := (if a == MoveFront(list) then [e] else []) + pre + if a == Keep then [e] else [];
      var extra' := extra + if a == MoveBack(list) then [e] else [];
      assert then'[list] == pre' + s[j + 1..] + extra';
      SafeWalkFrom(Perform(m, e, a), then', list, plan, s, j + 1, pre', extra', n - 1);
    }
  }

  /** The safe loop visits the nodes of the list, in order, and then stops exactly when its body
      moves no node but the last to the back of the same list.  All other moves, also to the
      front of the same list, are tolerated. */
  lemma SafeWalkIff<T>(m: Memory<T>, lists: Contents<T>, list: T, plan: T -> Action<T>)
    requires Wf(m, lists) && list in lists
    requires forall x :: x in lists[list] ==> LeadsToList(lists, plan(x))
    ensures var s, first := lists[list], Next(m, list);
            SafeWalk(m, list, plan, first, Next(m, first), |s| + 1) == s
            <==> NoneSentBack(s, list, plan, |s| - 1)
  {
    var s := lists[list];
    FirstNode(m, lists, list);
    if s != [] {
      var none: seq<T> := [];
      assert s == none + s[0..] + none && s[0..] == s;
      SafeWalkFrom(m, lists, list, plan, s, 0, none, none, |s| + 1);
    }
  }
}
