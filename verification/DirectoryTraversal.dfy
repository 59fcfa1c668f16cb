/** Recursive directory traversal with explicit stacks (Foundation/src/DirectoryIteratorStrategy.cpp).
    The file system is a finite tree that does not change while it is traversed. A DirectoryIterator is the sequence
    of entries from its position on; the end iterator is the empty sequence. */
module DirectoryTraversal {

  datatype Entry = File(path: string) | Dir(path: string, children: seq<Entry>)

  type Iterator = seq<Entry>

  /** The path of an end iterator. */
  const END_PATH: string := ""

  /** Depth counts from 1; the limit 0 is D_INFINITE. */
  predicate MayDescend(depth: nat, limit: nat) {
    limit == 0 || depth < limit
  }

  // ------------------------------------------------------------------------------------------
  // The two orders
  // ------------------------------------------------------------------------------------------

  /** Each entry is followed by everything below it. */
  function Preorder(es: seq<Entry>, depth: nat, limit: nat): seq<string>
    decreases es, 1
  {
    if es == [] then []
    else [es[0].path] + Below(es[0], depth, limit) + Preorder(es[1..], depth, limit)
  }

  function Below(e: Entry, depth: nat, limit: nat): seq<string>
    decreases e, 0
  {
    if e.Dir? && MayDescend(depth, limit) then Preorder(e.children, depth + 1, limit) else []
  }

  /** All entries of a directory come before anything below one of them. */
  function SiblingsFirst(es: seq<Entry>, depth: nat, limit: nat): seq<string>
    decreases es, 2
  {
    Paths(es) + Descents(es, depth, limit)
  }

  function Descents(es: seq<Entry>, depth: nat, limit: nat): seq<string>
    decreases es, 1
  {
    if es == [] then [] else Descent(es[0], depth, limit) + Descents(es[1..], depth, limit)
  }

  function Descent(e: Entry, depth: nat, limit: nat): seq<string>
    decreases e, 0
  {
    if e.Dir? && MayDescend(depth, limit) then SiblingsFirst(e.children, depth + 1, limit) else []
  }

  function Paths(es: seq<Entry>): (ps: seq<string>)
    ensures |ps| == |es|
  {
    if es == [] then [] else [es[0].path] + Paths(es[1..])
  }

  // ------------------------------------------------------------------------------------------
  // Each entry once
  // ------------------------------------------------------------------------------------------

  /** The paths of the tree down to the limit. */
  ghost function Entries(es: seq<Entry>, depth: nat, limit: nat): multiset<string> {
    if es == [] then multiset{}
    else
      multiset{es[0].path}
      + (if es[0].Dir? && MayDescend(depth, limit) then Entries(es[0].children, depth + 1, limit) else multiset{})
      + Entries(es[1..], depth, limit)
  }

  lemma {:induction false} PreorderVisits(es: seq<Entry>, depth: nat, limit: nat)
    ensures multiset(Preorder(es, depth, limit)) == Entries(es, depth, limit)
  {
    if es != [] {
      if es[0].Dir? { PreorderVisits(es[0].children, depth + 1, limit); }
      PreorderVisits(es[1..], depth, limit);
    }
  }

  lemma {:induction false} SiblingsFirstVisits(es: seq<Entry>, depth: nat, limit: nat)
    ensures multiset(Paths(es)) + multiset(Descents(es, depth, limit)) == Entries(es, depth, limit)
  {
    if es != [] {
      if es[0].Dir? {
        SiblingsFirstVisits(es[0].children, depth + 1, limit);
        assert multiset(SiblingsFirst(es[0].children, depth + 1, limit)) == Entries(es[0].children, depth + 1, limit);
      }
      SiblingsFirstVisits(es[1..], depth, limit);
      assert multiset(Paths(es)) == multiset{es[0].path} + multiset(Paths(es[1..]));
      assert multiset(Descents(es, depth, limit))
          == multiset(Descent(es[0], depth, limit)) + multiset(Descents(es[1..], depth, limit));
    }
  }

  /** Both orders list exactly the entries down to the limit, each as often as it occurs in the tree. */
  lemma OrdersArePermutations(es: seq<Entry>, depth: nat, limit: nat)
    ensures multiset(Preorder(es, depth, limit)) == Entries(es, depth, limit) == multiset(SiblingsFirst(es, depth, limit))
  {
    PreorderVisits(es, depth, limit);
    SiblingsFirstVisits(es, depth, limit);
  }

  lemma {:induction false} LimitOnlyOmits(es: seq<Entry>, depth: nat, limit: nat)
    ensures Entries(es, depth, limit) <= Entries(es, depth, 0)
  {
    if es != [] {
      if es[0].Dir? { LimitOnlyOmits(es[0].children, depth + 1, limit); }
      LimitOnlyOmits(es[1..], depth, limit);
    }
  }

  /** When the paths of the whole tree are distinct, no traversal visits an entry twice, whatever the limit. */
  lemma NoEntryTwice(es: seq<Entry>, depth: nat, limit: nat, i: nat, j: nat)
    requires forall p :: Entries(es, depth, 0)[p] <= 1
    requires i < j < |Preorder(es, depth, limit)|
    ensures |SiblingsFirst(es, depth, limit)| == |Preorder(es, depth, limit)|
    ensures Preorder(es, depth, limit)[i] != Preorder(es, depth, limit)[j]
    ensures SiblingsFirst(es, depth, limit)[i] != SiblingsFirst(es, depth, limit)[j]
  {
    OrdersArePermutations(es, depth, limit);
    LimitOnlyOmits(es, depth, limit);
    var p, s := Preorder(es, depth, limit), SiblingsFirst(es, depth, limit);
    assert |p| == |multiset(p)| == |multiset(s)| == |s|;
    Repeated(p, i, j);
    Repeated(s, i, j);
  }

  lemma Repeated(s: seq<string>, i: nat, j: nat)
    requires i < j < |s|
    ensures s[i] == s[j] ==> multiset(s)[s[i]] >= 2
  {
    assert s == s[..j] + s[j..];
    assert multiset(s) == multiset(s[..j]) + multiset(s[j..]);
    assert s[i] in s[..j] && s[j] in s[j..];
  }

  // ------------------------------------------------------------------------------------------
  // The same orders followed by something else
  // ------------------------------------------------------------------------------------------

  function PreorderThen(es: seq<Entry>, depth: nat, limit: nat, rest: seq<string>): seq<string>
    decreases es, 1
  {
    if es == [] then rest else [es[0].path] + BelowThen(es[0], depth, limit, PreorderThen(es[1..], depth, limit, rest))
  }

  function BelowThen(e: Entry, depth: nat, limit: nat, rest: seq<string>): seq<string>
    decreases e, 0
  {
    if e.Dir? && MayDescend(depth, limit) then PreorderThen(e.children, depth + 1, limit, rest) else rest
  }

  lemma {:induction false} PreorderThenRest(es: seq<Entry>, depth: nat, limit: nat, rest: seq<string>)
    ensures PreorderThen(es, depth, limit, rest) == Preorder(es, depth, limit) + rest
    decreases es, 1
  {
    if es != [] {
      PreorderThenRest(es[1..], depth, limit, rest);
      BelowThenRest(es[0], depth, limit, Preorder(es[1..], depth, limit) + rest);
    }
  }

  lemma {:induction false} BelowThenRest(e: Entry, depth: nat, limit: nat, rest: seq<string>)
    ensures BelowThen(e, depth, limit, rest) == Below(e, depth, limit) + rest
    decreases e, 0
  {
    if e.Dir? && MayDescend(depth, limit) { PreorderThenRest(e.children, depth + 1, limit, rest); }
  }

  // ------------------------------------------------------------------------------------------
  // What a stack of iterators still has to deliver
  // ------------------------------------------------------------------------------------------

  /** Each level stands on an entry; what follows that entry is still to come, the top level first. */
  function Resume(stack: seq<Iterator>, limit: nat): seq<string> {
    if stack == [] then []
    else
      var n := |stack|;
      PreorderThen(Successor(stack[n - 1]), n, limit, Resume(stack[..n - 1], limit))
  }

  /** What comes after the entry the top iterator stands on, the entries below it included. */
  function PendingChildren(stack: seq<Iterator>, limit: nat): seq<string>
    requires stack != []
  {
    var top := stack[|stack| - 1];
    if top == [] then Resume(stack, limit) else BelowThen(top[0], |stack|, limit, Resume(stack, limit))
  }

  function Successor(it: Iterator): Iterator {
    if it == [] then [] else it[1..]
  }

  /** Entering a nonempty directory delivers its first entry and leaves the rest pending. */
  lemma EnterChildren(stack: seq<Iterator>, limit: nat)
    requires stack != [] && MayDescend(|stack|, limit)
    requires var top := stack[|stack| - 1]; top != [] && top[0].Dir? && top[0].children != []
    ensures var child := stack[|stack| - 1][0].children;
            PendingChildren(stack, limit) == [child[0].path] + PendingChildren(stack + [child], limit)
  {
    var n := |stack|;
    var child := stack[n - 1][0].children;
    var r := Resume(stack, limit);
    assert (stack + [child])[..n] == stack && (stack + [child])[n] == child;
    assert BelowThen(stack[n - 1][0], n, limit, r) == PreorderThen(child, n + 1, limit, r);
    assert Resume(stack + [child], limit) == PreorderThen(child[1..], n + 1, limit, r);
  }

  lemma NothingBelow(stack: seq<Iterator>, limit: nat)
    requires stack != []
    requires var top := stack[|stack| - 1];
             top == [] || !top[0].Dir? || top[0].children == [] || !MayDescend(|stack|, limit)
    ensures PendingChildren(stack, limit) == Resume(stack, limit)
  {
    var top := stack[|stack| - 1];
    if top != [] {
      assert BelowThen(top[0], |stack|, limit, Resume(stack, limit)) == Resume(stack, limit);
    }
  }

  /** The stack after moving the top iterator on and dropping exhausted levels. */
  function Settled(stack: seq<Iterator>): (s: seq<Iterator>)
    ensures |s| <= |stack|
    ensures (forall k :: 0 <= k < |stack| - 1 ==> stack[k] != []) ==> forall k :: 0 <= k < |s| ==> s[k] != []
  {
    if stack == [] then []
    else
      var n := |stack|;
      if |stack[n - 1]| > 1 then stack[..n - 1] + [stack[n - 1][1..]] else Settled(stack[..n - 1])
  }

  /** The settled stack stands on the first entry that was to be resumed. */
  lemma {:induction false} SettledDelivers(stack: seq<Iterator>, limit: nat)
    ensures var s := Settled(stack);
            if s == [] then Resume(stack, limit) == []
            else s[|s| - 1] != [] && Resume(stack, limit) == [s[|s| - 1][0].path] + PendingChildren(s, limit)
  {
    if stack != [] {
      var n := |stack|;
      if |stack[n - 1]| <= 1 {
        SettledDelivers(stack[..n - 1], limit);
      } else {
        var s := Settled(stack);
        assert s[..n - 1] == stack[..n - 1] && s[n - 1] == stack[n - 1][1..];
      }
    }
  }

  lemma MoveHead(a: seq<string>, b: seq<string>)
    requires b != []
    ensures a + b == (a + [b[0]]) + b[1..]
  {
  }

  // ------------------------------------------------------------------------------------------
  // ChildrenFirstTraverse
  // ------------------------------------------------------------------------------------------

  class ChildrenFirstIterator {
    const root: Entry
    const maxDepth: nat
    var itStack: seq<Iterator>
    var isFinished: bool
    var current: string

    /** Only the iterator of an empty root directory can stand at its end, and then it stands on the directory itself. */
    ghost predicate Valid()
      reads `itStack, `isFinished
    {
      root.Dir? && maxDepth < 0x10000
      && (isFinished <==> itStack == [])
      && (maxDepth != 0 ==> |itStack| <= maxDepth)
      && (forall k :: 0 <= k < |itStack| && itStack[k] == [] ==> root.children == [] && k == 0 == |itStack| - 1)
    }

    ghost function Pending(): seq<string>
      reads `itStack, `isFinished
      requires Valid()
    {
      if isFinished then [] else PendingChildren(itStack, maxDepth)
    }

    constructor (root: Entry, maxDepth: nat)
      requires root.Dir? && maxDepth < 0x10000
      ensures Valid() && this.root == root && this.maxDepth == maxDepth && !isFinished
      ensures root.children != [] ==> [current] + Pending() == Preorder(root.children, 1, maxDepth)
      ensures root.children == [] ==> current == root.path && Pending() == []
    {
      this.root, this.maxDepth := root, maxDepth;
      itStack, isFinished := [root.children], false;
      current := if root.children == [] then root.path else root.children[0].path;
      PreorderThenRest(root.children, 1, maxDepth, []);
      new;
      assert itStack[..0] == [] && Resume(itStack[..0], maxDepth) == [];
    }

    /** The entries of the directory the top iterator stands on. */
    function CurrentChildren(): Iterator
      reads this
      requires itStack != []
    {
      var top := itStack[|itStack| - 1];
      if top != [] && top[0].Dir? then top[0].children else []
    }

    method Next() returns (path: string)
      requires Valid() && !isFinished
      modifies `itStack, `isFinished
      ensures Valid()
      ensures old(Pending()) != [] ==> !isFinished && [path] + Pending() == old(Pending())
      ensures old(Pending()) == [] ==> isFinished && path == END_PATH
    {
      hide PendingChildren, Resume, Settled;
      var n := |itStack|;
      var top := itStack[n - 1];
      var isDepthLimitReached := maxDepth != 0 && n % 0x10000 >= maxDepth;
      assert isDepthLimitReached == !MayDescend(n, maxDepth);
      if !isDepthLimitReached && (top == [] || top[0].Dir?) {
        var child := CurrentChildren();
        if child != [] {
          EnterChildren(itStack, maxDepth);
          itStack := itStack + [child];
          return child[0].path;
        }
      }
      NothingBelow(itStack, maxDepth);
      SettledDelivers(itStack, maxDepth);
      path := NextUpward();
    }

    /** The second half of next: the right sibling, or that of the nearest level that has one. */
    method NextUpward() returns (path: string)
      requires itStack != [] && !isFinished
      modifies `itStack, `isFinished
      ensures itStack == Settled(old(itStack)) && (isFinished <==> itStack == [])
      ensures itStack != [] ==> itStack[|itStack| - 1] != [] && path == itStack[|itStack| - 1][0].path
      ensures itStack == [] ==> path == END_PATH
    {
      Advance();
      while itStack[|itStack| - 1] == []
        invariant itStack != [] && !isFinished
        invariant Settled(old(itStack)) == if itStack[|itStack| - 1] != [] then itStack else Settled(itStack[..|itStack| - 1])
        decreases |itStack|
      {
        itStack := itStack[..|itStack| - 1];
        if itStack == [] {
          isFinished := true;
          return END_PATH;
        }
        Advance();
      }
      return itStack[|itStack| - 1][0].path;
    }

    /** ++itStack->top() */
    method Advance()
      requires itStack != []
      modifies `itStack
      ensures var n := |old(itStack)|; itStack == old(itStack)[..n - 1] + [Successor(old(itStack)[n - 1])]
    {
      var n := |itStack|;
      itStack := itStack[..n - 1] + [Successor(itStack[n - 1])];
    }

    /** The client loop: collect the path, advance, until the path is that of the end iterator. */
    method Collect() returns (result: seq<string>)
      requires Valid() && !isFinished && current != END_PATH && END_PATH !in Pending()
      modifies this
      ensures isFinished && result == old([current] + Pending())
    {
      hide Valid, Pending;
      ghost var all, todo := [current] + Pending(), [current] + Pending();
      result := [];
      while current != END_PATH
        invariant Valid() && (isFinished <==> todo == []) && (isFinished <==> current == END_PATH)
        invariant !isFinished ==> todo == [current] + Pending()
        invariant END_PATH !in todo
        invariant all == result + todo
        decreases |todo|
      {
        assert todo[1..] == Pending();
        MoveHead(result, todo);
        var file := current;
        current := Next();
        result := result + [file];
        todo := todo[1..];
        assert todo != [] ==> current == todo[0];
      }
    }
  }

  // ------------------------------------------------------------------------------------------
  // What stacks of iterators and queues still have to deliver
  // ------------------------------------------------------------------------------------------

  function PathsThen(es: seq<Entry>, rest: seq<string>): seq<string> {
    if es == [] then rest else [es[0].path] + PathsThen(es[1..], rest)
  }

  function SiblingsThen(es: seq<Entry>, depth: nat, limit: nat, rest: seq<string>): seq<string>
    decreases es, 2
  {
    PathsThen(es, DescentsThen(es, depth, limit, rest))
  }

  function DescentsThen(es: seq<Entry>, depth: nat, limit: nat, rest: seq<string>): seq<string>
    decreases es, 1
  {
    if es == [] then rest else DescentThen(es[0], depth, limit, DescentsThen(es[1..], depth, limit, rest))
  }

  function DescentThen(e: Entry, depth: nat, limit: nat, rest: seq<string>): seq<string>
    decreases e, 0
  {
    if e.Dir? && MayDescend(depth, limit) then SiblingsThen(e.children, depth + 1, limit, rest) else rest
  }

  lemma {:induction false} PathsThenRest(es: seq<Entry>, rest: seq<string>)
    ensures PathsThen(es, rest) == Paths(es) + rest
  {
    if es != [] { PathsThenRest(es[1..], rest); }
  }

  lemma {:induction false} DescentsThenRest(es: seq<Entry>, depth: nat, limit: nat, rest: seq<string>)
    ensures DescentsThen(es, depth, limit, rest) == Descents(es, depth, limit) + rest
    decreases es, 1
  {
    if es != [] {
      DescentsThenRest(es[1..], depth, limit, rest);
      var after := Descents(es[1..], depth, limit) + rest;
      DescentThenRest(es[0], depth, limit, after);
    }
  }

  lemma {:induction false} DescentThenRest(e: Entry, depth: nat, limit: nat, rest: seq<string>)
    ensures DescentThen(e, depth, limit, rest) == Descent(e, depth, limit) + rest
    decreases e, 0
  {
    if e.Dir? && MayDescend(depth, limit) {
      DescentsThenRest(e.children, depth + 1, limit, rest);
      PathsThenRest(e.children, DescentsThen(e.children, depth + 1, limit, rest));
    }
  }

  lemma SiblingsThenRest(es: seq<Entry>, depth: nat, limit: nat, rest: seq<string>)
    ensures SiblingsThen(es, depth, limit, rest) == SiblingsFirst(es, depth, limit) + rest
  {
    DescentsThenRest(es, depth, limit, rest);
    PathsThenRest(es, DescentsThen(es, depth, limit, rest));
  }

  /** The queued directories, those of the top level first. */
  function ResumeQueues(queues: seq<seq<Entry>>, limit: nat): seq<string> {
    if queues == [] then []
    else DescentsThen(queues[|queues| - 1], |queues|, limit, ResumeQueues(queues[..|queues| - 1], limit))
  }

  /** The right siblings, then the directories queued or still to be met on the top level, then those of the levels below it. */
  function PendingSiblings(siblings: Iterator, onLevel: seq<Entry>, queues: seq<seq<Entry>>, limit: nat): seq<string>
    requires queues != []
  {
    PathsThen(siblings, DescentsThen(onLevel, |queues|, limit, ResumeQueues(queues[..|queues| - 1], limit)))
  }

  lemma EnteredForNothing(e: Entry, depth: nat, limit: nat, rest: seq<string>)
    requires !e.Dir? || e.children == [] || !MayDescend(depth, limit)
    ensures DescentThen(e, depth, limit, rest) == rest
  {
    if e.Dir? && e.children == [] {
      assert DescentsThen(e.children, depth + 1, limit, rest) == rest;
      assert SiblingsThen(e.children, depth + 1, limit, rest) == PathsThen(e.children, rest) == rest;
    }
  }

  /** An entry that is not descended into can be left out of a queue. */
  lemma {:induction false} SkipEntry(queue: seq<Entry>, e: Entry, es: seq<Entry>, depth: nat, limit: nat, rest: seq<string>)
    requires !e.Dir? || e.children == [] || !MayDescend(depth, limit)
    ensures DescentsThen(queue + ([e] + es), depth, limit, rest) == DescentsThen(queue + es, depth, limit, rest)
  {
    if queue == [] {
      assert queue + ([e] + es) == [e] + es && queue + es == es;
      assert ([e] + es)[1..] == es;
      EnteredForNothing(e, depth, limit, DescentsThen(es, depth, limit, rest));
    } else {
      assert (queue + ([e] + es))[1..] == queue[1..] + ([e] + es);
      assert (queue + es)[1..] == queue[1..] + es;
      SkipEntry(queue[1..], e, es, depth, limit, rest);
    }
  }

  /** Drop empty queues and empty directories; the first nonempty directory is entered on a new level. */
  function SettledQueues(queues: seq<seq<Entry>>): (r: (seq<seq<Entry>>, Iterator))
    ensures r.0 == [] <==> r.1 == []
    ensures |r.0| <= |queues| + 1
    decreases |queues|, if queues == [] then 0 else |queues[|queues| - 1]|
  {
    if queues == [] then ([], [])
    else
      var n := |queues|;
      var below, queue := queues[..n - 1], queues[n - 1];
      if queue == [] then SettledQueues(below)
      else if Listing(queue[0]) != [] then (below + [queue[1..]] + [[]], Listing(queue[0]))
      else SettledQueues(below + [queue[1..]])
  }

  /** DirectoryIterator(path) */
  function Listing(e: Entry): Iterator {
    if e.Dir? then e.children else []
  }

  ghost predicate QueuesSound(queues: seq<seq<Entry>>, limit: nat) {
    forall k :: 0 <= k < |queues| && queues[k] != [] ==> MayDescend(k + 1, limit)
  }

  lemma {:induction false} SettledQueuesDeliver(queues: seq<seq<Entry>>, limit: nat)
    requires QueuesSound(queues, limit)
    ensures var (qs, child) := SettledQueues(queues);
            QueuesSound(qs, limit) && (limit != 0 && |queues| <= limit ==> |qs| <= limit) &&
            if qs == [] then ResumeQueues(queues, limit) == []
            else qs[|qs| - 1] == [] &&
                 ResumeQueues(queues, limit) == [child[0].path] + PendingSiblings(child[1..], child, qs, limit)
    decreases |queues|, if queues == [] then 0 else |queues[|queues| - 1]|
  {
    if queues != [] {
      var n := |queues|;
      var below, queue := queues[..n - 1], queues[n - 1];
      hide DescentsThen, DescentThen, PendingSiblings;
      if queue == [] {
        EmptyQueue(queues, limit);
        SettledQueuesDeliver(below, limit);
      } else {
        var shorter := below + [queue[1..]];
        TakeDirectory(queues, shorter, limit);
        if Listing(queue[0]) == [] {
          SettledQueuesDeliver(shorter, limit);
          EnteredForNothing(queue[0], n, limit, ResumeQueues(shorter, limit));
        } else {
          EnterQueued(queue[0], shorter, limit);
        }
      }
    }
  }

  lemma EmptyQueue(queues: seq<seq<Entry>>, limit: nat)
    requires queues != [] && queues[|queues| - 1] == []
    ensures ResumeQueues(queues, limit) == ResumeQueues(queues[..|queues| - 1], limit)
  {
  }

  lemma TakeDirectory(queues: seq<seq<Entry>>, shorter: seq<seq<Entry>>, limit: nat)
    requires queues != [] && queues[|queues| - 1] != []
    requires shorter == queues[..|queues| - 1] + [queues[|queues| - 1][1..]]
    requires QueuesSound(queues, limit)
    ensures QueuesSound(shorter, limit) && MayDescend(|queues|, limit)
    ensures ResumeQueues(queues, limit)
         == DescentThen(queues[|queues| - 1][0], |queues|, limit, ResumeQueues(shorter, limit))
  {
    assert shorter[..|queues| - 1] == queues[..|queues| - 1];
  }

  /** A queued directory is entered on a level of its own, with an empty queue. */
  lemma EnterQueued(dir: Entry, queues: seq<seq<Entry>>, limit: nat)
    requires dir.Dir? && dir.children != [] && queues != [] && MayDescend(|queues|, limit)
    requires QueuesSound(queues, limit)
    ensures QueuesSound(queues + [[]], limit)
    ensures DescentThen(dir, |queues|, limit, ResumeQueues(queues, limit))
         == [dir.children[0].path] + PendingSiblings(dir.children[1..], dir.children, queues + [[]], limit)
  {
    var qs, child := queues + [[]], dir.children;
    assert qs[..|queues|] == queues;
    var todo := DescentsThen(child, |qs|, limit, ResumeQueues(queues, limit));
    assert DescentThen(dir, |queues|, limit, ResumeQueues(queues, limit))
        == SiblingsThen(child, |qs|, limit, ResumeQueues(queues, limit));
    assert PathsThen(child, todo) == [child[0].path] + PathsThen(child[1..], todo);
  }

  /** The current entry goes into the queue of its level when it is a directory that may be entered. */
  function Enqueued(queues: seq<seq<Entry>>, e: Entry, limit: nat): (r: seq<seq<Entry>>)
    requires queues != []
    ensures |r| == |queues| && r[..|r| - 1] == queues[..|r| - 1]
    ensures r[|r| - 1] == if e.Dir? && MayDescend(|r|, limit) then queues[|r| - 1] + [e] else queues[|r| - 1]
  {
    var n := |queues|;
    if e.Dir? && MayDescend(n, limit) then queues[..n - 1] + [queues[n - 1] + [e]] else queues
  }

  lemma EnqueuedIsSound(queues: seq<seq<Entry>>, e: Entry, limit: nat)
    requires queues != [] && QueuesSound(queues, limit)
    ensures QueuesSound(Enqueued(queues, e, limit), limit)
  {
  }

  /** Moving on to the right sibling changes nothing of what is to come: the entry is queued, or there is nothing below it. */
  lemma QueueCurrent(before: seq<seq<Entry>>, top: Iterator, current: Entry, limit: nat)
    requires before != []
    requires if top == [] then current.Dir? && current.children == [] else current == top[0]
    ensures var after := Enqueued(before, current, limit);
            PendingSiblings(Successor(top), before[|before| - 1] + top, before, limit) ==
            PendingSiblings(Successor(top), after[|after| - 1] + Successor(top), after, limit)
  {
    hide PathsThen, DescentsThen, ResumeQueues;
    var n := |before|;
    var q := before[n - 1];
    var after := Enqueued(before, current, limit);
    var rest := ResumeQueues(before[..n - 1], limit);
    if top == [] {
      SkipEntry(q, current, [], n, limit, rest);
      assert q + [] == q && q + ([current] + []) == q + [current] && (q + [current]) + [] == q + [current];
    } else {
      assert top == [current] + top[1..];
      assert (q + [current]) + top[1..] == q + top;
      if after[n - 1] == q { SkipEntry(q, current, top[1..], n, limit, rest); }
    }
  }

  lemma NextSibling(siblings: Iterator, onLevel: seq<Entry>, queues: seq<seq<Entry>>, limit: nat)
    requires siblings != [] && queues != []
    ensures PendingSiblings(siblings, onLevel, queues, limit)
         == [siblings[0].path] + PendingSiblings(siblings[1..], onLevel, queues, limit)
  {
  }

  /** When a level is listed to its end, only queues are left. */
  lemma LevelListed(queues: seq<seq<Entry>>, limit: nat)
    requires queues != []
    ensures PendingSiblings([], queues[|queues| - 1] + [], queues, limit) == ResumeQueues(queues, limit)
  {
    assert queues[|queues| - 1] + [] == queues[|queues| - 1];
  }

  // ------------------------------------------------------------------------------------------
  // SiblingsFirstTraverse
  // ------------------------------------------------------------------------------------------

  class SiblingsFirstIterator {
    const root: Entry
    const maxDepth: nat
    var itStack: seq<Iterator>
    var dirsStack: seq<seq<Entry>>
    var isFinished: bool
    var current: string

    /** Both stacks have the same height; the levels below the top have been listed to their end. */
    ghost predicate Valid()
      reads `itStack, `dirsStack, `isFinished
    {
      root.Dir? && maxDepth < 0x10000
      && (isFinished <==> itStack == [])
      && |itStack| == |dirsStack|
      && (maxDepth != 0 ==> |itStack| <= maxDepth)
      && (forall k :: 0 <= k < |itStack| - 1 ==> itStack[k] == [])
      && (!isFinished && itStack[|itStack| - 1] == [] ==> root.children == [] && |itStack| == 1)
      && QueuesSound(dirsStack, maxDepth)
    }

    ghost function Pending(): seq<string>
      reads `itStack, `dirsStack, `isFinished
      requires Valid()
    {
      if isFinished then []
      else
        var top := itStack[|itStack| - 1];
        PendingSiblings(Successor(top), dirsStack[|dirsStack| - 1] + top, dirsStack, maxDepth)
    }

    constructor (root: Entry, maxDepth: nat)
      requires root.Dir? && maxDepth < 0x10000
      ensures Valid() && this.root == root && this.maxDepth == maxDepth && !isFinished
      ensures root.children != [] ==> [current] + Pending() == SiblingsFirst(root.children, 1, maxDepth)
      ensures root.children == [] ==> current == root.path && Pending() == []
    {
      this.root, this.maxDepth := root, maxDepth;
      itStack, dirsStack, isFinished := [root.children], [[]], false;
      current := if root.children == [] then root.path else root.children[0].path;
      SiblingsThenRest(root.children, 1, maxDepth, []);
      new;
      assert dirsStack[..0] == [] && [] + root.children == root.children;
    }

    method Next() returns (path: string)
      requires Valid() && !isFinished
      modifies `itStack, `dirsStack, `isFinished
      ensures Valid()
      ensures old(Pending()) != [] ==> !isFinished && [path] + Pending() == old(Pending())
      ensures old(Pending()) == [] ==> isFinished && path == END_PATH
    {
      hide PendingSiblings, ResumeQueues, SettledQueues;
      StepRight();
      var top := itStack[|itStack| - 1];
      if top == [] {
        LevelListed(dirsStack, maxDepth);
        SettledQueuesDeliver(dirsStack, maxDepth);
        path := NextDownward();
        if !isFinished {
          var child := itStack[|itStack| - 1];
          assert dirsStack[|dirsStack| - 1] + child == child;
        }
      } else {
        NextSibling(top, dirsStack[|dirsStack| - 1] + top, dirsStack, maxDepth);
        path := top[0].path;
      }
    }

    /** The first half of next: queue the current entry if it is a directory, and move on to its right sibling. */
    method StepRight()
      requires Valid() && !isFinished
      modifies `itStack, `dirsStack
      ensures |itStack| == |dirsStack| == old(|itStack|)
      ensures forall k :: 0 <= k < |itStack| - 1 ==> itStack[k] == []
      ensures QueuesSound(dirsStack, maxDepth)
      ensures var top := itStack[|itStack| - 1];
              old(Pending()) == PendingSiblings(top, dirsStack[|dirsStack| - 1] + top, dirsStack, maxDepth)
    {
      var n := |itStack|;
      var top := itStack[n - 1];
      var isDepthLimitReached := maxDepth != 0 && n % 0x10000 >= maxDepth;
      assert isDepthLimitReached == !MayDescend(n, maxDepth);
      ghost var queues := dirsStack;
      ghost var current := if top == [] then root else top[0];
      if !isDepthLimitReached && (top == [] || top[0].Dir?) {
        var dir := if top == [] then root else top[0];
        dirsStack := dirsStack[..n - 1] + [dirsStack[n - 1] + [dir]];
      }
      assert dirsStack == Enqueued(queues, current, maxDepth);
      itStack := itStack[..n - 1] + [Successor(top)];
      EnqueuedIsSound(queues, current, maxDepth);
      QueueCurrent(queues, top, current, maxDepth);
      hide PendingSiblings, QueuesSound, Enqueued;
    }

    /** The loop of next at the end of a level: enter a queued directory, or return to the level below. */
    method NextDownward() returns (path: string)
      requires |itStack| == |dirsStack| > 0 && !isFinished && forall k :: 0 <= k < |itStack| ==> itStack[k] == []
      modifies `itStack, `dirsStack, `isFinished
      ensures |itStack| == |dirsStack| && (isFinished <==> itStack == [])
      ensures dirsStack == SettledQueues(old(dirsStack)).0
      ensures forall k :: 0 <= k < |itStack| - 1 ==> itStack[k] == []
      ensures itStack != [] ==> itStack[|itStack| - 1] == SettledQueues(old(dirsStack)).1 && path == itStack[|itStack| - 1][0].path
      ensures itStack == [] ==> path == END_PATH
    {
      while true
        invariant |itStack| == |dirsStack| > 0 && !isFinished
        invariant forall k :: 0 <= k < |itStack| ==> itStack[k] == []
        invariant SettledQueues(dirsStack) == SettledQueues(old(dirsStack))
        decreases |dirsStack|
      {
        var n := |dirsStack|;
        while dirsStack[n - 1] != []
          invariant n == |itStack| == |dirsStack| && !isFinished
          invariant forall k :: 0 <= k < |itStack| ==> itStack[k] == []
          invariant SettledQueues(dirsStack) == SettledQueues(old(dirsStack))
          decreases |dirsStack[n - 1]|
        {
          var dir := dirsStack[n - 1][0];
          dirsStack := dirsStack[..n - 1] + [dirsStack[n - 1][1..]];
          var child := Listing(dir);
          if child != [] {
            itStack := itStack + [child];
            dirsStack := dirsStack + [[]];
            return child[0].path;
          }
        }
        itStack := itStack[..n - 1];
        dirsStack := dirsStack[..n - 1];
        if itStack == [] {
          isFinished := true;
          return END_PATH;
        }
      }
    }

    /** The client loop: collect the path, advance, until the path is that of the end iterator. */
    method Collect() returns (result: seq<string>)
      requires Valid() && !isFinished && current != END_PATH && END_PATH !in Pending()
      modifies this
      ensures isFinished && result == old([current] + Pending())
    {
      hide Valid, Pending;
      ghost var all, todo := [current] + Pending(), [current] + Pending();
      result := [];
      while current != END_PATH
        invariant Valid() && (isFinished <==> todo == []) && (isFinished <==> current == END_PATH)
        invariant !isFinished ==> todo == [current] + Pending()
        invariant END_PATH !in todo
        invariant all == result + todo
        decreases |todo|
      {
        assert todo[1..] == Pending();
        MoveHead(result, todo);
        var file := current;
        current := Next();
        result := result + [file];
        todo := todo[1..];
        assert todo != [] ==> current == todo[0];
      }
    }
  }

  /** The whole traversal, with the one exception: an empty root directory is delivered as an entry of itself. */
  method WalkChildrenFirst(root: Entry, maxDepth: nat) returns (result: seq<string>)
    requires root.Dir? && maxDepth < 0x10000 && root.path != END_PATH && END_PATH !in Preorder(root.children, 1, maxDepth)
    ensures result == Preorder(root.children, 1, maxDepth) <==> root.children != []
    ensures root.children == [] ==> result == [root.path]
  {
    var it := new ChildrenFirstIterator(root, maxDepth);
    assert root.children != [] ==> ([it.current] + it.Pending())[0] == it.current;
    assert root.children != [] ==> ([it.current] + it.Pending())[1..] == it.Pending();
    result := it.Collect();
  }

  method WalkSiblingsFirst(root: Entry, maxDepth: nat) returns (result: seq<string>)
    requires root.Dir? && maxDepth < 0x10000 && root.path != END_PATH && END_PATH !in SiblingsFirst(root.children, 1, maxDepth)
    ensures result == SiblingsFirst(root.children, 1, maxDepth) <==> root.children != []
    ensures root.children == [] ==> result == [root.path]
  {
    var it := new SiblingsFirstIterator(root, maxDepth);
    assert root.children != [] ==> ([it.current] + it.Pending())[0] == it.current;
    assert root.children != [] ==> ([it.current] + it.Pending())[1..] == it.Pending();
    result := it.Collect();
  }
}
