/**
 * The pausable preorder walker over the arena: a queue of (handle, depth)
 * pairs whose front is the next node to yield.  Children are pushed onto
 * the front in reverse, so the leftmost child comes out next.
 */
module Walker {
  import opened Wrappers
  import opened Dom
  import opened Seqs

  /** What one step of the walk yields: the node's handle, the node, its depth. */
  type Item = (nat, Node, nat)

  /** Queue entries for the handles `hs`, in order, all at depth `d`. */
  function Tagged(hs: seq<nat>, d: nat): (q: seq<(nat, nat)>)
    ensures |q| == |hs|
  {
    if hs == [] then [] else [(hs[0], d)] + Tagged(hs[1..], d)
  }

  /** Entry `i` of the tagged queue is handle `i` at depth `d`. */
  lemma {:induction false} TaggedAt(hs: seq<nat>, d: nat, i: nat)
    requires i < |hs|
    ensures Tagged(hs, d)[i] == (hs[i], d)
  {
    if i > 0 {
      TaggedAt(hs[1..], d, i - 1);
    }
  }

  /** Tagging one more handle appends its entry. */
  lemma {:induction false} TaggedSnoc(hs: seq<nat>, x: nat, d: nat)
    ensures Tagged(hs + [x], d) == Tagged(hs, d) + [(x, d)]
  {
    if hs == [] {
      assert [] + [x] == [x];
    } else {
      assert (hs + [x])[0] == hs[0] && (hs + [x])[1..] == hs[1..] + [x];
      TaggedSnoc(hs[1..], x, d);
      ConcatAssoc([(hs[0], d)], Tagged(hs[1..], d), [(x, d)]);
    }
  }

  /** Every queued handle names a node of the arena. */
  predicate Resolves(arena: seq<Node>, q: seq<(nat, nat)>) {
    forall i :: 0 <= i < |q| ==> q[i].0 < |arena|
  }

  /** The handles `hs` all lie strictly between `lo` and the end of the arena. */
  predicate Between(arena: seq<Node>, hs: seq<nat>, lo: int) {
    forall i :: 0 <= i < |hs| ==> lo < hs[i] < |arena|
  }

  /**
   * The recursive preorder listing of the subtree rooted at handle `h` at
   * depth `d`: the node itself, then each child's subtree at depth `d + 1`.
   * The depth of a node is thus the number of its ancestors below the roots.
   */
  function NodePre(arena: seq<Node>, h: nat, d: nat): seq<Item>
    requires WellFormed(arena) && h < |arena|
    decreases |arena| - h, 1, 0
  {
    [(h, arena[h], d)] + ForestPre(arena, Children(arena[h]), d + 1, h)
  }

  /** The preorder listing of the subtrees at handles `hs`, in order, all at depth `d`. */
  function ForestPre(arena: seq<Node>, hs: seq<nat>, d: nat, lo: int): seq<Item>
    requires WellFormed(arena) && Between(arena, hs, lo)
    decreases |arena| - lo, 0, |hs|
  {
    if hs == [] then [] else NodePre(arena, hs[0], d) + ForestPre(arena, hs[1..], d, lo)
  }

  /** The preorder listing of the document whose top-level handles are `roots`, at depth 0. */
  function Preorder(arena: seq<Node>, roots: seq<nat>): seq<Item>
    requires WellFormed(arena) && Between(arena, roots, -1)
  {
    ForestPre(arena, roots, 0, -1)
  }

  /** What remains to be yielded from queue `q`: each entry's subtree, front to back. */
  function QueuePre(arena: seq<Node>, q: seq<(nat, nat)>): seq<Item>
    requires WellFormed(arena) && Resolves(arena, q)
  {
    if q == [] then [] else NodePre(arena, q[0].0, q[0].1) + QueuePre(arena, q[1..])
  }

  /** The listing of two queues one after the other is the two listings concatenated. */
  lemma {:induction false} QueuePreAppend(arena: seq<Node>, a: seq<(nat, nat)>, b: seq<(nat, nat)>)
    requires WellFormed(arena) && Resolves(arena, a) && Resolves(arena, b)
    ensures Resolves(arena, a + b)
    ensures QueuePre(arena, a + b) == QueuePre(arena, a) + QueuePre(arena, b)
  {
    if a == [] {
      assert a + b == b;
    } else {
      var ab := a + b;
      assert ab[0] == a[0] && ab[1..] == a[1..] + b;
      QueuePreAppend(arena, a[1..], b);
      var head := NodePre(arena, a[0].0, a[0].1);
      assert QueuePre(arena, ab) == head + QueuePre(arena, a[1..] + b);
      ConcatAssoc(head, QueuePre(arena, a[1..]), QueuePre(arena, b));
    }
  }

  /** A forest lists the same as a queue holding its roots at the forest's depth. */
  lemma {:induction false} ForestIsQueue(arena: seq<Node>, hs: seq<nat>, d: nat, lo: int)
    requires WellFormed(arena) && Between(arena, hs, lo)
    ensures Resolves(arena, Tagged(hs, d))
    ensures ForestPre(arena, hs, d, lo) == QueuePre(arena, Tagged(hs, d))
  {
    if hs != [] {
      ForestIsQueue(arena, hs[1..], d, lo);
    }
  }

  /** Handles inside the arena give queue entries that resolve, whatever their depth. */
  lemma {:induction false} TaggedResolves(arena: seq<Node>, hs: seq<nat>, d: nat, lo: int)
    requires Between(arena, hs, lo)
    ensures Resolves(arena, Tagged(hs, d))
  {
    if hs != [] {
      assert Between(arena, hs[1..], lo) by {
        assert forall i :: 0 <= i < |hs| - 1 ==> hs[1..][i] == hs[i + 1];
      }
      TaggedResolves(arena, hs[1..], d, lo);
    }
  }

  /** The children of a resolvable node lie after it and inside the arena. */
  lemma ChildrenBetween(arena: seq<Node>, h: nat)
    requires WellFormed(arena) && h < |arena|
    ensures Between(arena, Children(arena[h]), h)
  {
  }

  /** Queuing the children of a resolvable node in front of a resolvable queue gives a resolvable queue. */
  lemma PushResolves(arena: seq<Node>, h: nat, d: nat, rest: seq<(nat, nat)>)
    requires WellFormed(arena) && h < |arena| && Resolves(arena, rest)
    ensures Resolves(arena, Tagged(Children(arena[h]), d) + rest)
  {
    ChildrenBetween(arena, h);
    TaggedResolves(arena, Children(arena[h]), d, h);
  }

  /** A node lists itself, then the queue of its children one level deeper. */
  lemma NodePreUnfold(arena: seq<Node>, h: nat, d: nat)
    requires WellFormed(arena) && h < |arena|
    ensures Resolves(arena, Tagged(Children(arena[h]), d + 1))
    ensures NodePre(arena, h, d) == [(h, arena[h], d)] + QueuePre(arena, Tagged(Children(arena[h]), d + 1))
  {
    ChildrenBetween(arena, h);
    ForestIsQueue(arena, Children(arena[h]), d + 1, h);
  }

  /** A queue lists its front entry's subtree, then the rest of the queue. */
  lemma QueuePreCons(arena: seq<Node>, h: nat, d: nat, rest: seq<(nat, nat)>)
    requires WellFormed(arena) && h < |arena| && Resolves(arena, rest)
    ensures Resolves(arena, [(h, d)] + rest)
    ensures QueuePre(arena, [(h, d)] + rest) == NodePre(arena, h, d) + QueuePre(arena, rest)
  {
    assert ([(h, d)] + rest)[1..] == rest;
  }

  /**
   * Popping the front entry and pushing its children in front of the rest
   * yields the front node first, then exactly what the queue had left.
   */
  lemma QueuePreStep(arena: seq<Node>, h: nat, d: nat, rest: seq<(nat, nat)>)
    requires WellFormed(arena) && h < |arena| && Resolves(arena, rest)
    ensures Resolves(arena, [(h, d)] + rest)
    ensures Resolves(arena, Tagged(Children(arena[h]), d + 1) + rest)
    ensures QueuePre(arena, [(h, d)] + rest)
         == [(h, arena[h], d)] + QueuePre(arena, Tagged(Children(arena[h]), d + 1) + rest)
  {
    var kids := Tagged(Children(arena[h]), d + 1);
    QueuePreCons(arena, h, d, rest);
    PushResolves(arena, h, d + 1, rest);
    NodePreUnfold(arena, h, d);
    QueuePreAppend(arena, kids, rest);
    ConcatAssoc([(h, arena[h], d)], QueuePre(arena, kids), QueuePre(arena, rest));
  }

  /**
   * Pushes `children` onto the front of `q` one at a time, last child
   * first, so that the first child ends up in front.
   */
  method PushFront(children: seq<nat>, d: nat, q: seq<(nat, nat)>) returns (r: seq<(nat, nat)>)
    ensures r == Tagged(children, d) + q
  {
    r := q;
    var j := |children|;
    while j > 0
      invariant 0 <= j <= |children|
      invariant r == Tagged(children[j..], d) + q
    {
      j := j - 1;
      assert children[j..][1..] == children[j + 1..];
      r := [(children[j], d)] + r;
    }
  }

  /** The walker: a borrowed arena and the queue of pending (handle, depth) entries. */
  class DomWalker {
    const arena: seq<Node>
    var queue: seq<(nat, nat)>

    /** A walker over an acyclic arena whose queued handles all resolve. */
    ghost predicate Valid()
      reads this
    {
      WellFormed(arena) && Resolves(arena, queue)
    }

    /** Everything the walker has still to yield, in order. */
    ghost function Pending(): seq<Item>
      reads this
      requires Valid()
    {
      QueuePre(arena, queue)
    }

    /**
     * Seeds the queue with the roots, in the given order, each at depth 0.
     * Over an acyclic arena whose roots resolve, the new walker has the
     * whole preorder still to yield.
     */
    constructor (roots: seq<nat>, arena: seq<Node>)
      ensures this.arena == arena
      ensures queue == Tagged(roots, 0)
      ensures WellFormed(arena) && Between(arena, roots, -1) ==> Valid() && Pending() == Preorder(arena, roots)
    {
      var q: seq<(nat, nat)> := [];
      for i := 0 to |roots|
        invariant q == Tagged(roots[..i], 0)
      {
        TaggedSnoc(roots[..i], roots[i], 0);
        assert roots[..i + 1] == roots[..i] + [roots[i]];
        q := q + [(roots[i], 0)];
      }
      assert roots[..|roots|] == roots;
      this.arena := arena;
      queue := q;
      if WellFormed(arena) && Between(arena, roots, -1) {
        ForestIsQueue(arena, roots, 0, -1);
      }
    }

    /**
     * Pops the front entry.  An empty queue yields nothing; a handle that
     * does not resolve is dropped and yields nothing; otherwise the node's
     * children are pushed onto the front in reverse at depth + 1 and the
     * node is yielded with its depth.
     */
    method Next() returns (item: Option<Item>)
      modifies this
      ensures old(queue) == [] ==> item == None && queue == []
      ensures old(queue) != [] && old(queue)[0].0 >= |arena| ==> item == None && queue == old(queue)[1..]
      ensures old(queue) != [] && old(queue)[0].0 < |arena| ==>
                item == Some((old(queue)[0].0, arena[old(queue)[0].0], old(queue)[0].1)) &&
                queue == Tagged(Children(arena[old(queue)[0].0]), old(queue)[0].1 + 1) + old(queue)[1..]
      ensures old(queue) != [] ==> |queue| == |old(queue)| - 1 + (if item.Some? then |Children(item.value.1)| else 0)
      ensures old(Valid()) ==> Valid()
      ensures old(Valid()) ==> (item == None <==> old(Pending()) == [])
      ensures old(Valid()) && item == None ==> Pending() == []
      ensures old(Valid()) && item.Some? ==> old(Pending()) == [item.value] + Pending()
    {
      if queue == [] {
        return None;
      }
      var h, d := queue[0].0, queue[0].1;
      queue := queue[1..];
      if h >= |arena| {
        return None;
      }
      var node := arena[h];
      ghost var rest := queue;
      queue := PushFront(Children(node), d + 1, queue);
      item := Some((h, node, d));
      if old(Valid()) {
        assert old(queue) == [(h, d)] + rest;
        QueuePreStep(arena, h, d, rest);
      }
    }
  }
}
