/**
 * The linked chain behind `struct node* root`, updated in place by
 * `insert_path` and released by `free_path`.
 *
 * The chain is kept as the sequence of its nodes in `next` order (the root
 * first), so a node pointer is a position in `nodes` and NULL is the
 * position |nodes|. Field updates of a node reassign that element; a splice
 * reassigns `nodes` with one node inserted.
 */
module PathComp {
  import opened Mask
  import opened Chain

  class PathChain {
    /** The nodes reachable from the root, in `next` order. */
    var nodes: seq<Node>

    /** The root always exists. */
    ghost predicate Valid()
      reads this
    {
      |nodes| >= 1
    }

    /** The root as `calloc(1, sizeof(struct node))` leaves it: one zeroed node. */
    constructor ()
      ensures Valid() && nodes == [Zeroed]
    {
      nodes := [Zeroed];
    }

    /**
     * insert_path: walk `path` from the root, recording each identifier at
     * the cursor and then following `next` as many times as there are
     * higher identifiers recorded there, or splicing in a zeroed node when
     * there are none; then mark the final node as the end of a path and
     * store the weight. A walk that follows `next` past the last node
     * dereferences NULL; that outcome is reported with the chain as it was
     * at that moment.
     */
    method InsertPath(path: seq<int>, weight: uint32) returns (outcome: Outcome)
      requires Valid() && ValidPath(path)
      modifies this
      ensures Valid()
      ensures Walk(nodes, outcome) == Insert(old(nodes), path, weight)
    {
      var i := 0;
      var k := 0;
      while k < |path|
        invariant 0 <= k <= |path|
        invariant i < |nodes|
        invariant Run(old(nodes), 0, path, 0) == Run(nodes, i, path, k)
      {
        ghost var before, from := nodes, i;
        var pos := path[k];
        nodes := nodes[i := nodes[i].(mask := nodes[i].mask + {pos})];
        var n := CountUpperBits(nodes[i].mask, pos);
        if n > 0 {
          var j := n;
          while j > 0
            invariant 0 <= j <= n
            invariant i == from + (n - j) <= |nodes|
          {
            if i == |nodes| {
              // `i = i->next` with i == NULL
              return NullDereference;
            }
            i := i + 1;
            j := j - 1;
          }
          if i == |nodes| {
            // the cursor is NULL and the next statement dereferences it
            return NullDereference;
          }
        } else {
          nodes := nodes[..i + 1] + [Zeroed] + nodes[i + 1..];
          i := i + 1;
        }
        k := k + 1;
      }
      nodes := nodes[i := nodes[i].(terminal := true, weight := weight)];
      outcome := EndsAt(i);
    }

    /**
     * free_path: walk the chain from the root and release every node, each
     * once, in chain order; `released` lists them in the order they are
     * freed. Afterwards there is no chain left.
     */
    method FreePath() returns (released: seq<Node>)
      modifies this
      ensures released == old(nodes) && nodes == []
    {
      released := [];
      var current := 0;
      while current < |nodes|
        invariant 0 <= current <= |nodes|
        invariant released == nodes[..current]
      {
        released := released + [nodes[current]];
        current := current + 1;
      }
      nodes := [];
    }
  }
}
