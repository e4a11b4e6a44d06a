/**
 * The chain of nodes that `insert_path` walks and grows, as a value.
 *
 * A chain is the sequence of nodes reached from the root by following `next`
 * links: `chain[0]` is the root and `chain[i + 1]` is `chain[i]->next`; the
 * NULL after the last node is position |chain|. A cursor is a position in
 * the chain. `Step`, `Run` and `Insert` say what one iteration of the loop
 * of `insert_path`, the whole loop, and the whole call do to the chain.
 */
module Chain {
  import opened Mask

  /** The `uint32_t weight` field of a node. */
  newtype uint32 = x: int | 0 <= x < 0x1_0000_0000

  /**
   * What one node holds besides its `next` link. The C code records the end
   * of a path by setting bit LLA of `letters_table`; here that is `terminal`.
   */
  datatype Node = Node(mask: Letters, terminal: bool, weight: uint32)

  /** A node as `calloc` returns it: no bits set, weight 0. */
  const Zeroed: Node := Node({}, false, 0)

  /** Where a walk stops: on a node of the chain, or by dereferencing NULL. */
  datatype Outcome = EndsAt(index: nat) | NullDereference

  /** The chain after a walk, and where the walk stopped. */
  datatype Walk = Walk(chain: seq<Node>, outcome: Outcome)

  /** Every identifier of the path is a valid bit position (`1ULL << id` is defined). */
  predicate ValidPath(path: seq<int>)
  {
    forall k :: 0 <= k < |path| ==> IsLetter(path[k])
  }

  /**
   * One iteration of the loop of `insert_path`: record `id` at the cursor,
   * count the recorded identifiers above `id`, then either follow `next`
   * that many times or splice a zeroed node in after the cursor and move
   * onto it. Following `next` past the last node reaches NULL, which the
   * next statement dereferences. Either way `id` is recorded at the cursor,
   * the nodes before the cursor are untouched, the chain grows by at most
   * one node, and the cursor only moves forward.
   */
  function Step(chain: seq<Node>, cur: nat, id: int): (w: Walk)
    requires cur < |chain| && IsLetter(id)
    ensures |chain| <= |w.chain| <= |chain| + 1
    ensures id in w.chain[cur].mask
    ensures forall i :: 0 <= i < cur ==> w.chain[i] == chain[i]
    ensures w.outcome.EndsAt? ==> cur < w.outcome.index < |w.chain|
  {
    var marked := chain[cur := chain[cur].(mask := chain[cur].mask + {id})];
    var n := UpperBits(marked[cur].mask, id);
    if n > 0 then
      if cur + n < |marked| then Walk(marked, EndsAt(cur + n))
      else Walk(marked, NullDereference)
    else
      Walk(marked[..cur + 1] + [Zeroed] + marked[cur + 1..], EndsAt(cur + 1))
  }

  /**
   * The loop of `insert_path` from iteration `k` on, with the cursor at `cur`.
   * The nodes before the cursor are never touched, the cursor never moves
   * back, and each remaining identifier adds at most one node.
   */
  function Run(chain: seq<Node>, cur: nat, path: seq<int>, k: nat): (w: Walk)
    requires cur < |chain| && k <= |path| && ValidPath(path)
    ensures |chain| <= |w.chain| <= |chain| + (|path| - k)
    ensures forall i :: 0 <= i < cur ==> w.chain[i] == chain[i]
    ensures w.outcome.EndsAt? ==> cur <= w.outcome.index < |w.chain|
    decreases |path| - k
  {
    if k == |path| then Walk(chain, EndsAt(cur))
    else
      var s := Step(chain, cur, path[k]);
      match s.outcome
      case NullDereference => s
      case EndsAt(next) => Run(s.chain, next, path, k + 1)
  }

  /**
   * `insert_path` on a chain: the loop from the root, then the node the
   * cursor ends on is marked as the end of a path and given the weight.
   * The chain grows by at most one node per identifier of the path.
   */
  function Insert(chain: seq<Node>, path: seq<int>, weight: uint32): (w: Walk)
    requires |chain| >= 1 && ValidPath(path)
    ensures |chain| <= |w.chain| <= |chain| + |path|
    ensures w.outcome.EndsAt? ==>
      w.outcome.index < |w.chain| && w.chain[w.outcome.index].terminal &&
      w.chain[w.outcome.index].weight == weight
  {
    var r := Run(chain, 0, path, 0);
    match r.outcome
    case NullDereference => r
    case EndsAt(e) => Walk(r.chain[e := r.chain[e].(terminal := true, weight := weight)], r.outcome)
  }

  /**
   * `after` grew from `before`: `pos[i]` is where node i of `before` now
   * stands. The root stays first, the old nodes keep their order, their
   * masks only gain identifiers, and except at position `except` the old
   * nodes keep their end marks and weights while every node that was not
   * there before is unmarked with weight 0.
   */
  ghost predicate Extends(before: seq<Node>, after: seq<Node>, pos: seq<nat>, except: int)
  {
    |pos| == |before| &&
    (forall i :: 0 <= i < |pos| ==> pos[i] < |after|) &&
    (forall i, j :: 0 <= i < j < |pos| ==> pos[i] < pos[j]) &&
    (|pos| > 0 ==> pos[0] == 0) &&
    (forall i :: 0 <= i < |pos| ==> before[i].mask <= after[pos[i]].mask) &&
    (forall i :: 0 <= i < |pos| && pos[i] != except ==>
       after[pos[i]].terminal == before[i].terminal && after[pos[i]].weight == before[i].weight) &&
    (forall j :: 0 <= j < |after| && j != except && j !in pos ==>
       !after[j].terminal && after[j].weight == 0)
  }

  /** Where the nodes of the first map's source end up after the second map. */
  function Compose(p: seq<nat>, q: seq<nat>): seq<nat>
    requires forall i :: 0 <= i < |p| ==> p[i] < |q|
  {
    seq(|p|, i requires 0 <= i < |p| => q[p[i]])
  }

  /** Growth composes: a chain grown twice has grown from the first. */
  lemma ExtendsTransitive(a: seq<Node>, b: seq<Node>, c: seq<Node>, p: seq<nat>, q: seq<nat>)
    requires Extends(a, b, p, -1) && Extends(b, c, q, -1)
    ensures Extends(a, c, Compose(p, q), -1)
  {
  }

  /** Only the cursor's node changes, by gaining `id`; the chain keeps its length. */
  lemma StepAdvances(chain: seq<Node>, cur: nat, id: int)
    requires cur < |chain| && IsLetter(id)
    requires UpperBits(chain[cur].mask, id) > 0
    ensures var w := Step(chain, cur, id);
      var n := UpperBits(chain[cur].mask, id);
      |w.chain| == |chain| &&
      w.chain[cur] == chain[cur].(mask := chain[cur].mask + {id}) &&
      (forall i :: 0 <= i < |chain| && i != cur ==> w.chain[i] == chain[i]) &&
      w.outcome == if cur + n < |chain| then EndsAt(cur + n) else NullDereference
  {
    UpperBitsIgnoresOwnBit(chain[cur].mask, id);
  }

  /**
   * When no recorded identifier lies above `id`, one zeroed node is spliced
   * in right after the cursor, the cursor's old successor follows it, and
   * every other node keeps its place relative to the rest.
   */
  lemma StepSplices(chain: seq<Node>, cur: nat, id: int)
    requires cur < |chain| && IsLetter(id)
    requires UpperBits(chain[cur].mask, id) == 0
    ensures var w := Step(chain, cur, id);
      |w.chain| == |chain| + 1 &&
      w.chain[cur] == chain[cur].(mask := chain[cur].mask + {id}) &&
      w.chain[cur + 1] == Zeroed &&
      (forall i :: 0 <= i < cur ==> w.chain[i] == chain[i]) &&
      (forall i :: cur < i < |chain| ==> w.chain[i + 1] == chain[i]) &&
      w.outcome == EndsAt(cur + 1)
  {
  }

  /** A step extends the chain, growing it by at most one node. */
  lemma StepExtends(chain: seq<Node>, cur: nat, id: int) returns (pos: seq<nat>)
    requires cur < |chain| && IsLetter(id)
    ensures var w := Step(chain, cur, id);
      Extends(chain, w.chain, pos, -1) && |chain| <= |w.chain| <= |chain| + 1
  {
    if UpperBits(chain[cur].mask, id) > 0 {
      StepAdvances(chain, cur, id);
      pos := Identity(|chain|);
    } else {
      StepSplices(chain, cur, id);
      pos := SpliceMap(|chain|, cur);
      SpliceExtends(chain, Step(chain, cur, id).chain, cur, id);
    }
  }

  /** Every node stays where it was. */
  function Identity(n: nat): seq<nat>
  {
    seq(n, i requires 0 <= i < n => i)
  }

  /** The nodes after the cursor move one place down. */
  function SpliceMap(n: nat, cur: nat): seq<nat>
  {
    seq(n, i requires 0 <= i < n => if i <= cur then i else i + 1)
  }

  lemma SpliceExtends(chain: seq<Node>, after: seq<Node>, cur: nat, id: int)
    requires cur < |chain| && IsLetter(id)
    requires |after| == |chain| + 1
    requires after[cur] == chain[cur].(mask := chain[cur].mask + {id})
    requires after[cur + 1] == Zeroed
    requires forall i :: 0 <= i < cur ==> after[i] == chain[i]
    requires forall i :: cur < i < |chain| ==> after[i + 1] == chain[i]
    ensures Extends(chain, after, SpliceMap(|chain|, cur), -1)
  {
    var pos := SpliceMap(|chain|, cur);
    forall j | 0 <= j < |after| && j != cur + 1
      ensures j in pos
    {
      if j <= cur {
        assert pos[j] == j;
      } else {
        assert pos[j - 1] == j;
      }
    }
  }

  /**
   * The loop only grows the chain: the old chain stays embedded in order
   * with the root first, masks only gain identifiers, no end mark or weight
   * changes, and each iteration adds at most one node.
   */
  lemma {:induction false} RunExtends(chain: seq<Node>, cur: nat, path: seq<int>, k: nat)
    returns (pos: seq<nat>)
    requires cur < |chain| && k <= |path| && ValidPath(path)
    ensures var w := Run(chain, cur, path, k);
      Extends(chain, w.chain, pos, -1) && |chain| <= |w.chain| <= |chain| + (|path| - k)
    decreases |path| - k
  {
    if k == |path| {
      pos := Identity(|chain|);
    } else {
      var s := Step(chain, cur, path[k]);
      var p := StepExtends(chain, cur, path[k]);
      match s.outcome
      case NullDereference =>
        pos := p;
      case EndsAt(next) =>
        var q := RunExtends(s.chain, next, path, k + 1);
        ExtendsTransitive(chain, s.chain, Run(s.chain, next, path, k + 1).chain, p, q);
        pos := Compose(p, q);
    }
  }

  /**
   * What `insert_path` does to a chain: when it ends on a node, that node is
   * marked as the end of a path and carries `weight`, and no other node's
   * mark or weight changes; in every case the old chain stays embedded in
   * order, masks only gain identifiers, and the chain grows by at most one
   * node per identifier of the path.
   */
  lemma InsertExtends(chain: seq<Node>, path: seq<int>, weight: uint32) returns (pos: seq<nat>)
    requires |chain| >= 1 && ValidPath(path)
    ensures var w := Insert(chain, path, weight);
      var e := if w.outcome.EndsAt? then w.outcome.index else -1;
      Extends(chain, w.chain, pos, e) &&
      |chain| <= |w.chain| <= |chain| + |path| &&
      (w.outcome.EndsAt? ==> w.chain[e].terminal && w.chain[e].weight == weight)
  {
    pos := RunExtends(chain, 0, path, 0);
  }
}
