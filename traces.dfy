/**
 * Concrete runs of `insert_path` on a freshly allocated root, worked out on
 * the model.
 */
module Traces {
  import opened Mask
  import opened Chain

  /**
   * Inserting [0, 1] with weight 10 on a fresh root leaves three nodes: the
   * root records 0, its successor records 1, and the end mark and weight sit
   * on the third node, not on `root->next`.
   */
  lemma FreshRootZeroOne()
    ensures Insert([Zeroed], [0, 1], 10) ==
      Walk([Node({0}, false, 0), Node({1}, false, 0), Node({}, true, 10)], EndsAt(2))
  {
    UpperBitsCounts({0}, 0);
    var s0 := Step([Zeroed], 0, 0);
    assert s0 == Walk([Node({0}, false, 0), Zeroed], EndsAt(1));
    UpperBitsCounts({1}, 1);
    var s1 := Step(s0.chain, 1, 1);
    assert s1 == Walk([Node({0}, false, 0), Node({1}, false, 0), Zeroed], EndsAt(2));
  }

  /**
   * Inserting the same path twice is not a no-op: [0] on a fresh root splices
   * one node, and [0] again splices a second one.
   */
  lemma SamePathTwiceGrows()
    ensures var first := Insert([Zeroed], [0], 1);
      |first.chain| == 2 && |Insert(first.chain, [0], 1).chain| == 3
  {
  }

  /**
   * Inserting [2], then [1], then [0] on a fresh root: the third insertion
   * counts two higher identifiers at the root but only one node follows it,
   * so the cursor runs past the end of the chain and is dereferenced.
   */
  lemma DescendingSingletonsRunOff()
    ensures var c1 := Insert([Zeroed], [2], 1).chain;
      var c2 := Insert(c1, [1], 1).chain;
      Insert(c2, [0], 1).outcome == NullDereference
  {
  }
}
