/** Small lists in good order, one element per node, on which the commands' paths are worked
    out. The list key is [0]; nodes and blocks have the other one-byte keys. */
module Samples {
  import opened Wrappers
  import opened Width
  import opened ZipList
  import opened Records
  import opened Chain

  /** A node holding a one-element block stored at `zk`. */
  function Single(left: Option<Key>, right: Option<Key>, zk: Key, x: Value): Node
  {
    Node(left, right, Some(zk), 1, Trunc32(EncodedSize([x])))
  }

  /** One node: key [1] with block [3] holding `x`. */
  function OneNode(x: Value): Store
  {
    map[[0] := HeadRecord(Head(Some([1]), Some([1]), 1, 1)),
        [1] := NodeRecord(Single(None, None, [3], x)), [3] := BlockRecord([x])]
  }

  /** Two nodes: [1] with block [3] holding `a`, then [2] with block [4] holding `x`. */
  function TwoNodes(a: Value, x: Value): Store
  {
    map[[0] := HeadRecord(Head(Some([1]), Some([2]), 2, 2)),
        [1] := NodeRecord(Single(None, Some([2]), [3], a)), [3] := BlockRecord([a]),
        [2] := NodeRecord(Single(Some([1]), None, [4], x)), [4] := BlockRecord([x])]
  }

  /** Three nodes: [1], [2] and [5], with blocks [3], [4] and [6] holding `a`, `x` and `z`. */
  function ThreeNodes(a: Value, x: Value, z: Value): Store
  {
    map[[0] := HeadRecord(Head(Some([1]), Some([5]), 3, 3)),
        [1] := NodeRecord(Single(None, Some([2]), [3], a)), [3] := BlockRecord([a]),
        [2] := NodeRecord(Single(Some([1]), Some([5]), [4], x)), [4] := BlockRecord([x]),
        [5] := NodeRecord(Single(Some([2]), None, [6], z)), [6] := BlockRecord([z])]
  }

  /** The nodes of `ThreeNodes`, left to right. */
  function ThreeNodesWalk(a: Value, x: Value, z: Value): seq<Node>
  {
    [Single(None, Some([2]), [3], a), Single(Some([1]), Some([5]), [4], x), Single(Some([2]), None, [6], z)]
  }

  /** The one-node sample is a list in good order holding `x`. */
  lemma OneNodeOrder(x: Value)
    ensures Linked(OneNode(x), [0], 0) && Counted(OneNode(x), [0], 0)
    ensures Elements(OneNode(x), [0], 0) == [x]
  {
    var db := OneNode(x);
    assert RightWalk(db, [1], 0) == Walk([[1]], [Single(None, None, [3], x)], NoRight);
    assert Blocks(db, WalkOf(db, [0], 0).nodes) == [[x]];
    FlattenFew([x], [], []);
  }

  /** The two-node sample is a list in good order holding `a` then `x`. */
  lemma TwoNodesOrder(a: Value, x: Value)
    ensures Linked(TwoNodes(a, x), [0], 1) && Counted(TwoNodes(a, x), [0], 1)
    ensures Elements(TwoNodes(a, x), [0], 1) == [a, x]
  {
    var db := TwoNodes(a, x);
    var n1 := Single(None, Some([2]), [3], a);
    var n2 := Single(Some([1]), None, [4], x);
    assert RightWalk(db, [2], 0) == Walk([[2]], [n2], NoRight);
    assert RightWalk(db, [1], 1) == Walk([[1], [2]], [n1, n2], NoRight);
    assert Blocks(db, WalkOf(db, [0], 1).nodes) == [[a], [x]];
    FlattenFew([a], [x], []);
  }

  /** The walk of the three-node sample visits [1], [2] and [5]. */
  lemma ThreeNodesWalks(a: Value, x: Value, z: Value)
    ensures RightWalk(ThreeNodes(a, x, z), [1], 2) == Walk([[1], [2], [5]], ThreeNodesWalk(a, x, z), NoRight)
  {
    var db := ThreeNodes(a, x, z);
    var ns := ThreeNodesWalk(a, x, z);
    assert RightWalk(db, [5], 0) == Walk([[5]], ns[2..], NoRight);
    assert RightWalk(db, [2], 1) == Walk([[2], [5]], ns[1..], NoRight);
  }

  /** The three-node sample is linked, its walk visiting [1], [2] and [5]. */
  lemma ThreeNodesLinked(a: Value, x: Value, z: Value)
    ensures Linked(ThreeNodes(a, x, z), [0], 2)
    ensures WalkOf(ThreeNodes(a, x, z), [0], 2) == Walk([[1], [2], [5]], ThreeNodesWalk(a, x, z), NoRight)
    ensures Blocks(ThreeNodes(a, x, z), ThreeNodesWalk(a, x, z)) == [[a], [x], [z]]
  {
    var db := ThreeNodes(a, x, z);
    var ns := ThreeNodesWalk(a, x, z);
    ThreeNodesWalks(a, x, z);
    assert Readable(db, ns) by {
      assert ValuesOf(db, ns[0]) == Ok([a]) && ValuesOf(db, ns[1]) == Ok([x]) && ValuesOf(db, ns[2]) == Ok([z]);
    }
    assert DistinctBlocks(ns);
  }

  /** The three-node sample is a list in good order holding `a`, `x` and `z`. */
  lemma ThreeNodesOrder(a: Value, x: Value, z: Value)
    ensures Linked(ThreeNodes(a, x, z), [0], 2) && Counted(ThreeNodes(a, x, z), [0], 2)
    ensures WalkOf(ThreeNodes(a, x, z), [0], 2) == Walk([[1], [2], [5]], ThreeNodesWalk(a, x, z), NoRight)
    ensures Blocks(ThreeNodes(a, x, z), ThreeNodesWalk(a, x, z)) == [[a], [x], [z]]
    ensures Elements(ThreeNodes(a, x, z), [0], 2) == [a, x, z]
  {
    ThreeNodesLinked(a, x, z);
    FlattenFew([a], [x], [z]);
    assert NodesCounted(ThreeNodesWalk(a, x, z), [[a], [x], [z]]);
  }
}
