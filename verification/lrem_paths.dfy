/** What `lrem` commits when it empties a block, on small lists in good order, one for each of
    the four splice paths. The head is written back after the walk whenever something was
    removed, so it overwrites whatever a path put under the list key. */
module LremPaths {
  import opened Wrappers
  import opened Width
  import opened ZipList
  import opened Records
  import opened Chain
  import opened ListImpl
  import opened Samples

  /** Removal with budget 1 from a one-element block. */
  lemma RemOne(y: Value, x: Value)
    ensures Rem([y], 1, x) == if y == x then ([], 1) else ([y], 0)
  {
    assert [y][1..] == [];
    if y != x {
      assert [y] + [] == [y];
    }
  }

  /** Emptying the only node (no neighbours): the block, the node and the list key are deleted,
      and then the head is put back with count 0, still naming the deleted node at both ends. */
  lemma LremEmptiesOnly(x: Value)
    ensures Linked(OneNode(x), [0], 0) && Counted(OneNode(x), [0], 0)
    ensures LremSpec(OneNode(x), [0], 1, x, 0)
            == Ok((1, map[[0] := HeadRecord(Head(Some([1]), Some([1]), 0, 1))]))
  {
    OneNodeOrder(x);
    var db := OneNode(x);
    RemOne(x, x);
    assert db - {[3]} - {[1]} - {[0]} == map[];
  }

  /** Emptying the last node (only a left neighbour): the left node with its right link cleared
      is put under the list key, which the head then overwrites. So the committed left node
      still names the deleted node as its right neighbour, and so does the head's `right`. */
  lemma LremEmptiesLast(a: Value, x: Value)
    requires a != x
    ensures Linked(TwoNodes(a, x), [0], 1) && Counted(TwoNodes(a, x), [0], 1)
    ensures LremSpec(TwoNodes(a, x), [0], 1, x, 1)
            == Ok((1, map[[0] := HeadRecord(Head(Some([1]), Some([2]), 1, 2)),
                          [1] := NodeRecord(Single(None, Some([2]), [3], a)),
                          [3] := BlockRecord([a])]))
  {
    TwoNodesOrder(a, x);
    var db := TwoNodes(a, x);
    var n1 := Single(None, Some([2]), [3], a);
    var n2 := Single(Some([1]), None, [4], x);
    RemOne(a, x);
    RemOne(x, x);
    var st1 := RemState(db, Head(Some([1]), Some([2]), 2, 2), 0);
    assert RemStep(st1, [0], [1], n1, 1, x) == Ok(st1);
    var tx := (db - {[4]} - {[2]})[[0] := NodeRecord(n1.(right := None))];
    assert RemStep(st1, [0], [2], n2, 1, x) == Ok(RemState(tx, st1.quick, 1));
    assert RemWalk(st1, [0], [1], n1, 1, x, 0, 1) == Ok((RemState(tx, st1.quick, 1), n2));
    assert tx[[0] := HeadRecord(Head(Some([1]), Some([2]), 1, 2))]
           == map[[0] := HeadRecord(Head(Some([1]), Some([2]), 1, 2)), [1] := NodeRecord(n1), [3] := BlockRecord([a])];
  }

  /** Emptying a middle node (both neighbours): the left node's right link skips to the right
      node, but the right node's right link is set to the left node, so the committed pair
      name each other as right neighbours and the walk from the head goes round them. */
  lemma LremEmptiesMiddle(a: Value, x: Value, z: Value)
    requires a != x
    ensures Linked(ThreeNodes(a, x, z), [0], 2) && Counted(ThreeNodes(a, x, z), [0], 2)
    ensures LremSpec(ThreeNodes(a, x, z), [0], 1, x, 2)
            == Ok((1, map[[0] := HeadRecord(Head(Some([1]), Some([5]), 2, 3)),
                          [1] := NodeRecord(Single(None, Some([5]), [3], a)), [3] := BlockRecord([a]),
                          [5] := NodeRecord(Single(Some([2]), Some([1]), [6], z)), [6] := BlockRecord([z])]))
  {
    ThreeNodesOrder(a, x, z);
    var db := ThreeNodes(a, x, z);
    var n1 := Single(None, Some([2]), [3], a);
    var n2 := Single(Some([1]), Some([5]), [4], x);
    var n5 := Single(Some([2]), None, [6], z);
    RemOne(a, x);
    RemOne(x, x);
    var st1 := RemState(db, Head(Some([1]), Some([5]), 3, 3), 0);
    assert RemStep(st1, [0], [1], n1, 1, x) == Ok(st1);
    var tx := (db - {[4]} - {[2]})[[1] := NodeRecord(n1.(right := Some([5])))]
                                  [[5] := NodeRecord(n5.(right := Some([1])))];
    assert RemStep(st1, [0], [2], n2, 1, x) == Ok(RemState(tx, st1.quick, 1));
    assert RemWalk(st1, [0], [1], n1, 1, x, 0, 2) == Ok((RemState(tx, st1.quick, 1), n2));
    assert tx[[0] := HeadRecord(Head(Some([1]), Some([5]), 2, 3))]
           == map[[0] := HeadRecord(Head(Some([1]), Some([5]), 2, 3)),
                  [1] := NodeRecord(n1.(right := Some([5]))), [3] := BlockRecord([a]),
                  [5] := NodeRecord(n5.(right := Some([1]))), [6] := BlockRecord([z])];
  }

  /** Emptying the first node (only a right neighbour): the block is deleted but the node record
      is kept, the right node keeps naming it as left neighbour, and only the committed head's
      `left` moves on. The list read from the head is still in good order, holding the rest. */
  lemma LremEmptiesFirst(x: Value, a: Value)
    ensures Linked(TwoNodes(x, a), [0], 1) && Counted(TwoNodes(x, a), [0], 1)
    ensures var db' := TwoNodes(x, a)[[0] := HeadRecord(Head(Some([2]), Some([2]), 1, 2))] - {[3]};
            && LremSpec(TwoNodes(x, a), [0], 1, x, 1) == Ok((1, db'))
            && db'[[1]] == TwoNodes(x, a)[[1]] && db'[[2]] == TwoNodes(x, a)[[2]]
            && Linked(db', [0], 1) && Counted(db', [0], 1) && Elements(db', [0], 1) == [a]
  {
    TwoNodesOrder(x, a);
    var db := TwoNodes(x, a);
    var n1 := Single(None, Some([2]), [3], x);
    var n2 := Single(Some([1]), None, [4], a);
    RemOne(x, x);
    var st1 := RemState(db, Head(Some([1]), Some([2]), 2, 2), 0);
    var st2 := RemState(db - {[3]}, Head(Some([2]), Some([2]), 2, 2), 1);
    assert RemStep(st1, [0], [1], n1, 1, x) == Ok(st2);
    assert RemWalk(st1, [0], [1], n1, 1, x, 0, 1) == Ok((st2, n1));
    assert st2.tx[[0] := HeadRecord(Head(Some([2]), Some([2]), 1, 2))]
           == db[[0] := HeadRecord(Head(Some([2]), Some([2]), 1, 2))] - {[3]};
    var db' := db[[0] := HeadRecord(Head(Some([2]), Some([2]), 1, 2))] - {[3]};
    assert RightWalk(db', [2], 1) == Walk([[2]], [n2], NoRight);
    assert Blocks(db', WalkOf(db', [0], 1).nodes) == [[a]];
    FlattenFew([a], [], []);
  }
}
