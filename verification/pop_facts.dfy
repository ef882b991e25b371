/** What `lpop` and `rpop` do to a list in good order. A pop that leaves its block non-empty
    keeps the list linked and removes exactly the end element, but leaves the head's cached count
    one too high; a pop that empties the only node leaves an empty head; a pop that empties one
    node of several leaves the head naming a node that is gone. */
module PopFacts {
  import opened Wrappers
  import opened Width
  import opened ZipList
  import opened Records
  import opened Chain
  import opened ListImpl

  /** Two positions of a linked list's walk name different nodes: each node has its own block. */
  lemma WalkKeysDistinct(db: Store, key: Key, fuel: nat)
    requires Linked(db, key, fuel)
    ensures var w := WalkOf(db, key, fuel);
            forall i, j :: 0 <= i < j < |w.keys| ==> w.keys[i] != w.keys[j]
  {
    var w := WalkOf(db, key, fuel);
    forall i, j | 0 <= i < j < |w.keys|
      ensures w.keys[i] != w.keys[j]
    {
      assert w.nodes[i].valuesKey != w.nodes[j].valuesKey;
      assert db[w.keys[i]] == NodeRecord(w.nodes[i]) && db[w.keys[j]] == NodeRecord(w.nodes[j]);
    }
  }

  /** Writing a node with the same right link over node `nk`, and a block over block `zk`,
      leaves every walk visiting the same keys and ending the same way; it reads the new node
      wherever it visits `nk`. */
  lemma RewriteWalk(db: Store, db': Store, k: Key, fuel: nat, nk: Key, node': Node, zk: Key, b': Block)
    requires nk in db && db[nk].NodeRecord? && db[nk].node.right == node'.right
    requires zk in db && db[zk].BlockRecord?
    requires db' == db[zk := BlockRecord(b')][nk := NodeRecord(node')]
    ensures var w := RightWalk(db, k, fuel);
            var w' := RightWalk(db', k, fuel);
            && w'.keys == w.keys && w'.end == w.end
            && forall i :: 0 <= i < |w.nodes| ==> w'.nodes[i] == if w.keys[i] == nk then node' else w.nodes[i]
  {
    assert SameLinks(db, db');
    WalkSameLinks(db, db', k, fuel);
    var w := RightWalk(db, k, fuel);
    var w' := RightWalk(db', k, fuel);
    forall i | 0 <= i < |w.nodes|
      ensures w'.nodes[i] == if w.keys[i] == nk then node' else w.nodes[i]
    {
      assert db'[w'.keys[i]] == NodeRecord(w'.nodes[i]);
    }
  }

  /** A node whose block is stored at neither rewritten key reads the same block after the
      rewrite. */
  lemma ValuesAfterRewrite(db: Store, db': Store, n: Node, nk: Key, node': Node, zk: Key, b': Block)
    requires ValuesOf(db, n).Ok? && nk in db && db[nk].NodeRecord? && n.valuesKey != Some(zk)
    requires db' == db[zk := BlockRecord(b')][nk := NodeRecord(node')]
    ensures ValuesOf(db', n) == ValuesOf(db, n)
  {
  }

  /** Nodes that read the blocks `bs` have the blocks `bs`. */
  lemma BlocksAre(db: Store, ns: seq<Node>, bs: seq<Block>)
    requires |bs| == |ns|
    requires forall i :: 0 <= i < |ns| ==> ValuesOf(db, ns[i]) == Ok(bs[i])
    ensures Readable(db, ns) && Blocks(db, ns) == bs
  {
  }

  /** Writing a new block for node `p` of a linked list, and the node back with the same links
      and block key, keeps the list linked with the same keys and the same head; the blocks are
      the old ones with the new block at `p`. */
  lemma RewriteBlock(db: Store, db': Store, key: Key, fuel: nat, p: nat, b': Block, node': Node)
    requires Linked(db, key, fuel)
    requires p < |WalkOf(db, key, fuel).nodes|
    requires var n := WalkOf(db, key, fuel).nodes[p];
             node'.left == n.left && node'.right == n.right && node'.valuesKey == n.valuesKey
    requires var w := WalkOf(db, key, fuel);
             db' == db[w.nodes[p].valuesKey.value := BlockRecord(b')][w.keys[p] := NodeRecord(node')]
    ensures Linked(db', key, fuel)
    ensures db'[key] == db[key]
    ensures Blocks(db', WalkOf(db', key, fuel).nodes) == Blocks(db, WalkOf(db, key, fuel).nodes)[p := b']
    ensures WalkOf(db', key, fuel).keys == WalkOf(db, key, fuel).keys
    ensures WalkOf(db', key, fuel).nodes == WalkOf(db, key, fuel).nodes[p := node']
  {
    var w := WalkOf(db, key, fuel);
    var nk := w.keys[p];
    var zk := w.nodes[p].valuesKey.value;
    assert ValuesOf(db, w.nodes[p]).Ok?;
    assert db[nk].NodeRecord? && db[zk].BlockRecord? && db[key].HeadRecord?;
    assert db'[key] == db[key];
    var t := db[key].head;
    RewriteWalk(db, db', t.left.value, fuel, nk, node', zk, b');
    WalkKeysDistinct(db, key, fuel);
    var w' := RightWalk(db', t.left.value, fuel);
    assert |w'.nodes| == |w.nodes|;
    forall i | 0 <= i < |w.nodes|
      ensures w'.nodes[i] == w.nodes[p := node'][i]
    {
      if i != p {
        assert w.keys[i] != nk;
      }
    }
    assert w'.nodes == w.nodes[p := node'];
    ReadRewritten(db, db', w.nodes, p, nk, node', zk, b');
    StillLinked(db, db', key, fuel);
  }

  /** A store whose head is the old one, and whose walk from it visits the same keys, ends the
      same way and reads distinct blocks, still holds a linked list. */
  lemma StillLinked(db: Store, db': Store, key: Key, fuel: nat)
    requires Linked(db, key, fuel)
    requires key in db' && db'[key] == db[key]
    requires var w := WalkOf(db, key, fuel);
             var w' := RightWalk(db', db[key].head.left.value, fuel);
             && w'.keys == w.keys && w'.end == w.end
             && Readable(db', w'.nodes) && DistinctBlocks(w'.nodes)
    ensures Linked(db', key, fuel)
    ensures WalkOf(db', key, fuel).keys == WalkOf(db, key, fuel).keys
  {
  }

  /** Replacing node `p` of readable nodes with its rewritten copy, whose block is rewritten too,
      keeps them readable with their own blocks, and gives the old blocks with the new one at
      `p`. */
  lemma ReadRewritten(db: Store, db': Store, ns: seq<Node>, p: nat, nk: Key, node': Node, zk: Key, b': Block)
    requires Readable(db, ns) && DistinctBlocks(ns) && p < |ns|
    requires ns[p].valuesKey == Some(zk) && node'.valuesKey == Some(zk)
    requires nk in db && db[nk].NodeRecord?
    requires db' == db[zk := BlockRecord(b')][nk := NodeRecord(node')]
    ensures Readable(db', ns[p := node']) && DistinctBlocks(ns[p := node'])
    ensures Blocks(db', ns[p := node']) == Blocks(db, ns)[p := b']
  {
    var ns' := ns[p := node'];
    var bs' := Blocks(db, ns)[p := b'];
    assert ValuesOf(db, ns[p]).Ok?;
    forall i | 0 <= i < |ns|
      ensures ValuesOf(db', ns'[i]) == Ok(bs'[i])
    {
      if i != p {
        assert ns[i].valuesKey != ns[p].valuesKey;
        ValuesAfterRewrite(db, db', ns[i], nk, node', zk, b');
      }
    }
    BlocksAre(db', ns', bs');
  }

  /** Dropping the first element of the first block drops the first element of the whole. */
  lemma {:induction false} FlattenDropFirst(bs: seq<Block>)
    requires 0 < |bs| && 0 < |bs[0]|
    ensures 0 < |Flatten(bs)| && Flatten(bs)[0] == bs[0][0]
    ensures Flatten(bs[0 := bs[0][1..]]) == Flatten(bs)[1..]
    decreases |bs|
  {
    var n := |bs| - 1;
    var bs' := bs[0 := bs[0][1..]];
    if n == 0 {
      assert bs[..0] == [] && bs'[..0] == [];
      assert Flatten(bs) == bs[0];
      assert Flatten(bs') == bs[0][1..];
    } else {
      var init := bs[..n];
      FlattenDropFirst(init);
      assert bs'[..n] == init[0 := init[0][1..]];
      assert Flatten(bs) == Flatten(init) + bs[n];
      assert Flatten(bs') == Flatten(init)[1..] + bs[n];
      assert (Flatten(init) + bs[n])[1..] == Flatten(init)[1..] + bs[n];
    }
  }

  /** Dropping the last element of the last block drops the last element of the whole. */
  lemma FlattenDropLast(bs: seq<Block>)
    requires 0 < |bs| && 0 < |bs[|bs| - 1]|
    ensures var e := Flatten(bs);
            0 < |e| && e[|e| - 1] == bs[|bs| - 1][|bs[|bs| - 1]| - 1]
    ensures var p := |bs| - 1;
            var e := Flatten(bs);
            Flatten(bs[p := bs[p][..|bs[p]| - 1]]) == e[..|e| - 1]
  {
    var p := |bs| - 1;
    var last := bs[p];
    var before := Flatten(bs[..p]);
    assert Flatten(bs) == before + last;
    var bs' := bs[p := last[..|last| - 1]];
    assert bs'[..p] == bs[..p];
    assert Flatten(bs') == before + last[..|last| - 1];
    assert (before + last)[..|before + last| - 1] == before + last[..|last| - 1];
  }

  /** The elements of blocks after replacing block `p`: the elements before it, then the new
      block, then the elements after it. */
  lemma {:induction false} FlattenReplace(bs: seq<Block>, p: nat, b': Block)
    requires p < |bs|
    ensures Flatten(bs[p := b']) == Flatten(bs[..p]) + b' + Flatten(bs[p + 1..])
    decreases |bs|
  {
    var n := |bs| - 1;
    if p == n {
      assert bs[p := b'][..n] == bs[..p];
      assert bs[p + 1..] == [];
    } else {
      FlattenReplace(bs[..n], p, b');
      assert bs[p := b'][..n] == bs[..n][p := b'];
      assert bs[..n][..p] == bs[..p];
      assert bs[p + 1..][..|bs[p + 1..]| - 1] == bs[..n][p + 1..];
    }
  }

  /** `lpop` on a linked list whose leftmost block holds two elements or more returns the first
      element, keeps the list linked and the head as it was, and leaves the other elements. */
  lemma LpopKeepsList(db: Store, key: Key, fuel: nat)
    requires Linked(db, key, fuel)
    requires 2 <= |Blocks(db, WalkOf(db, key, fuel).nodes)[0]|
    ensures var res := PopSpec(db, key, Front);
            && res.Ok?
            && 0 < |Elements(db, key, fuel)| && res.value.0 == Elements(db, key, fuel)[0]
            && Linked(res.value.1, key, fuel)
            && res.value.1[key] == db[key]
            && Elements(res.value.1, key, fuel) == Elements(db, key, fuel)[1..]
  {
    var w := WalkOf(db, key, fuel);
    var bs := Blocks(db, w.nodes);
    var zip := bs[0];
    var node := w.nodes[0];
    var rest := zip[1..];
    var node' := node.(lenList := Trunc32(|rest|), lenBytes := Trunc32(EncodedSize(rest)));
    assert ReadNode(db, w.keys[0]) == Ok(node);
    assert ValuesOf(db, node) == Ok(zip);
    var db' := db[node.valuesKey.value := BlockRecord(rest)][w.keys[0] := NodeRecord(node')];
    assert PopSpec(db, key, Front) == Ok((zip[0], db'));
    RewriteBlock(db, db', key, fuel, 0, rest, node');
    assert Elements(db', key, fuel) == Flatten(bs[0 := rest]);
    FlattenDropFirst(bs);
    assert Elements(db, key, fuel) == Flatten(bs);
  }

  /** `rpop` on a linked list whose rightmost block holds two elements or more returns the last
      element, keeps the list linked and the head as it was, and leaves the other elements. */
  lemma RpopKeepsList(db: Store, key: Key, fuel: nat)
    requires Linked(db, key, fuel)
    requires var bs := Blocks(db, WalkOf(db, key, fuel).nodes); 2 <= |bs[|bs| - 1]|
    ensures var res := PopSpec(db, key, Back);
            var e := Elements(db, key, fuel);
            && res.Ok?
            && 0 < |e| && res.value.0 == e[|e| - 1]
            && Linked(res.value.1, key, fuel)
            && res.value.1[key] == db[key]
            && Elements(res.value.1, key, fuel) == e[..|e| - 1]
  {
    var w := WalkOf(db, key, fuel);
    var bs := Blocks(db, w.nodes);
    var p := |w.nodes| - 1;
    var zip := bs[p];
    var node := w.nodes[p];
    var rest := zip[..|zip| - 1];
    var node' := node.(lenList := Trunc32(|rest|), lenBytes := Trunc32(EncodedSize(rest)));
    assert ReadNode(db, w.keys[p]) == Ok(node);
    assert ValuesOf(db, node) == Ok(zip);
    var db' := db[node.valuesKey.value := BlockRecord(rest)][w.keys[p] := NodeRecord(node')];
    assert PopSpec(db, key, Back) == Ok((zip[|zip| - 1], db'));
    RewriteBlock(db, db', key, fuel, p, rest, node');
    assert Elements(db', key, fuel) == Flatten(bs[p := rest]);
    FlattenDropLast(bs);
    var e := Elements(db, key, fuel);
    assert e == Flatten(bs);
    assert 0 < |e| && zip[|zip| - 1] == e[|e| - 1];
    assert Elements(db', key, fuel) == e[..|e| - 1];
  }

  /** The records a pop reads: the head at `key`, whose end on `side` names node `nk`, whose
      block is stored at `zk`. */
  predicate PopTarget(db: Store, key: Key, side: Side, nk: Key, zk: Key)
  {
    && key in db && db[key].HeadRecord?
    && (if side == Front then db[key].head.left else db[key].head.right) == Some(nk)
    && nk in db && db[nk].NodeRecord? && db[nk].node.valuesKey == Some(zk)
    && zk in db && db[zk].BlockRecord?
  }

  /** A pop that leaves its block non-empty answers the end element and writes back exactly the
      shortened block and its node with the new counts; every other record, the head included,
      is as it was. */
  lemma PopKeepsBlock(db: Store, key: Key, side: Side, nk: Key, zk: Key)
    requires PopTarget(db, key, side, nk, zk) && 2 <= |db[zk].block|
    ensures var b := db[zk].block;
            var rest := if side == Front then b[1..] else b[..|b| - 1];
            var r := PopSpec(db, key, side);
            && r.Ok?
            && r.value.0 == (if side == Front then b[0] else b[|b| - 1])
            && r.value.1.Keys == db.Keys
            && r.value.1[zk] == BlockRecord(rest)
            && r.value.1[nk] == NodeRecord(db[nk].node.(lenList := Trunc32(|rest|),
                                                        lenBytes := Trunc32(EncodedSize(rest))))
            && forall k :: k in db && k != zk && k != nk ==> r.value.1[k] == db[k]
  {
  }

  /** A pop that empties the only node deletes the block and the node and leaves an empty head:
      no ends and both counts 0. Every other record is as it was. */
  lemma PopOnlyNode(db: Store, key: Key, side: Side, nk: Key, zk: Key)
    requires PopTarget(db, key, side, nk, zk) && |db[zk].block| == 1
    requires db[key].head.lenNode == 1
    ensures var r := PopSpec(db, key, side);
            && r.Ok?
            && r.value.0 == db[zk].block[0]
            && r.value.1.Keys == db.Keys - {nk, zk}
            && r.value.1[key] == HeadRecord(Head(None, None, 0, 0))
            && forall k :: k in db && k !in {key, nk, zk} ==> r.value.1[k] == db[k]
  {
  }

  /** A pop that empties one node of several deletes the block and the node, and writes the
      head back with `right` set to the node's left neighbour and both counts one lower, `left`
      unchanged. For `lpop` the head's `left` therefore still names the deleted node. */
  lemma PopOneOfMany(db: Store, key: Key, side: Side, nk: Key, zk: Key)
    requires PopTarget(db, key, side, nk, zk) && |db[zk].block| == 1
    requires db[key].head.lenNode != 1
    ensures var q := db[key].head;
            var r := PopSpec(db, key, side);
            && r.Ok?
            && r.value.0 == db[zk].block[0]
            && r.value.1.Keys == db.Keys - {nk, zk}
            && r.value.1[key] == HeadRecord(q.(right := db[nk].node.left,
                                               lenNode := Sub32(q.lenNode, 1),
                                               lenList := Sub32(q.lenList, 1)))
            && (side == Front ==> r.value.1[key].head.left == Some(nk) && nk !in r.value.1)
            && forall k :: k in db && k !in {key, nk, zk} ==> r.value.1[k] == db[k]
  {
  }

  /** A pop that keeps its block, on a list whose counts are right, leaves the head's count one
      above the number of elements, since the head is not written back. */
  lemma PopLeavesCountStale(db: Store, key: Key, fuel: nat, side: Side)
    requires Linked(db, key, fuel) && Counted(db, key, fuel)
    requires var bs := Blocks(db, WalkOf(db, key, fuel).nodes);
             2 <= |bs[if side == Front then 0 else |bs| - 1]|
    ensures var db' := PopSpec(db, key, side).value.1;
            && PopSpec(db, key, side).Ok? && Linked(db', key, fuel)
            && db'[key].head.lenList as int == |Elements(db', key, fuel)| + 1
  {
    if side == Front {
      LpopKeepsList(db, key, fuel);
    } else {
      RpopKeepsList(db, key, fuel);
    }
  }
}
