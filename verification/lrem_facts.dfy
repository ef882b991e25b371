/** What `lrem` with a positive count does to a list in good order when no block is emptied by
    it: the walk rewrites blocks in place, so the list stays linked and its elements become those
    of removing up to `count` copies of the value, leftmost first, from the whole list. Blocks
    that would be emptied take the splice paths, which as written do not keep the list linked:
    `RemEmptiesBlock` states what one such step writes, and `LremPaths` what is committed. */
module LremFacts {
  import opened Wrappers
  import opened Width
  import opened ZipList
  import opened Records
  import opened Chain
  import opened ListImpl
  import opened PopFacts

  /** Removal from block `b` with budget `limit` takes nothing from it or leaves it an
      element. */
  predicate Spares(b: Block, limit: int, v: Value)
  {
    Rem(b, limit, v).1 == 0 || Rem(b, limit, v).0 != []
  }

  /** Removal of up to `c` copies of `v` over blocks `bs`, leftmost first, empties none of
      them: block `p` meets what the blocks before it leave of the budget, and spares. */
  predicate EmptiesNone(bs: seq<Block>, c: nat, v: Value)
  {
    forall p {:trigger Flatten(bs[..p])} :: 0 <= p < |bs| ==> Spares(bs[p], c - Rem(Flatten(bs[..p]), c, v).1, v)
  }

  /** Nodes `ns` with blocks `bs` are where the `lrem` walk stands before visiting node `p` of a
      list whose blocks were `bs0`: every node's count is right, the blocks before `p` hold what
      removal with budget `c` leaves of the old first `p` blocks, the blocks from `p` on are
      untouched, and `removed` is the number removal took from those first `p` blocks. */
  predicate Parts(bs: seq<Block>, bs0: seq<Block>, c: nat, v: Value, p: nat, removed: nat)
  {
    && |bs| == |bs0| && p <= |bs|
    && (forall i :: p <= i < |bs| ==> bs[i] == bs0[i])
    && Flatten(bs[..p]) == Rem(Flatten(bs0[..p]), c, v).0
    && removed == Rem(Flatten(bs0[..p]), c, v).1
  }

  /** The store holds a linked list under `key` whose node counts are right and whose blocks
      are `bs`. */
  predicate LinkedAs(db: Store, key: Key, fuel: nat, bs: seq<Block>)
  {
    && Linked(db, key, fuel)
    && var ns := WalkOf(db, key, fuel).nodes;
    && NodesCounted(ns, Blocks(db, ns))
    && Blocks(db, ns) == bs
  }

  /** The `lrem` walk, about to visit node `p` of a linked list whose blocks were `bs0`, has
      the list still linked with its node counts right, and its blocks `bs` as `Parts`
      describes them. */
  predicate RemReached(st: RemState, key: Key, fuel: nat, bs0: seq<Block>, c: nat, v: Value, p: nat,
                       bs: seq<Block>)
  {
    LinkedAs(st.tx, key, fuel, bs) && Parts(bs, bs0, c, v, p, st.removed)
  }

  /** Removal over the first `p + 1` blocks is removal over the first `p`, then over block `p`
      with what is left of the budget. */
  lemma RemNext(bs0: seq<Block>, bs: seq<Block>, p: nat, c: nat, v: Value, removed: nat)
    requires |bs| == |bs0| && p < |bs0|
    requires forall i :: p <= i < |bs| ==> bs[i] == bs0[i]
    requires Flatten(bs[..p]) == Rem(Flatten(bs0[..p]), c, v).0
    requires removed == Rem(Flatten(bs0[..p]), c, v).1
    ensures var bs' := bs[p := Rem(bs0[p], c - removed, v).0];
            && (forall i :: p + 1 <= i < |bs'| ==> bs'[i] == bs0[i])
            && Flatten(bs'[..p + 1]) == Rem(Flatten(bs0[..p + 1]), c, v).0
            && removed + Rem(bs0[p], c - removed, v).1 == Rem(Flatten(bs0[..p + 1]), c, v).1
  {
    var bs' := bs[p := Rem(bs0[p], c - removed, v).0];
    RemSplit(Flatten(bs0[..p]), bs0[p], c, v);
    assert bs0[..p + 1][..p] == bs0[..p];
    assert Flatten(bs0[..p + 1]) == Flatten(bs0[..p]) + bs0[p];
    assert bs'[..p + 1][..p] == bs[..p];
  }

  /** Once the budget is spent after the first `p` blocks, the blocks as they stand are what
      removal over all of them leaves. */
  lemma RemSpent(bs0: seq<Block>, bs: seq<Block>, p: nat, c: nat, v: Value)
    requires |bs| == |bs0| && p <= |bs0|
    requires forall i :: p <= i < |bs| ==> bs[i] == bs0[i]
    requires Flatten(bs[..p]) == Rem(Flatten(bs0[..p]), c, v).0
    requires Rem(Flatten(bs0[..p]), c, v).1 == c
    ensures Flatten(bs) == Rem(Flatten(bs0), c, v).0
    ensures Rem(Flatten(bs0), c, v).1 == c
  {
    FlattenSplit(bs0, p);
    FlattenSplit(bs, p);
    assert bs[p..] == bs0[p..];
    RemSplit(Flatten(bs0[..p]), Flatten(bs0[p..]), c, v);
    assert Rem(Flatten(bs0[p..]), 0, v) == (Flatten(bs0[p..]), 0);
  }

  /** When every block has been visited or the budget is spent, the blocks as they stand are
      what removal over all of them leaves. */
  lemma ReachedAll(bs: seq<Block>, bs0: seq<Block>, c: nat, v: Value, p: nat, removed: nat)
    requires Parts(bs, bs0, c, v, p, removed)
    requires p == |bs0| || removed == c
    ensures Parts(bs, bs0, c, v, |bs0|, removed)
  {
    assert bs[..|bs0|] == bs && bs0[..|bs0|] == bs0;
    if p < |bs0| {
      RemSpent(bs0, bs, p, c, v);
    }
  }

  /** Writing the head back with the same ends keeps the list linked, with the same walk and
      the same blocks. */
  lemma HeadRewrite(db: Store, db': Store, key: Key, fuel: nat, h: Head)
    requires Linked(db, key, fuel)
    requires h.left == db[key].head.left && h.right == db[key].head.right
    requires db' == db[key := HeadRecord(h)]
    ensures Linked(db', key, fuel)
    ensures WalkOf(db', key, fuel) == WalkOf(db, key, fuel)
    ensures Blocks(db', WalkOf(db', key, fuel).nodes) == Blocks(db, WalkOf(db, key, fuel).nodes)
  {
    var w := WalkOf(db, key, fuel);
    assert SameLinks(db, db');
    WalkSameLinks(db, db', h.left.value, fuel);
    var w' := RightWalk(db', h.left.value, fuel);
    forall i | 0 <= i < |w.nodes|
      ensures w'.nodes[i] == w.nodes[i] && ValuesOf(db', w.nodes[i]) == ValuesOf(db, w.nodes[i])
    {
      assert db[w.keys[i]].NodeRecord?;
      assert ValuesOf(db, w.nodes[i]).Ok?;
    }
    assert w'.nodes == w.nodes;
    BlocksAre(db', w.nodes, Blocks(db, w.nodes));
  }

  /** The state after the walk visits node `node`, stored at `nk`, with block `b`, when the
      block does not empty: unchanged when nothing is removed, and otherwise the shortened
      block and the node with its new counts written back. */
  function NextState(st: RemState, nk: Key, node: Node, b: Block, c: nat, v: Value): RemState
    requires node.valuesKey.Some? && st.removed <= c
  {
    var r := Rem(b, c - st.removed, v);
    if r.1 == 0 then st
    else
      var node' := node.(lenList := Trunc32(|r.0|), lenBytes := Trunc32(EncodedSize(r.0)));
      RemState(st.tx[node.valuesKey.value := BlockRecord(r.0)][nk := NodeRecord(node')],
               st.quick, st.removed + r.1)
  }

  /** One node of the walk, where the block does not empty, is `NextState`. */
  lemma RemStepIs(st: RemState, key: Key, nk: Key, node: Node, c: nat, v: Value)
    requires st.removed <= c && ValuesOf(st.tx, node).Ok?
    requires Spares(ValuesOf(st.tx, node).value, c - st.removed, v)
    ensures RemStep(st, key, nk, node, c, v) == Ok(NextState(st, nk, node, ValuesOf(st.tx, node).value, c, v))
  {
    var b := ValuesOf(st.tx, node).value;
    RemCounts(b, c - st.removed, v);
    if Rem(b, c - st.removed, v).1 == 0 {
      RemNone(b, c - st.removed, v);
    }
  }

  /** One node of the walk whose block `lrem` empties, as written: the block is deleted and the
      neighbours are patched per case. With no neighbour, the node and the list key are deleted.
      With only a left one, the list key is left holding that node (its right link cleared), not
      the head. With both, the right node's right link is set to the left key, so when they
      differ the two nodes name each other as right neighbours. With only a right one, the node
      record stays and only the head being edited moves its `left` on. */
  lemma RemEmptiesBlock(st: RemState, key: Key, nk: Key, node: Node, c: nat, v: Value)
    requires st.removed <= c && ValuesOf(st.tx, node).Ok?
    requires var b := ValuesOf(st.tx, node).value; 0 < |b| && Rem(b, c - st.removed, v).0 == []
    ensures var b := ValuesOf(st.tx, node).value;
            var zk := node.valuesKey.value;
            var r := RemStep(st, key, nk, node, c, v);
            && (r.Ok? ==> r.value.removed == st.removed + |b| && Count(b, v) == |b|)
            && (node.left.None? && node.right.None? ==>
                  r == Ok(RemState(st.tx - {zk} - {nk} - {key}, st.quick, st.removed + |b|)))
            && (node.left.Some? && node.right.None? && r.Ok? ==>
                  && key in r.value.tx && r.value.tx[key].NodeRecord?
                  && r.value.tx[key].node.right.None?
                  && r.value.quick == st.quick)
            && (node.left.Some? && node.right.Some? && r.Ok? ==>
                  var lk := node.left.value;
                  var rk := node.right.value;
                  && rk in r.value.tx && r.value.tx[rk] == NodeRecord(st.tx[rk].node.(right := Some(lk)))
                  && (lk != rk ==> lk in r.value.tx && r.value.tx[lk].NodeRecord?
                                   && r.value.tx[lk].node.right == Some(rk)))
            && (node.left.None? && node.right.Some? && r.Ok? ==>
                  r.value.tx == st.tx - {zk} && r.value.quick == st.quick.(left := node.right))
  {
    var b := ValuesOf(st.tx, node).value;
    RemCounts(b, c - st.removed, v);
  }

  /** One node of the walk on a linked list, where the block does not empty: the block is
      rewritten in place with the node's counts, and nothing else changes. */
  lemma NextKeeps(st: RemState, st': RemState, key: Key, fuel: nat, c: nat, v: Value, p: nat, w: Walk, bs: seq<Block>,
                  b': Block, n: nat)
    requires LinkedAs(st.tx, key, fuel, bs) && w == WalkOf(st.tx, key, fuel)
    requires st.removed <= c && p < |w.nodes|
    requires (b', n) == Rem(bs[p], c - st.removed, v)
    requires st' == NextState(st, w.keys[p], w.nodes[p], bs[p], c, v)
    ensures st'.quick == st.quick
    ensures st'.removed == st.removed + n
    ensures LinkedAs(st'.tx, key, fuel, bs[p := b'])
    ensures st'.tx[key] == st.tx[key]
    ensures WalkOf(st'.tx, key, fuel).keys == w.keys
    ensures WalkOf(st'.tx, key, fuel).nodes[p].right == w.nodes[p].right
  {
    var node := w.nodes[p];
    NextStateAs(st, w.keys[p], node, bs[p], c, v, b', n);
    if n != 0 {
      assert |b'| <= |bs[p]| == node.lenList as int;
      RewriteCounted(st.tx, st'.tx, key, fuel, p, bs, b', node.(lenList := Trunc32(|b'|), lenBytes := Trunc32(EncodedSize(b'))));
    } else {
      assert bs[p := b'] == bs;
    }
  }

  /** `NextState` in the two cases of the removal's count. */
  lemma NextStateAs(st: RemState, nk: Key, node: Node, b: Block, c: nat, v: Value, b': Block, n: nat)
    requires node.valuesKey.Some? && st.removed <= c
    requires (b', n) == Rem(b, c - st.removed, v)
    ensures n == 0 ==> b' == b && NextState(st, nk, node, b, c, v) == st
    ensures n != 0 ==>
              && |b'| <= |b|
              && NextState(st, nk, node, b, c, v)
                 == RemState(st.tx[node.valuesKey.value := BlockRecord(b')]
                                  [nk := NodeRecord(node.(lenList := Trunc32(|b'|), lenBytes := Trunc32(EncodedSize(b'))))],
                             st.quick, st.removed + n)
  {
    RemCounts(b, c - st.removed, v);
    if n == 0 {
      RemNone(b, c - st.removed, v);
    }
  }

  /** Rewriting block `p` of a linked list whose counts are right, with its node's count set
      to the new block's length, keeps the list linked with its counts right and changes only
      that block. */
  lemma RewriteCounted(db: Store, db': Store, key: Key, fuel: nat, p: nat, bs: seq<Block>, b': Block, node': Node)
    requires LinkedAs(db, key, fuel, bs) && p < |bs|
    requires var n := WalkOf(db, key, fuel).nodes[p];
             && node'.left == n.left && node'.right == n.right && node'.valuesKey == n.valuesKey
             && node'.lenList as int == |b'|
    requires var w := WalkOf(db, key, fuel);
             db' == db[w.nodes[p].valuesKey.value := BlockRecord(b')][w.keys[p] := NodeRecord(node')]
    ensures LinkedAs(db', key, fuel, bs[p := b'])
    ensures db'[key] == db[key]
    ensures WalkOf(db', key, fuel).keys == WalkOf(db, key, fuel).keys
    ensures WalkOf(db', key, fuel).nodes[p].right == WalkOf(db, key, fuel).nodes[p].right
  {
    RewriteBlock(db, db', key, fuel, p, b', node');
    NodesCountedAfter(WalkOf(db, key, fuel).nodes, bs, p, node', b');
  }

  /** Replacing a node and its block by a pair whose count is right keeps every count right. */
  lemma NodesCountedAfter(ns: seq<Node>, bs: seq<Block>, p: nat, n: Node, b: Block)
    requires |ns| == |bs| && p < |ns| && NodesCounted(ns, bs) && n.lenList as int == |b|
    ensures NodesCounted(ns[p := n], bs[p := b])
  {
  }

  /** Rewriting block `p` to what removal with the rest of the budget leaves of it, with any
      node counts that are right, moves the walk's description on to node `p + 1`. */
  lemma PartsNext(bs: seq<Block>, bs0: seq<Block>, c: nat, v: Value, p: nat, removed: nat, b: Block, n: nat)
    requires Parts(bs, bs0, c, v, p, removed) && p < |bs|
    requires (b, n) == Rem(bs[p], c - removed, v)
    ensures Parts(bs[p := b], bs0, c, v, p + 1, removed + n)
  {
    RemNext(bs0, bs, p, c, v, removed);
  }

  /** One node of the walk from a state that `RemReached` describes at node `p` leads to the
      state it describes at node `p + 1`. */
  lemma ReachedNext(st: RemState, st': RemState, key: Key, fuel: nat, bs0: seq<Block>, c: nat, v: Value, p: nat,
                    w: Walk, bs: seq<Block>)
    requires RemReached(st, key, fuel, bs0, c, v, p, bs) && w == WalkOf(st.tx, key, fuel) && p < |bs|
    requires st.removed <= c
    requires st' == NextState(st, w.keys[p], w.nodes[p], bs[p], c, v)
    ensures RemReached(st', key, fuel, bs0, c, v, p + 1, bs[p := Rem(bs[p], c - st.removed, v).0])
    ensures st'.quick == st.quick && st'.tx[key] == st.tx[key]
    ensures WalkOf(st'.tx, key, fuel).keys == w.keys
    ensures WalkOf(st'.tx, key, fuel).nodes[p].right == w.nodes[p].right
  {
    var (b', n) := Rem(bs[p], c - st.removed, v);
    PartsNext(bs, bs0, c, v, p, st.removed, b', n);
    NextKeeps(st, st', key, fuel, c, v, p, w, bs, b', n);
  }

  /** `RemWalk` after a step that succeeded: it stops there, or reads the right neighbour and
      goes on. */
  lemma RemWalkOnce(st: RemState, st': RemState, key: Key, nk: Key, node: Node, c: nat, v: Value,
                    hops: nat, fuel: nat)
    requires st.removed <= c && hops <= fuel
    requires RemStep(st, key, nk, node, c, v) == Ok(st')
    ensures st'.removed == c || node.right.None? ==>
              RemWalk(st, key, nk, node, c, v, hops, fuel) == Ok((st', node))
    ensures st'.removed != c && node.right.Some? && hops < fuel ==>
              match ReadNode(st'.tx, node.right.value)
              case Err(e) => RemWalk(st, key, nk, node, c, v, hops, fuel) == Err(e)
              case Ok(next) =>
                RemWalk(st, key, nk, node, c, v, hops, fuel)
                == RemWalk(st', key, node.right.value, next, c, v, hops + 1, fuel)
  {
  }

  /** The walk from node `p` of a linked list, where removing the first `c` matches leftmost
      first empties no block, ends without error, having removed what removal over the whole
      list removes, and leaves the list linked with its counts right and its head record
      untouched. */
  lemma {:induction false} RemWalkKeeps(st: RemState, key: Key, fuel: nat, bs0: seq<Block>, c: nat, v: Value, p: nat,
                                        w: Walk, bs: seq<Block>)
    requires EmptiesNone(bs0, c, v)
    requires RemReached(st, key, fuel, bs0, c, v, p, bs) && p < |bs0|
    requires w == WalkOf(st.tx, key, fuel)
    ensures st.removed <= c && p <= fuel
    ensures var r := RemWalk(st, key, w.keys[p], w.nodes[p], c, v, p, fuel);
            && r.Ok?
            && r.value.0.quick == st.quick
            && Linked(r.value.0.tx, key, fuel)
            && RemReached(r.value.0, key, fuel, bs0, c, v, |bs0|,
                          Blocks(r.value.0.tx, WalkOf(r.value.0.tx, key, fuel).nodes))
            && r.value.0.tx[key] == st.tx[key]
    decreases |bs0| - p
  {
    RemCounts(Flatten(bs0[..p]), c, v);
    assert Spares(bs[p], c - st.removed, v) by {
      assert bs[p] == bs0[p];
    }
    var st' := NextState(st, w.keys[p], w.nodes[p], bs[p], c, v);
    ReachedNext(st, st', key, fuel, bs0, c, v, p, w, bs);
    var bs' := bs[p := Rem(bs[p], c - st.removed, v).0];
    assert RemStep(st, key, w.keys[p], w.nodes[p], c, v) == Ok(st') by {
      assert ValuesOf(st.tx, w.nodes[p]) == Ok(bs[p]);
      RemStepIs(st, key, w.keys[p], w.nodes[p], c, v);
    }
    RemWalkOnce(st, st', key, w.keys[p], w.nodes[p], c, v, p, fuel);
    FollowWalk(st.tx, w.keys[0], fuel, p);
    if st'.removed == c || w.nodes[p].right.None? {
      ReachedAll(bs', bs0, c, v, p + 1, st'.removed);
    } else {
      var w' := WalkOf(st'.tx, key, fuel);
      assert w.nodes[p].right == Some(w'.keys[p + 1]);
      WalkRead(st'.tx, key, fuel, p + 1);
      RemWalkKeeps(st', key, fuel, bs0, c, v, p + 1, w', bs');
    }
  }

  /** The whole `lrem` walk over a linked list, where removing the first `c` matches leftmost
      first empties no block, ends without error, with the list still linked and its node
      counts right, its elements those that removal with budget `c` leaves, the number removed
      the number that removal takes, and the head record untouched. */
  lemma RemWalkAll(db: Store, key: Key, c: nat, v: Value, fuel: nat)
    requires Linked(db, key, fuel) && Counted(db, key, fuel)
    requires EmptiesNone(Blocks(db, WalkOf(db, key, fuel).nodes), c, v)
    ensures var w := WalkOf(db, key, fuel);
            var r := RemWalk(RemState(db, db[key].head, 0), key, w.keys[0], w.nodes[0], c, v, 0, fuel);
            && r.Ok?
            && r.value.0.quick == db[key].head
            && Linked(r.value.0.tx, key, fuel)
            && r.value.0.tx[key] == db[key]
            && var ns := WalkOf(r.value.0.tx, key, fuel).nodes;
            && NodesCounted(ns, Blocks(r.value.0.tx, ns))
            && Flatten(Blocks(r.value.0.tx, ns)) == Rem(Elements(db, key, fuel), c, v).0
            && r.value.0.removed == Rem(Elements(db, key, fuel), c, v).1
  {
    var w := WalkOf(db, key, fuel);
    var bs0 := Blocks(db, w.nodes);
    var st0 := RemState(db, db[key].head, 0);
    assert RemReached(st0, key, fuel, bs0, c, v, 0, bs0) by {
      assert bs0[..0] == [];
    }
    RemWalkKeeps(st0, key, fuel, bs0, c, v, 0, w, bs0);
    var st := RemWalk(st0, key, w.keys[0], w.nodes[0], c, v, 0, fuel).value.0;
    PartsWhole(Blocks(st.tx, WalkOf(st.tx, key, fuel).nodes), bs0, c, v, st.removed);
  }

  /** Once every block is visited, the blocks are what removal over the whole list leaves. */
  lemma PartsWhole(bs: seq<Block>, bs0: seq<Block>, c: nat, v: Value, removed: nat)
    requires Parts(bs, bs0, c, v, |bs0|, removed)
    ensures Flatten(bs) == Rem(Flatten(bs0), c, v).0 && removed == Rem(Flatten(bs0), c, v).1
  {
    assert bs[..|bs0|] == bs && bs0[..|bs0|] == bs0;
  }

  /** `lrem` with a positive count on a list in good order, where removing the first `count`
      matches leftmost first empties no block, removes the first `count` copies of `value` (all
      of them when there are fewer), answers how many it removed, leaves every other element in
      its order, and keeps the list linked with its cached counts right. */
  lemma LremKeepsList(db: Store, key: Key, count: i32, value: Value, fuel: nat)
    requires Linked(db, key, fuel) && Counted(db, key, fuel) && 0 < count
    requires EmptiesNone(Blocks(db, WalkOf(db, key, fuel).nodes), count as int, value)
    ensures var r := LremSpec(db, key, count, value, fuel);
            var e := Elements(db, key, fuel);
            && r.Ok?
            && r.value.0 as int == Min(count as int, Count(e, value))
            && Linked(r.value.1, key, fuel) && Counted(r.value.1, key, fuel)
            && Elements(r.value.1, key, fuel) == Rem(e, count as int, value).0
            && Without(Elements(r.value.1, key, fuel), value) == Without(e, value)
  {
    var w := WalkOf(db, key, fuel);
    var q := db[key].head;
    var c := count as int;
    var e := Elements(db, key, fuel);
    assert HeadAt(db, key) == Ok(Some(q));
    assert ReadNode(db, w.keys[0]) == Ok(w.nodes[0]);
    RemWalkAll(db, key, c, value, fuel);
    var st := RemWalk(RemState(db, q, 0), key, w.keys[0], w.nodes[0], c, value, 0, fuel).value.0;
    RemCounts(e, c, value);
    RemKeepsOthers(e, c, value);
    if st.removed == 0 {
      assert LremSpec(db, key, count, value, fuel) == Ok((0, st.tx));
    } else {
      var n := st.removed as u32;
      var h := q.(lenList := Sub32(q.lenList, n));
      var db' := st.tx[key := HeadRecord(h)];
      assert LremSpec(db, key, count, value, fuel) == Ok((n, db'));
      HeadRewrite(st.tx, db', key, fuel, h);
    }
  }
}
