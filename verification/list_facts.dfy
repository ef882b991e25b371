/** What the list commands do to a list in good order, and where, as written, they do not keep
    it so. */
module ListFacts {
  import opened Wrappers
  import opened Width
  import opened ZipList
  import opened Records
  import opened Positions
  import opened Chain
  import opened ListImpl
  import opened Samples

  /** On a list whose cached counts are right and whose length fits an i32, `lindex` finds the
      element at every index from 0 below the length. */
  lemma LindexFinds(db: Store, key: Key, index: i32, fuel: nat)
    requires Linked(db, key, fuel) && Counted(db, key, fuel)
    requires db[key].head.lenList as int <= I32_MAX
    requires 0 <= index as int < |Elements(db, key, fuel)|
    ensures LindexSpec(db, key, index, fuel) == Ok(Elements(db, key, fuel)[index])
  {
    var t := db[key].head;
    var w := WalkOf(db, key, fuel);
    var bs := Blocks(db, w.nodes);
    assert Elements(db, key, fuel) == Flatten(bs);
    IndexAlongFinds(db, w, index as int, bs);
    assert HeadAt(db, key) == Ok(Some(t));
    assert AsI32(t.lenList) as int == |Flatten(bs)|;
    assert LindexSpec(db, key, index, fuel) == IndexAlong(db, w, index as int);
  }

  /** Along a walk whose nodes count their blocks right, with fewer than 2^31 elements in all,
      every index from 0 below the total yields the element at that position. */
  lemma IndexAlongFinds(db: Store, w: Walk, index: int, bs: seq<Block>)
    requires |w.keys| == |w.nodes| && Readable(db, w.nodes) && bs == Blocks(db, w.nodes)
    requires forall i :: 0 <= i < |w.nodes| ==> w.nodes[i].lenList as int == |bs[i]|
    requires |Flatten(bs)| <= I32_MAX
    requires 0 <= index < |Flatten(bs)|
    ensures IndexAlong(db, w, index) == Ok(Flatten(bs)[index])
  {
    var lens := Lens(w.nodes);
    forall i | 0 <= i < |bs|
      ensures lens[i] == |bs[i]|
    {
      BlockWithin(bs, i);
    }
    FlattenAt(bs, lens, index);
    var j := Locate(lens, index);
    AlongFinds(db, w, index, bs[j]);
  }

  /** A negative index is not counted from the tail: when the leftmost node's count fits an
      i32, the walk stops at that node and the block is asked for a negative position, so
      `lindex` never finds an element for a negative index. */
  lemma LindexNegative(db: Store, key: Key, index: i32, fuel: nat, t: Head, n: Node)
    requires HeadAt(db, key) == Ok(Some(t)) && t.left.Some?
    requires ReadNode(db, t.left.value) == Ok(n) && n.lenList as int <= I32_MAX
    requires index < 0
    ensures LindexSpec(db, key, index, fuel).Err?
    ensures ValuesOf(db, n).Ok? ==> LindexSpec(db, key, index, fuel) == Err(NotFind)
  {
    if index < AsI32(t.lenList) {
      var w := RightWalk(db, t.left.value, fuel);
      ReadFirst(db, t.left.value, fuel);
      var lens := Lens(w.nodes);
      LocateNegative(lens, index as int);
      assert LindexSpec(db, key, index, fuel) == IndexAlong(db, w, index as int);
    }
  }

  /** When the node `Locate` picks has a block holding the local index, the walk yields that
      element. */
  lemma AlongFinds(db: Store, w: Walk, index: int, zip: Block)
    requires |w.keys| == |w.nodes|
    requires Locate(Lens(w.nodes), index) < |w.nodes|
    requires ValuesOf(db, w.nodes[Locate(Lens(w.nodes), index)]) == Ok(zip)
    requires 0 <= index - Prefix(Lens(w.nodes), Locate(Lens(w.nodes), index)) < |zip|
    ensures IndexAlong(db, w, index) == Ok(zip[index - Prefix(Lens(w.nodes), Locate(Lens(w.nodes), index))])
  {
  }

  /** `x` brought into `[0, n]`. */
  function Clamp(x: int, n: nat): (r: nat)
    ensures r <= n
    ensures 0 <= x <= n ==> r == x
  {
    Min(Max(x, 0), n)
  }

  /** A node whose count is its block's length contributes the part of the window `[s, u]`
      that falls on its block, taken to hold list positions from `offset` on. */
  lemma PieceSlice(db: Store, n: Node, b: Block, offset: nat, s: nat, u: nat)
    requires ValuesOf(db, n) == Ok(b) && n.lenList as int == |b| <= I32_MAX && s <= u
    ensures Clamp(s - offset, |b|) <= Clamp(u + 1 - offset, |b|)
    ensures Piece(db, n, offset, s, u) == Ok(b[Clamp(s - offset, |b|)..Clamp(u + 1 - offset, |b|)])
  {
    if s < |b| + offset {
      var c := CountInIndex(|b|, offset, s, u);
      if c.Some? {
        var (lo, hi) := c.value;
        assert AsI32(Trunc32(lo)) as int == lo && AsI32(Trunc32(hi)) as int == hi;
        assert Piece(db, n, offset, s, u) == Ok(Range(b, lo, hi));
        assert lo == Clamp(s - offset, |b|) && hi + 1 == Clamp(u + 1 - offset, |b|);
      } else {
        assert Clamp(s - offset, |b|) == Clamp(u + 1 - offset, |b|);
      }
    } else {
      assert Clamp(s - offset, |b|) == Clamp(u + 1 - offset, |b|) == |b|;
      assert b[|b|..|b|] == [];
    }
  }

  /** On a one-node list whose counts are right, `lrange` returns the slice of the list that the
      resolved window `[s, u]` covers, cut to the positions that exist. */
  lemma LrangeOneNode(db: Store, key: Key, start: i32, stop: i32, fuel: nat)
    requires Linked(db, key, fuel) && Counted(db, key, fuel)
    requires |WalkOf(db, key, fuel).nodes| == 1
    requires 0 < db[key].head.lenList as int <= I32_MAX
    ensures var len := db[key].head.lenList as int;
            var s := AsUsize(CountIndex(AsI32(db[key].head.lenList), start));
            var u := AsUsize(CountIndex(AsI32(db[key].head.lenList), stop));
            LrangeSpec(db, key, start, stop, fuel) ==
              Ok(if s <= u then Elements(db, key, fuel)[Clamp(s, len)..Clamp(u + 1, len)] else [])
  {
    var t := db[key].head;
    var len := t.lenList as int;
    var s := AsUsize(CountIndex(AsI32(t.lenList), start));
    var u := AsUsize(CountIndex(AsI32(t.lenList), stop));
    var w := WalkOf(db, key, fuel);
    var bs := Blocks(db, w.nodes);
    assert bs == [bs[0]];
    assert Flatten(bs) == bs[0] by {
      assert bs[..0] == [];
    }
    assert Elements(db, key, fuel) == bs[0];
    if s <= u {
      RangeAlongOneNode(db, w, bs[0], s, u);
    }
  }

  /** A walk of one node, whose count is its block's length, yields the part of the window that
      falls on the block. */
  lemma RangeAlongOneNode(db: Store, w: Walk, b: Block, s: nat, u: nat)
    requires |w.nodes| == 1 && w.end == NoRight
    requires ValuesOf(db, w.nodes[0]) == Ok(b) && w.nodes[0].lenList as int == |b| <= I32_MAX
    requires s <= u
    ensures RangeAlong(db, w, s, u) == Ok(b[Clamp(s, |b|)..Clamp(u + 1, |b|)])
  {
    PieceSlice(db, w.nodes[0], b, 0, s, u);
    var piece := b[Clamp(s, |b|)..Clamp(u + 1, |b|)];
    assert w.nodes[..1] == w.nodes;
    GatherNext(db, w.nodes, 0, s, u);
    assert w.nodes[..0] == [];
    assert [] + piece == piece;
  }

  /** Each node is read with the window `[0, u]` and offset 0, so a node whose count is its
      block's length, no more than `u + 1`, contributes its whole block; gathering nodes whose
      blocks are `bs` yields all their elements. */
  lemma {:induction false} GatherWhole(db: Store, ns: seq<Node>, bs: seq<Block>, u: nat)
    requires |ns| == |bs|
    requires forall i :: 0 <= i < |ns| ==>
               ValuesOf(db, ns[i]) == Ok(bs[i]) && ns[i].lenList as int == |bs[i]| <= Min(u + 1, I32_MAX)
    ensures Gather(db, ns, 0, u) == Ok(Flatten(bs))
    decreases |ns|
  {
    if ns != [] {
      var k := |ns| - 1;
      GatherWhole(db, ns[..k], bs[..k], u);
      PieceSlice(db, ns[k], bs[k], 0, 0, u);
      assert bs[k][0..|bs[k]|] == bs[k];
    }
  }

  /** On a list in good order whose length fits an i32, `lrange(0, -1)` answers every
      element. */
  lemma LrangeAll(db: Store, key: Key, fuel: nat)
    requires Linked(db, key, fuel) && Counted(db, key, fuel)
    requires 0 < db[key].head.lenList as int <= I32_MAX
    ensures LrangeSpec(db, key, 0, -1, fuel) == Ok(Elements(db, key, fuel))
  {
    var w := WalkOf(db, key, fuel);
    var u := db[key].head.lenList as int - 1;
    assert CountIndex(AsI32(db[key].head.lenList), -1) as int == u;
    RangeAlongAll(db, w, Blocks(db, w.nodes), u);
  }

  /** Along a walk that ends at a node with no right neighbour, whose node counts are right and
      whose blocks hold `u + 1` elements, at most 2^31-1, the window `[0, u]` gathers every
      element: each node contributes its whole block, and the walk stops early only at a node
      holding every element. */
  lemma RangeAlongAll(db: Store, w: Walk, bs: seq<Block>, u: nat)
    requires w.end == NoRight && |w.nodes| == |bs| && Readable(db, w.nodes) && Blocks(db, w.nodes) == bs
    requires NodesCounted(w.nodes, bs) && |Flatten(bs)| == u + 1 <= I32_MAX
    ensures RangeAlong(db, w, 0, u) == Ok(Flatten(bs))
  {
    forall i | 0 <= i < |bs|
      ensures |bs[i]| <= u + 1
    {
      BlockWithin(bs, i);
    }
    var m := FirstAbove(Sizes(w.nodes), u);
    if m < |w.nodes| {
      assert u < Sizes(w.nodes)[m] == |bs[m]|;
      FlattenAllIn(bs, m);
      GatherWhole(db, w.nodes[..m + 1], bs[..m + 1], u);
    } else {
      GatherWhole(db, w.nodes, bs, u);
    }
  }

  /** When block `m` holds as many elements as all the blocks together, the blocks after it
      are empty, so the first `m + 1` blocks hold every element. */
  lemma FlattenAllIn(bs: seq<Block>, m: nat)
    requires m < |bs| && |Flatten(bs)| <= |bs[m]|
    ensures Flatten(bs[..m + 1]) == Flatten(bs)
  {
    FlattenSplit(bs, m + 1);
    BlockWithin(bs[..m + 1], m);
    assert Flatten(bs[m + 1..]) == [];
  }

  /** As written, `lrange` never advances `offset`, so every node is read as if it held the
      first list positions: on three one-element nodes in good order, `lrange(0, 1)` answers all
      three elements instead of the first two. */
  lemma LrangeOverreads(a: Value, b: Value, c: Value)
    ensures Linked(ThreeNodes(a, b, c), [0], 2) && Counted(ThreeNodes(a, b, c), [0], 2)
    ensures Elements(ThreeNodes(a, b, c), [0], 2) == [a, b, c]
    ensures LrangeSpec(ThreeNodes(a, b, c), [0], 0, 1, 2) == Ok([a, b, c])
  {
    var db := ThreeNodes(a, b, c);
    var ns := ThreeNodesWalk(a, b, c);
    ThreeNodesOrder(a, b, c);
    var w := Walk([[1], [2], [5]], ns, NoRight);
    assert LrangeSpec(db, [0], 0, 1, 2) == RangeAlong(db, w, 0, 1) by {
      assert CountIndex(AsI32(3), 0) == 0 && CountIndex(AsI32(3), 1) == 1;
    }
    assert FirstAbove(Sizes(ns), 1) == 3 by {
      assert Sizes(ns) == [1, 1, 1];
    }
    assert RangeAlong(db, w, 0, 1) == Gather(db, ns, 0, 1);
    GatherWhole(db, ns, Blocks(db, ns), 1);
    FlattenFew([a], [b], [c]);
  }
}
