/** The list a store holds under a key, read the way the commands read it: from the head's
    leftmost node along right links, each node contributing the elements of its block. These
    definitions describe a list in good order; the commands are not proved to keep it so (several
    of them, as written, do not), only the steps that do are. */
module Chain {
  import opened Wrappers
  import opened Width
  import opened ZipList
  import opened Records
  import opened Positions

  /** The elements of consecutive blocks, left to right. */
  function Flatten(bs: seq<Block>): seq<Value>
  {
    if bs == [] then [] else Flatten(bs[..|bs| - 1]) + bs[|bs| - 1]
  }

  /** Every node names a block that the store holds. */
  predicate Readable(db: Store, ns: seq<Node>)
  {
    forall i :: 0 <= i < |ns| ==> ValuesOf(db, ns[i]).Ok?
  }

  /** The blocks of the nodes `ns`, in order. */
  function Blocks(db: Store, ns: seq<Node>): (bs: seq<Block>)
    requires Readable(db, ns)
    ensures |bs| == |ns|
    ensures forall i :: 0 <= i < |ns| ==> bs[i] == ValuesOf(db, ns[i]).value
  {
    seq(|ns|, i requires 0 <= i < |ns| => ValuesOf(db, ns[i]).value)
  }

  /** No two nodes share a block. */
  predicate DistinctBlocks(ns: seq<Node>)
  {
    forall i, j :: 0 <= i < j < |ns| ==> ns[i].valuesKey != ns[j].valuesKey
  }

  /** The key holds a head whose leftmost node starts a walk that ends at a node with no right
      neighbour within `fuel` hops; the head's rightmost key names that last node; every node
      has its own block. */
  predicate Linked(db: Store, key: Key, fuel: nat)
  {
    && key in db && db[key].HeadRecord?
    && db[key].head.left.Some?
    && var w := RightWalk(db, db[key].head.left.value, fuel);
    && w.end == NoRight
    && 0 < |w.keys|
    && db[key].head.right == Some(w.keys[|w.keys| - 1])
    && Readable(db, w.nodes)
    && DistinctBlocks(w.nodes)
  }

  /** The walk from the head of a linked list. */
  function WalkOf(db: Store, key: Key, fuel: nat): (w: Walk)
    requires Linked(db, key, fuel)
    ensures 0 < |w.nodes| == |w.keys| && w.end == NoRight
    ensures Readable(db, w.nodes) && DistinctBlocks(w.nodes)
  {
    RightWalk(db, db[key].head.left.value, fuel)
  }

  /** Node `i` of a linked list's walk is the node stored at its key. */
  lemma WalkRead(db: Store, key: Key, fuel: nat, i: nat)
    requires Linked(db, key, fuel) && i < |WalkOf(db, key, fuel).nodes|
    ensures var w := WalkOf(db, key, fuel);
            ReadNode(db, w.keys[i]) == Ok(w.nodes[i])
  {
  }

  /** The elements of a linked list, left to right. */
  function Elements(db: Store, key: Key, fuel: nat): seq<Value>
    requires Linked(db, key, fuel)
  {
    Flatten(Blocks(db, WalkOf(db, key, fuel).nodes))
  }

  /** Each node's cached `len_list` is the length of its block. */
  predicate NodesCounted(ns: seq<Node>, bs: seq<Block>)
    requires |ns| == |bs|
  {
    forall i :: 0 <= i < |ns| ==> ns[i].lenList as int == |bs[i]|
  }

  /** Every cached count of a linked list is right: each node's `len_list` is its block's
      length, and the head's `len_list` is the number of elements. */
  predicate Counted(db: Store, key: Key, fuel: nat)
    requires Linked(db, key, fuel)
  {
    var ns := WalkOf(db, key, fuel).nodes;
    && NodesCounted(ns, Blocks(db, ns))
    && db[key].head.lenList as int == |Elements(db, key, fuel)|
  }

  /** The running total of block lengths before block `n` is where block `n` starts. */
  lemma {:induction false} PrefixFlatten(bs: seq<Block>, lens: seq<int>, n: nat)
    requires |lens| == |bs| && n <= |bs|
    requires forall i :: 0 <= i < |bs| ==> lens[i] == |bs[i]|
    ensures Prefix(lens, n) == |Flatten(bs[..n])|
  {
    if n > 0 {
      PrefixFlatten(bs, lens, n - 1);
      assert bs[..n][..n - 1] == bs[..n - 1];
    }
  }

  /** The elements of the first `n` blocks begin the elements of all of them. */
  lemma {:induction false} FlattenPrefix(bs: seq<Block>, n: nat)
    requires n <= |bs|
    ensures Flatten(bs[..n]) <= Flatten(bs)
    decreases |bs|
  {
    if n < |bs| {
      var init := bs[..|bs| - 1];
      FlattenPrefix(init, n);
      assert init[..n] == bs[..n];
    } else {
      assert bs[..n] == bs;
    }
  }

  /** Position `index` of the flattened blocks is found by `Locate` over the block lengths: it
      lies in block `Locate(lens, index)`, at `index` minus the lengths before that block. */
  lemma FlattenAt(bs: seq<Block>, lens: seq<int>, index: int)
    requires |lens| == |bs|
    requires forall i :: 0 <= i < |bs| ==> lens[i] == |bs[i]|
    requires 0 <= index < |Flatten(bs)|
    ensures Locate(lens, index) < |bs|
    ensures var j := Locate(lens, index);
            0 <= index - Prefix(lens, j) < |bs[j]| &&
            Flatten(bs)[index] == bs[j][index - Prefix(lens, j)]
  {
    assert bs[..|bs|] == bs;
    PrefixFlatten(bs, lens, |bs|);
    LocateFound(lens, index);
    var j := Locate(lens, index);
    LocateWithin(lens, index);
    PrefixFlatten(bs, lens, j);
    PrefixFlatten(bs, lens, j + 1);
    FlattenPrefix(bs, j + 1);
    assert bs[..j + 1][..j] == bs[..j];
    assert Flatten(bs[..j + 1]) == Flatten(bs[..j]) + bs[j];
    assert Flatten(bs)[index] == Flatten(bs[..j + 1])[index];
  }

  /** The elements of blocks are the elements of the first `n` of them, then those of the
      rest. */
  lemma {:induction false} FlattenSplit(bs: seq<Block>, n: nat)
    requires n <= |bs|
    ensures Flatten(bs) == Flatten(bs[..n]) + Flatten(bs[n..])
    decreases |bs|
  {
    if n == |bs| {
      assert bs[..n] == bs && bs[n..] == [];
    } else {
      var m := |bs| - 1;
      FlattenSplit(bs[..m], n);
      assert bs[..m][..n] == bs[..n];
      assert bs[n..][..|bs[n..]| - 1] == bs[..m][n..];
      assert bs[n..][|bs[n..]| - 1] == bs[m];
    }
  }

  /** No block is longer than all the elements together. */
  lemma BlockWithin(bs: seq<Block>, i: nat)
    requires i < |bs|
    ensures |bs[i]| <= |Flatten(bs)|
  {
    FlattenPrefix(bs, i + 1);
    assert bs[..i + 1][..i] == bs[..i];
    assert Flatten(bs[..i + 1]) == Flatten(bs[..i]) + bs[i];
  }

  /** The elements of one, two and three blocks. */
  lemma FlattenFew(p: Block, q: Block, r: Block)
    ensures Flatten([p]) == p && Flatten([p, q]) == p + q && Flatten([p, q, r]) == p + q + r
  {
    assert [p][..0] == [];
    assert [p, q][..1] == [p];
    assert [p, q, r][..2] == [p, q];
  }
}
