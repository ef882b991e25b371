/** The three kinds of record a list is stored as, the store they live in, the typed reads the
    commands make, and the walk along right links that lindex, lrange and lrem perform. */
module Records {
  import opened Wrappers
  import opened Width
  import opened ZipList

  /** A key of the backing store. */
  type Key = seq<byte>

  /** `QuickList`, the head record stored under the list's own key: the keys of the leftmost and
      rightmost nodes, the cached element count (`len_list`) and node count (`len_node`). */
  datatype Head = Head(left: Option<Key>, right: Option<Key>, lenList: u32, lenNode: u32)

  /** `QuickListNode`: the keys of its siblings, the key of its block (`values_key`), and the
      cached element count (`len_list`) and encoded size (`len_bytes`) of that block. */
  datatype Node = Node(left: Option<Key>, right: Option<Key>, valuesKey: Option<Key>,
                       lenList: u32, lenBytes: u32)

  /** What a key of the store holds. */
  datatype Record = HeadRecord(head: Head) | NodeRecord(node: Node) | BlockRecord(block: Block)

  /** The backing store, or the view a transaction has of it with its own writes applied. */
  type Store = map<Key, Record>

  datatype Error =
    | NotFind    // `Error::not_find`: the caller's list, index or element does not exist
    | NoneError  // `Error::none_error`: a record or reference the structure promises is absent
    | Decode     // the key holds a record of another kind than the one read
    | OutOfFuel  // the walk used up its hop budget (the source would keep walking)

  /** `QuickList::get`: absent key, the head stored there, or a decoding failure. */
  function HeadAt(db: Store, k: Key): (r: Result<Option<Head>, Error>)
    ensures r == Ok(None) <==> k !in db
    ensures r.Ok? && r.value.Some? <==> k in db && db[k].HeadRecord?
    ensures r.Ok? && r.value.Some? ==> db[k] == HeadRecord(r.value.value)
    ensures r.Err? ==> r.error == Decode
  {
    if k !in db then Ok(None)
    else match db[k]
      case HeadRecord(h) => Ok(Some(h))
      case _ => Err(Decode)
  }

  /** `QuickListNode::get`. */
  function NodeAt(db: Store, k: Key): (r: Result<Option<Node>, Error>)
    ensures r == Ok(None) <==> k !in db
    ensures r.Ok? && r.value.Some? <==> k in db && db[k].NodeRecord?
    ensures r.Ok? && r.value.Some? ==> db[k] == NodeRecord(r.value.value)
    ensures r.Err? ==> r.error == Decode
  {
    if k !in db then Ok(None)
    else match db[k]
      case NodeRecord(n) => Ok(Some(n))
      case _ => Err(Decode)
  }

  /** `ZipList::get`. */
  function BlockAt(db: Store, k: Key): (r: Result<Option<Block>, Error>)
    ensures r == Ok(None) <==> k !in db
    ensures r.Ok? && r.value.Some? <==> k in db && db[k].BlockRecord?
    ensures r.Ok? && r.value.Some? ==> db[k] == BlockRecord(r.value.value)
    ensures r.Err? ==> r.error == Decode
  {
    if k !in db then Ok(None)
    else match db[k]
      case BlockRecord(b) => Ok(Some(b))
      case _ => Err(Decode)
  }

  /** The block of node `n`: its `values_key`, then the block stored there, each absence being a
      none-error. */
  function ValuesOf(db: Store, n: Node): (r: Result<Block, Error>)
    ensures r.Ok? <==> n.valuesKey.Some? && n.valuesKey.value in db
                       && db[n.valuesKey.value].BlockRecord?
    ensures r.Ok? ==> r.value == db[n.valuesKey.value].block
  {
    var zipKey :- OkOr(n.valuesKey, NoneError);
    var found :- BlockAt(db, zipKey);
    OkOr(found, NoneError)
  }

  /** Why a walk along right links stopped. */
  datatype WalkEnd =
    | NoRight    // the last node has no right neighbour
    | Missing    // the next key holds nothing
    | WrongKind  // the next key holds a record that is not a node
    | Exhausted  // the hop budget is spent and the last node has a right neighbour

  /** The node keys a walk visited, the node records read there, and why it stopped. */
  datatype Walk = Walk(keys: seq<Key>, nodes: seq<Node>, end: WalkEnd)

  /** The key a walk that started at `k` would read next: `k` itself before any node, then the
      right link of the last node read. */
  function Beyond(w: Walk, k: Key): Option<Key>
  {
    if |w.nodes| == 0 then Some(k) else w.nodes[|w.nodes| - 1].right
  }

  /** The nodes met from key `k` by following right links, taking at most `fuel` hops. */
  function RightWalk(db: Store, k: Key, fuel: nat): (w: Walk)
    ensures |w.keys| == |w.nodes| <= fuel + 1
    ensures |w.keys| > 0 ==> w.keys[0] == k
    ensures forall i :: 0 <= i < |w.keys| ==> w.keys[i] in db && db[w.keys[i]] == NodeRecord(w.nodes[i])
    ensures forall i, j {:trigger w.nodes[i], w.keys[j]} ::
              0 <= i && j == i + 1 && j < |w.keys| ==> w.nodes[i].right == Some(w.keys[j])
    ensures w.end == NoRight <==> Beyond(w, k).None?
    ensures w.end == Exhausted ==> |w.nodes| == fuel + 1 && Beyond(w, k).Some?
    ensures w.end == Missing ==> |w.nodes| <= fuel && Beyond(w, k).Some? && Beyond(w, k).value !in db
    ensures w.end == WrongKind ==>
              |w.nodes| <= fuel && Beyond(w, k).Some? && Beyond(w, k).value in db
              && !db[Beyond(w, k).value].NodeRecord?
    decreases fuel
  {
    if k !in db then Walk([], [], Missing)
    else if !db[k].NodeRecord? then Walk([], [], WrongKind)
    else
      var n := db[k].node;
      if n.right.None? then Walk([k], [n], NoRight)
      else if fuel == 0 then Walk([k], [n], Exhausted)
      else
        var rest := RightWalk(db, n.right.value, fuel - 1);
        Walk([k] + rest.keys, [n] + rest.nodes, rest.end)
  }

  /** `QuickListNode::get(..)?.ok_or(none_error)`: the node stored at `k`, an absent one being a
      none-error. */
  function ReadNode(db: Store, k: Key): (r: Result<Node, Error>)
    ensures r.Ok? <==> k in db && db[k].NodeRecord?
    ensures r.Ok? ==> db[k] == NodeRecord(r.value)
    ensures r.Err? ==> r.error == (if k in db then Decode else NoneError)
  {
    var found :- NodeAt(db, k);
    OkOr(found, NoneError)
  }

  /** Hop number `hops` of a walk with budget `fuel`, from node `n` to the node its right link
      names; a missing link or node is a none-error, as in the source, and a spent budget stops
      the walk. */
  function Follow(db: Store, n: Node, hops: nat, fuel: nat): Result<Node, Error>
  {
    var nextKey :- OkOr(n.right, NoneError);
    if hops == fuel then Err(OutOfFuel) else ReadNode(db, nextKey)
  }

  /** The first node of a walk is the one `ReadNode` finds at its starting key; when there is
      none the walk is empty and its end stands for the same error. */
  lemma ReadFirst(db: Store, k: Key, fuel: nat)
    ensures var w := RightWalk(db, k, fuel);
            var f := ReadNode(db, k);
            && (f.Ok? ==> 0 < |w.nodes| && w.nodes[0] == f.value)
            && (f.Err? ==> |w.nodes| == 0 && w.end != NoRight && f.error == EndError(w.end))
  {
  }

  /** `Follow` from node `j` of a walk reads node `j + 1` of the walk; when it fails, node `j`
      is the walk's last and the walk's end stands for the same error, and the walk ended for
      want of a right link exactly when node `j` has none. */
  lemma FollowWalk(db: Store, k: Key, fuel: nat, j: nat)
    requires j < |RightWalk(db, k, fuel).nodes|
    ensures var w := RightWalk(db, k, fuel);
            var f := Follow(db, w.nodes[j], j, fuel);
            && (f.Ok? ==> j + 1 < |w.nodes| && w.nodes[j + 1] == f.value)
            && (f.Err? ==> j + 1 == |w.nodes| && f.error == EndError(w.end))
            && (w.nodes[j].right.None? <==> f.Err? && w.end == NoRight)
  {
    var w := RightWalk(db, k, fuel);
    if j + 1 < |w.nodes| {
      assert w.nodes[j].right == Some(w.keys[j + 1]);
    }
  }

  /** Two stores with the same keys, nodes at the same keys, and the same right links: a
      walk cannot tell them apart except by the node records it reads. */
  predicate SameLinks(db: Store, db': Store)
  {
    && db.Keys == db'.Keys
    && forall x :: x in db ==>
         && (db[x].NodeRecord? <==> db'[x].NodeRecord?)
         && (db[x].NodeRecord? ==> db'[x].node.right == db[x].node.right)
  }

  /** A walk visits the same keys and ends the same way in stores with the same links. */
  lemma {:induction false} WalkSameLinks(db: Store, db': Store, k: Key, fuel: nat)
    requires SameLinks(db, db')
    ensures RightWalk(db', k, fuel).keys == RightWalk(db, k, fuel).keys
    ensures RightWalk(db', k, fuel).end == RightWalk(db, k, fuel).end
    decreases fuel
  {
    if k in db && db[k].NodeRecord? && db[k].node.right.Some? && fuel > 0 {
      WalkSameLinks(db, db', db[k].node.right.value, fuel - 1);
    }
  }

  /** The error a command reports when its walk stops before it is done. */
  function EndError(e: WalkEnd): Error
  {
    match e
    case NoRight => NoneError
    case Missing => NoneError
    case WrongKind => Decode
    case Exhausted => OutOfFuel
  }

  /** The cached counts of the nodes as lindex adds them up (`len_list() as i32`). */
  function Lens(ns: seq<Node>): (lens: seq<int>)
    ensures |lens| == |ns|
    ensures forall i :: 0 <= i < |ns| ==> lens[i] == AsI32(ns[i].lenList) as int
  {
    seq(|ns|, i requires 0 <= i < |ns| => AsI32(ns[i].lenList) as int)
  }

  /** The cached counts of the nodes as lrange compares them (`len_list() as usize`). */
  function Sizes(ns: seq<Node>): (sizes: seq<int>)
    ensures |sizes| == |ns|
    ensures forall i :: 0 <= i < |ns| ==> sizes[i] == ns[i].lenList as int
  {
    seq(|ns|, i requires 0 <= i < |ns| => ns[i].lenList as int)
  }
}
