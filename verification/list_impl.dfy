/** The list commands of `RedisRocksdb`, over a store held in memory. Each command works in a
    transaction: a local copy `tx` of the store that its puts and deletes update, committed by
    assigning it back to `db` at the end. A command that fails part-way returns before the
    commit, so a failed command leaves the store as it was. */
module ListImpl {
  import opened Wrappers
  import opened Width
  import opened ZipList
  import opened Records
  import opened Positions
  import opened Chain

  /** What `lindex` answers: the head's count bounds the index from above only; the walk from
      the leftmost node stops at the first node whose running total of cached counts exceeds
      `index`, and the element is taken from that node's block at `index` minus the counts
      before it. */
  function LindexSpec(db: Store, key: Key, index: i32, fuel: nat): (r: Result<Value, Error>)
    ensures key !in db ==> r == Err(NotFind)
    ensures key in db && !db[key].HeadRecord? ==> r == Err(Decode)
    ensures key in db && db[key].HeadRecord? && index >= AsI32(db[key].head.lenList) ==> r == Err(NotFind)
    ensures key in db && db[key].HeadRecord? && db[key].head.left.None? ==>
              index < AsI32(db[key].head.lenList) ==> r == Err(NoneError)
  {
    match HeadAt(db, key)
    case Err(e) => Err(e)
    case Ok(None) => Err(NotFind)
    case Ok(Some(t)) =>
      if index >= AsI32(t.lenList) then Err(NotFind)
      else if t.left.None? then Err(NoneError)
      else IndexAlong(db, RightWalk(db, t.left.value, fuel), index as int)
  }

  /** The element a walk `w` yields for `index`, or the reason it yields none. */
  function IndexAlong(db: Store, w: Walk, index: int): Result<Value, Error>
    requires |w.keys| == |w.nodes|
  {
    var lens := Lens(w.nodes);
    var j := Locate(lens, index);
    if j < |w.nodes| then
      match ValuesOf(db, w.nodes[j])
      case Err(e) => Err(e)
      case Ok(zip) => OkOr(Index(zip, index - Prefix(lens, j)), NotFind)
    else
      Err(EndError(w.end))
  }

  /** A walk whose running totals never exceed `index` yields the error its end stands for. */
  lemma AlongPast(db: Store, w: Walk, index: int, i: nat)
    requires |w.keys| == |w.nodes| && i + 1 == |w.nodes|
    requires Prefix(Lens(w.nodes), i + 1) <= index
    requires LocateFrom(Lens(w.nodes), index, i) == Locate(Lens(w.nodes), index)
    ensures IndexAlong(db, w, index) == Err(EndError(w.end))
  {
  }

  /** A walk with no node yields the error its end stands for. */
  lemma AlongEmpty(db: Store, w: Walk, index: int)
    requires |w.keys| == |w.nodes| == 0
    ensures IndexAlong(db, w, index) == Err(EndError(w.end))
  {
  }

  /** Node `i`, the first whose running total `total` exceeds `index`, is where the element is
      read, at `index` minus the total before that node. */
  lemma AlongAt(db: Store, w: Walk, index: int, i: nat, total: int, n: Node)
    requires |w.keys| == |w.nodes| && i < |w.nodes| && n == w.nodes[i]
    requires total == Prefix(Lens(w.nodes), i + 1) && index < total
    requires LocateFrom(Lens(w.nodes), index, i) == Locate(Lens(w.nodes), index)
    ensures ValuesOf(db, n).Err? ==> IndexAlong(db, w, index) == Err(ValuesOf(db, n).error)
    ensures ValuesOf(db, n).Ok? ==>
              IndexAlong(db, w, index) ==
                OkOr(Index(ValuesOf(db, n).value, index - (total - AsI32(n.lenList) as int)), NotFind)
  {
  }

  /** Passing node `i` does not change where the walk stops. */
  lemma LocatePass(lens: seq<int>, index: int, i: nat)
    requires i < |lens| && Prefix(lens, i + 1) <= index
    ensures LocateFrom(lens, index, i) == LocateFrom(lens, index, i + 1)
  {
  }

  /** The walk `lindex` makes from the leftmost node `nodeKey`: it adds up the cached counts
      (each `len_list() as i32`) until the total exceeds `index`, then reads the element at
      `index` minus the counts before that node. */
  method IndexFrom(tx: Store, nodeKey: Key, index: i32, fuel: nat) returns (r: Result<Value, Error>)
    ensures r == IndexAlong(tx, RightWalk(tx, nodeKey, fuel), index as int)
  {
    ghost var w := RightWalk(tx, nodeKey, fuel);
    ghost var lens := Lens(w.nodes);
    ghost var idx := index as int;
    ReadFirst(tx, nodeKey, fuel);
    var first := ReadNode(tx, nodeKey);
    if first.Err? {
      AlongEmpty(tx, w, idx);
      return Err(first.error);
    }
    var node := first.value;
    var itIndex: int := AsI32(node.lenList) as int;
    var hops: nat := 0;
    while index as int >= itIndex
      invariant hops < |w.nodes| && node == w.nodes[hops]
      invariant itIndex == Prefix(lens, hops + 1)
      invariant LocateFrom(lens, idx, hops) == Locate(lens, idx)
      decreases fuel - hops
    {
      FollowWalk(tx, nodeKey, fuel, hops);
      var next := Follow(tx, node, hops, fuel);
      if next.Err? {
        AlongPast(tx, w, idx, hops);
        return Err(next.error);
      }
      LocatePass(lens, idx, hops);
      node := next.value;
      hops := hops + 1;
      itIndex := itIndex + AsI32(node.lenList) as int;
    }
    r := ReadAt(tx, w, index, hops, itIndex, node);
  }

  /** The read `lindex` makes once the walk has stopped at node `i`: the element at `index`
      minus the counts before that node, from that node's block. */
  method ReadAt(tx: Store, ghost w: Walk, index: i32, ghost i: nat, itIndex: int, node: Node)
    returns (r: Result<Value, Error>)
    requires |w.keys| == |w.nodes| && i < |w.nodes| && node == w.nodes[i]
    requires itIndex == Prefix(Lens(w.nodes), i + 1) && index as int < itIndex
    requires LocateFrom(Lens(w.nodes), index as int, i) == Locate(Lens(w.nodes), index as int)
    ensures r == IndexAlong(tx, w, index as int)
  {
    AlongAt(tx, w, index as int, i, itIndex, node);
    var zip :- ValuesOf(tx, node);
    var zipIndex := index as int - (itIndex - AsI32(node.lenList) as int);
    r := OkOr(Index(zip, zipIndex), NotFind);
  }

  /** What `lrange` answers: nothing when the list is absent or empty or the resolved window
      is reversed; otherwise the pieces that `RangeAlong` gathers from the leftmost node on. The
      window bounds are resolved by `count_index` against the head's count and then widened to
      `usize`, so a negative result becomes a huge bound. */
  function LrangeSpec(db: Store, key: Key, start: i32, stop: i32, fuel: nat): (r: Result<seq<Value>, Error>)
    ensures key !in db ==> r == Ok([])
    ensures key in db && !db[key].HeadRecord? ==> r == Err(Decode)
    ensures key in db && db[key].HeadRecord? && db[key].head.lenList < 1 ==> r == Ok([])
    ensures key in db && db[key].HeadRecord? ==>
              var n := AsI32(db[key].head.lenList);
              AsUsize(CountIndex(n, start)) > AsUsize(CountIndex(n, stop)) ==> r == Ok([])
  {
    match HeadAt(db, key)
    case Err(e) => Err(e)
    case Ok(None) => Ok([])
    case Ok(Some(t)) =>
      if t.lenList < 1 then Ok([])
      else
        var s := AsUsize(CountIndex(AsI32(t.lenList), start));
        var u := AsUsize(CountIndex(AsI32(t.lenList), stop));
        if s > u then Ok([])
        else if t.left.None? then Err(NoneError)
        else RangeAlong(db, RightWalk(db, t.left.value, fuel), s, u)
  }

  /** The elements node `n` contributes to the window `[s, u]` when its block is taken to hold
      list positions from `offset` on: none unless `s` falls before the block's end, and then the
      local range `count_in_index` picks, cut from the block by `range` with its bounds cast to
      i32. */
  function Piece(db: Store, n: Node, offset: nat, s: nat, u: nat): Result<seq<Value>, Error>
  {
    if s < n.lenList as int + offset then
      match CountInIndex(n.lenList as int, offset, s, u)
      case None => Ok([])
      case Some((a, b)) =>
        var zip :- ValuesOf(db, n);
        Ok(Range(zip, AsI32(Trunc32(a)) as int, AsI32(Trunc32(b)) as int))
    else
      Ok([])
  }

  /** The pieces of the nodes `ns`, left to right, each taken with offset 0 as `lrange` does;
      the first failing node's error otherwise. */
  function Gather(db: Store, ns: seq<Node>, s: nat, u: nat): Result<seq<Value>, Error>
  {
    if ns == [] then Ok([])
    else
      var init :- Gather(db, ns[..|ns| - 1], s, u);
      var last :- Piece(db, ns[|ns| - 1], 0, s, u);
      Ok(init + last)
  }

  /** What `lrange` gathers along walk `w`: up to and including the first node whose count
      exceeds `u`, or, when there is none, every node of the walk and then the walk's end. */
  function RangeAlong(db: Store, w: Walk, s: nat, u: nat): Result<seq<Value>, Error>
  {
    var m := FirstAbove(Sizes(w.nodes), u);
    if m < |w.nodes| then Gather(db, w.nodes[..m + 1], s, u)
    else
      match Gather(db, w.nodes, s, u)
      case Err(e) => Err(e)
      case Ok(out) => if w.end == NoRight then Ok(out) else Err(EndError(w.end))
  }

  /** Gathering one more node appends its piece. */
  lemma GatherNext(db: Store, ns: seq<Node>, i: nat, s: nat, u: nat)
    requires i < |ns|
    ensures Gather(db, ns[..i + 1], s, u) ==
              match Gather(db, ns[..i], s, u)
              case Err(e) => Err(e)
              case Ok(init) =>
                match Piece(db, ns[i], 0, s, u)
                case Err(e) => Err(e)
                case Ok(last) => Ok(init + last)
  {
    assert ns[..i + 1][..i] == ns[..i];
  }

  /** Once gathering fails, gathering more nodes fails the same way. */
  lemma {:induction false} GatherFails(db: Store, ns: seq<Node>, i: nat, k: nat, s: nat, u: nat)
    requires i <= k <= |ns| && Gather(db, ns[..i], s, u).Err?
    ensures Gather(db, ns[..k], s, u) == Gather(db, ns[..i], s, u)
    decreases k - i
  {
    if i < k {
      GatherFails(db, ns, i, k - 1, s, u);
      GatherNext(db, ns, k - 1, s, u);
    }
  }

  /** A walk that `lrange` leaves at node `i`, because its count exceeds `u`, gathers the pieces
      up to node `i`. */
  lemma RangeAlongStops(db: Store, w: Walk, s: nat, u: nat, i: nat)
    requires i < |w.nodes| && u < w.nodes[i].lenList as int
    requires FirstAboveFrom(Sizes(w.nodes), u, i) == FirstAbove(Sizes(w.nodes), u)
    ensures RangeAlong(db, w, s, u) == Gather(db, w.nodes[..i + 1], s, u)
  {
  }

  /** A walk that `lrange` leaves at its last node, whose right link is empty, gathers every
      piece. */
  lemma RangeAlongEnds(db: Store, w: Walk, s: nat, u: nat, i: nat)
    requires i + 1 == |w.nodes| && w.end == NoRight && w.nodes[i].lenList as int <= u
    requires FirstAboveFrom(Sizes(w.nodes), u, i) == FirstAbove(Sizes(w.nodes), u)
    requires Gather(db, w.nodes[..i + 1], s, u).Ok?
    ensures RangeAlong(db, w, s, u) == Gather(db, w.nodes[..i + 1], s, u)
  {
    assert w.nodes[..i + 1] == w.nodes;
  }

  /** A walk that `lrange` cannot continue past its last node yields the error of its end. */
  lemma RangeAlongBreaks(db: Store, w: Walk, s: nat, u: nat, i: nat, out: seq<Value>)
    requires i + 1 == |w.nodes| && w.end != NoRight && w.nodes[i].lenList as int <= u
    requires FirstAboveFrom(Sizes(w.nodes), u, i) == FirstAbove(Sizes(w.nodes), u)
    requires Gather(db, w.nodes[..i + 1], s, u) == Ok(out)
    ensures RangeAlong(db, w, s, u) == Err(EndError(w.end))
  {
    assert w.nodes[..i + 1] == w.nodes;
  }

  /** When node `i`'s piece fails, `lrange` along the walk fails the same way. */
  lemma RangeAlongFails(db: Store, w: Walk, s: nat, u: nat, i: nat)
    requires i < |w.nodes|
    requires FirstAboveFrom(Sizes(w.nodes), u, i) == FirstAbove(Sizes(w.nodes), u)
    requires Gather(db, w.nodes[..i + 1], s, u).Err?
    ensures RangeAlong(db, w, s, u) == Gather(db, w.nodes[..i + 1], s, u)
  {
    var m := FirstAbove(Sizes(w.nodes), u);
    if m < |w.nodes| {
      GatherFails(db, w.nodes, i + 1, m + 1, s, u);
    } else {
      GatherFails(db, w.nodes, i + 1, |w.nodes|, s, u);
      assert w.nodes[..|w.nodes|] == w.nodes;
    }
  }

  /** A walk with no node yields the error of its end. */
  lemma RangeAlongEmpty(db: Store, w: Walk, s: nat, u: nat)
    requires |w.nodes| == 0 && w.end != NoRight
    ensures RangeAlong(db, w, s, u) == Err(EndError(w.end))
  {
  }

  /** Passing node `i`, whose count does not exceed `u`, does not change where `lrange` stops. */
  lemma AbovePass(lens: seq<int>, u: int, i: nat)
    requires i < |lens| && lens[i] <= u
    ensures FirstAboveFrom(lens, u, i) == FirstAboveFrom(lens, u, i + 1)
  {
  }

  /** What `lrange` takes from one node: when `startIndex` falls before the end of the node's
      block, the local range `count_in_index` picks, read from the block with `range`. */
  method PieceOf(tx: Store, node: Node, offset: nat, startIndex: nat, stopIndex: nat)
    returns (r: Result<seq<Value>, Error>)
    ensures r == Piece(tx, node, offset, startIndex, stopIndex)
  {
    var lenZip := node.lenList;
    r := Ok([]);
    if startIndex < lenZip as int + offset {
      var temp := CountInIndex(lenZip as int, offset, startIndex, stopIndex);
      if temp.Some? {
        var startIn := temp.value.0;
        var stopIn := temp.value.1;
        var zip :- ValuesOf(tx, node);
        r := Ok(Range(zip, AsI32(Trunc32(startIn)) as int, AsI32(Trunc32(stopIn)) as int));
      }
    }
  }

  /** The walk `lrange` makes from the leftmost node `nodeKey` over the resolved window
      `[startIndex, stopIndex]`, collecting each node's piece until a node's count reaches past
      `stopIndex` or no right neighbour remains. `offset` starts at 0 and is never advanced. */
  method RangeFrom(tx: Store, nodeKey: Key, startIndex: nat, stopIndex: nat, fuel: nat)
    returns (r: Result<seq<Value>, Error>)
    ensures r == RangeAlong(tx, RightWalk(tx, nodeKey, fuel), startIndex, stopIndex)
  {
    ghost var w := RightWalk(tx, nodeKey, fuel);
    ghost var sizes := Sizes(w.nodes);
    ReadFirst(tx, nodeKey, fuel);
    var first := ReadNode(tx, nodeKey);
    if first.Err? {
      RangeAlongEmpty(tx, w, startIndex, stopIndex);
      return Err(first.error);
    }
    var node := first.value;
    var offset: nat := 0;
    var result: seq<Value> := [];
    var hops: nat := 0;
    assert w.nodes[..0] == [];
    while true
      invariant hops < |w.nodes| && node == w.nodes[hops]
      invariant offset == 0
      invariant Gather(tx, w.nodes[..hops], startIndex, stopIndex) == Ok(result)
      invariant FirstAboveFrom(sizes, stopIndex, hops) == FirstAbove(sizes, stopIndex)
      decreases fuel - hops
    {
      GatherNext(tx, w.nodes, hops, startIndex, stopIndex);
      var one := PieceOf(tx, node, offset, startIndex, stopIndex);
      if one.Err? {
        RangeAlongFails(tx, w, startIndex, stopIndex, hops);
        return Err(one.error);
      }
      result := result + one.value;
      var lenZip := node.lenList;
      if stopIndex < lenZip as int + offset {
        RangeAlongStops(tx, w, startIndex, stopIndex, hops);
        break;
      }
      FollowWalk(tx, nodeKey, fuel, hops);
      if node.right.None? {
        RangeAlongEnds(tx, w, startIndex, stopIndex, hops);
        break;
      }
      var next := Follow(tx, node, hops, fuel);
      if next.Err? {
        RangeAlongBreaks(tx, w, startIndex, stopIndex, hops, result);
        return Err(next.error);
      }
      AbovePass(sizes, stopIndex, hops);
      node := next.value;
      hops := hops + 1;
    }
    r := Ok(result);
  }

  /** The end of the list a pop takes from. */
  datatype Side = Front | Back

  /** A command's answer and the store after it: a command that fails drops its transaction,
      so the store is left as it was. */
  function Commit<T>(db: Store, res: Result<(T, Store), Error>): (out: (Result<T, Error>, Store))
    ensures res.Err? ==> out == (Err(res.error), db)
    ensures res.Ok? ==> out == (Ok(res.value.0), res.value.1)
  {
    match res
    case Err(e) => (Err(e), db)
    case Ok((v, db')) => (Ok(v), db')
  }

  /** What `lpop` (`Front`) and `rpop` (`Back`) do: take the end element of the end node's
      block. A block left non-empty is written back with its node's counts updated, and nothing
      else is written. A block left empty is deleted with its node; the head is then rewritten,
      emptied when it counted one node, and otherwise with its `right` set to the node's `left`
      and both counts one lower. */
  function PopSpec(db: Store, key: Key, side: Side): (r: Result<(Value, Store), Error>)
    ensures key !in db ==> r == Err(NotFind)
    ensures r.Ok? ==> r.value.1.Keys <= db.Keys
    ensures r.Ok? ==> key in r.value.1 && r.value.1[key].HeadRecord?
  {
    match HeadAt(db, key)
    case Err(e) => Err(e)
    case Ok(None) => Err(NotFind)
    case Ok(Some(quick)) =>
      var nodeKey :- OkOr(if side == Front then quick.left else quick.right, NoneError);
      var node :- ReadNode(db, nodeKey);
      var zip :- ValuesOf(db, node);
      var zipKey := node.valuesKey.value;
      var (value, rest) := if side == Front then PopLeft(zip) else PopRight(zip);
      if rest == [] then
        var head := if quick.lenNode == 1 then Head(None, None, 0, 0)
                    else quick.(right := node.left, lenNode := Sub32(quick.lenNode, 1),
                                lenList := Sub32(quick.lenList, 1));
        Ok((value, (db - {zipKey} - {nodeKey})[key := HeadRecord(head)]))
      else
        var node' := node.(lenList := Trunc32(|rest|), lenBytes := Trunc32(EncodedSize(rest)));
        Ok((value, db[zipKey := BlockRecord(rest)][nodeKey := NodeRecord(node')]))
  }

  /** The state `lrem` carries from node to node: the transaction, the head as it has been
      edited so far, and the number of elements removed. */
  datatype RemState = RemState(tx: Store, quick: Head, removed: nat)

  /** One node of the `lrem` walk: remove from the node's block as many copies of `value` as the
      budget `c` still allows. Nothing is written when none is removed. A block left non-empty is
      written back with its node's counts. A block left empty is deleted, and the neighbours are
      patched as the four cases of the source do: with neither neighbour the node and the list
      key are deleted; with only a left one the node is deleted and the left node, its right link
      cleared, is written under the list key; with both the node is deleted, the left node gets
      the right key as its right link and the right node gets the left key as its right link;
      with only a right one nothing more is written and the head's `left` is set to it. */
  function RemStep(st: RemState, listKey: Key, nodeKey: Key, node: Node, c: nat, value: Value)
    : (r: Result<RemState, Error>)
    requires st.removed <= c
    ensures r.Ok? ==> st.removed <= r.value.removed <= c
    ensures r.Ok? && r.value.removed == st.removed ==> r.value == st
    ensures r.Ok? ==> r.value.quick == st.quick.(left := r.value.quick.left)
  {
    var zip :- ValuesOf(st.tx, node);
    var zipKey := node.valuesKey.value;
    var (rest, done) := Rem(zip, c - st.removed, value);
    RemCounts(zip, c - st.removed, value);
    var removed := st.removed + done;
    if done == 0 then Ok(st)
    else if rest == [] then
      var tx := st.tx - {zipKey};
      match (node.left, node.right)
      case (None, None) =>
        Ok(RemState(tx - {nodeKey} - {listKey}, st.quick, removed))
      case (Some(leftKey), None) =>
        var leftNode :- ReadNode(tx, leftKey);
        Ok(RemState((tx - {nodeKey})[listKey := NodeRecord(leftNode.(right := None))], st.quick, removed))
      case (Some(leftKey), Some(rightKey)) =>
        var leftNode :- ReadNode(tx, leftKey);
        var rightNode :- ReadNode(tx, rightKey);
        Ok(RemState((tx - {nodeKey})[leftKey := NodeRecord(leftNode.(right := Some(rightKey)))]
                                    [rightKey := NodeRecord(rightNode.(right := Some(leftKey)))],
                    st.quick, removed))
      case (None, Some(rightKey)) =>
        var rightNode :- ReadNode(tx, rightKey);
        Ok(RemState(tx, st.quick.(left := Some(rightKey)), removed))
    else
      var node' := node.(lenList := Trunc32(|rest|), lenBytes := Trunc32(EncodedSize(rest)));
      Ok(RemState(st.tx[zipKey := BlockRecord(rest)][nodeKey := NodeRecord(node')], st.quick, removed))
  }

  /** The `lrem` walk from node `nodeKey` on, `hops` of at most `fuel` right hops taken so far:
      after each node it stops once `c` elements are removed or the node (as read before the
      step) has no right neighbour, and otherwise reads the right neighbour from the
      transaction. It answers the final state and the last node it read. */
  function RemWalk(st: RemState, listKey: Key, nodeKey: Key, node: Node, c: nat, value: Value,
                   hops: nat, fuel: nat): (r: Result<(RemState, Node), Error>)
    requires st.removed <= c && hops <= fuel
    ensures r.Ok? ==> st.removed <= r.value.0.removed <= c
    ensures r.Ok? ==> r.value.0.removed == c || r.value.1.right.None?
    ensures r.Ok? && r.value.0.removed == st.removed ==> r.value.0 == st
    ensures r.Ok? ==> r.value.0.quick == st.quick.(left := r.value.0.quick.left)
    decreases fuel - hops
  {
    var st' :- RemStep(st, listKey, nodeKey, node, c, value);
    if st'.removed == c || node.right.None? then Ok((st', node))
    else if hops == fuel then Err(OutOfFuel)
    else
      var next :- ReadNode(st'.tx, node.right.value);
      RemWalk(st', listKey, node.right.value, next, c, value, hops + 1, fuel)
  }

  /** What `lrem` does: 0 and no write for an absent list or a `count` that is not positive;
      otherwise the walk from the leftmost node with budget `count`, and, when it removed
      something, the head written back with its count lowered by that many. */
  function LremSpec(db: Store, listKey: Key, count: i32, value: Value, fuel: nat)
    : (r: Result<(u32, Store), Error>)
    ensures listKey !in db ==> r == Ok((0, db))
    ensures count <= 0 && r.Ok? ==> r.value == (0, db)
    ensures r.Ok? ==> r.value.0 as int <= Max(count as int, 0)
    ensures r.Ok? && r.value.0 == 0 ==> r.value.1 == db
    ensures r.Ok? && r.value.0 > 0 ==>
              && listKey in db && db[listKey].HeadRecord?
              && listKey in r.value.1 && r.value.1[listKey].HeadRecord?
              && var h := db[listKey].head;
                 r.value.1[listKey].head == h.(left := r.value.1[listKey].head.left,
                                               lenList := Sub32(h.lenList, r.value.0))
  {
    var found :- HeadAt(db, listKey);
    if found.None? || count <= 0 then Ok((0, db))
    else
      var quick := found.value;
      var nodeKey :- OkOr(quick.left, NoneError);
      var node :- ReadNode(db, nodeKey);
      var (st, last) :- RemWalk(RemState(db, quick, 0), listKey, nodeKey, node, count as int, value, 0, fuel);
      if st.removed == 0 then Ok((0, st.tx))
      else
        var n := st.removed as u32;
        Ok((n, st.tx[listKey := HeadRecord(st.quick.(lenList := Sub32(st.quick.lenList, n)))]))
  }

  /** One node of the `lrem` walk, done by puts and deletes on the transaction. */
  method RemAt(st: RemState, listKey: Key, nodeKey: Key, node: Node, c: nat, value: Value)
    returns (r: Result<RemState, Error>)
    requires st.removed <= c
    ensures r == RemStep(st, listKey, nodeKey, node, c, value)
  {
    var tx := st.tx;
    var quick := st.quick;
    var zipKey :- OkOr(node.valuesKey, NoneError);
    var zipFound :- BlockAt(tx, zipKey);
    var zip :- OkOr(zipFound, NoneError);
    var done;
    zip, done := Rem(zip, c - st.removed, value).0, Rem(zip, c - st.removed, value).1;
    if done != 0 {
      if |zip| == 0 {
        tx := tx - {zipKey};
        match (node.left, node.right)
        case (None, None) => {
          tx := tx - {nodeKey};
          tx := tx - {listKey};
        }
        case (Some(leftKey), None) => {
          var leftNode :- ReadNode(tx, leftKey);
          leftNode := leftNode.(right := None);
          tx := tx - {nodeKey};
          tx := tx[listKey := NodeRecord(leftNode)];
        }
        case (Some(leftKey), Some(rightKey)) => {
          var leftNode :- ReadNode(tx, leftKey);
          var rightNode :- ReadNode(tx, rightKey);
          leftNode := leftNode.(right := Some(rightKey));
          rightNode := rightNode.(right := Some(leftKey));
          tx := tx - {nodeKey};
          tx := tx[leftKey := NodeRecord(leftNode)];
          tx := tx[rightKey := NodeRecord(rightNode)];
        }
        case (None, Some(rightKey)) => {
          var rightNode :- ReadNode(tx, rightKey);
          // The right node's cleared left link is never written back.
          rightNode := rightNode.(left := None);
          quick := quick.(left := Some(rightKey));
        }
      } else {
        var node' := node.(lenList := Trunc32(|zip|));
        node' := node'.(lenBytes := Trunc32(EncodedSize(zip)));
        tx := tx[zipKey := BlockRecord(zip)];
        tx := tx[nodeKey := NodeRecord(node')];
      }
    }
    r := Ok(RemState(tx, quick, st.removed + done));
  }

  /** The `lrem` loop from node `nodeKey` on, with at most `fuel` right hops. */
  method RemFrom(st: RemState, listKey: Key, nodeKey: Key, node: Node, c: nat, value: Value, fuel: nat)
    returns (r: Result<(RemState, Node), Error>)
    requires st.removed <= c
    ensures r == RemWalk(st, listKey, nodeKey, node, c, value, 0, fuel)
  {
    var cur, curKey, curNode, hops := st, nodeKey, node, 0;
    while true
      invariant cur.removed <= c && hops <= fuel
      invariant RemWalk(cur, listKey, curKey, curNode, c, value, hops, fuel)
                == RemWalk(st, listKey, nodeKey, node, c, value, 0, fuel)
      decreases fuel - hops
    {
      var step := RemAt(cur, listKey, curKey, curNode, c, value);
      if step.Err? {
        return Err(step.error);
      }
      cur := step.value;
      if cur.removed == c {
        return Ok((cur, curNode));
      }
      if curNode.right.None? {
        return Ok((cur, curNode));
      }
      if hops == fuel {
        return Err(OutOfFuel);
      }
      curKey := curNode.right.value;
      var next := ReadNode(cur.tx, curKey);
      if next.Err? {
        return Err(next.error);
      }
      curNode := next.value;
      hops := hops + 1;
    }
  }

  /** `QuickList::lpush`/`rpush` applied to a transaction, the stored head, the list key and a
      value: their bodies are not part of this model, so they are parameters. */
  type PushOp = (Store, Head, Key, Value) -> Result<(i32, Store), Error>

  /** `QuickList::list_insert` applied to a transaction, the stored head, the list key, the pivot,
      the value, and the side of the pivot to insert on (`Front` for `insert_value_left`). */
  type InsertOp = (Store, Head, Key, Value, Value, Side) -> Result<(i32, Store), Error>

  /** The guard of `lpush_exists`, `rpush_exists`, `linsert_before` and `linsert_after`: an
      absent list answers 0 and writes nothing, an unreadable head fails, and otherwise `op` runs
      on the stored head. */
  function ExistsSpec(db: Store, key: Key, op: (Store, Head) -> Result<(i32, Store), Error>)
    : (r: Result<(i32, Store), Error>)
    ensures key !in db ==> r == Ok((0, db))
    ensures key in db && !db[key].HeadRecord? ==> r == Err(Decode)
    ensures r.Ok? && r.value.0 != 0 ==> key in db && db[key].HeadRecord?
  {
    match HeadAt(db, key)
    case Err(e) => Err(e)
    case Ok(None) => Ok((0, db))
    case Ok(Some(quick)) => op(db, quick)
  }

  class RedisRocksdb {
    /** The backing key-value store. */
    var db: Store

    constructor (initial: Store)
      ensures db == initial
    {
      db := initial;
    }

    /** `lindex`. */
    method Lindex(key: Key, index: i32, fuel: nat) returns (r: Result<Value, Error>)
      ensures r == LindexSpec(db, key, index, fuel)
    {
      var found :- HeadAt(db, key);
      if found.None? {
        return Err(NotFind);
      }
      var t := found.value;
      if index >= AsI32(t.lenList) {
        return Err(NotFind);
      }
      var nodeKey :- OkOr(t.left, NoneError);
      assert LindexSpec(db, key, index, fuel) == IndexAlong(db, RightWalk(db, nodeKey, fuel), index as int);
      r := IndexFrom(db, nodeKey, index, fuel);
    }

    /** `llen`: -1 for an absent list, otherwise the head's count read as an i32, which on a
        list in good order whose length fits an i32 is the number of its elements. */
    method Llen(key: Key) returns (r: Result<i32, Error>)
      ensures key !in db ==> r == Ok(-1)
      ensures key in db && db[key].HeadRecord? ==> r == Ok(AsI32(db[key].head.lenList))
      ensures key in db && !db[key].HeadRecord? ==> r == Err(Decode)
      ensures forall fuel: nat :: Linked(db, key, fuel) && Counted(db, key, fuel) && |Elements(db, key, fuel)| <= I32_MAX
                ==> r.Ok? && r.value as int == |Elements(db, key, fuel)|
    {
      var found :- HeadAt(db, key);
      match found
      case None => r := Ok(-1);
      case Some(quick) => r := Ok(AsI32(quick.lenList));
    }

    /** `lrange`. */
    method Lrange(key: Key, start: i32, stop: i32, fuel: nat) returns (r: Result<seq<Value>, Error>)
      ensures r == LrangeSpec(db, key, start, stop, fuel)
    {
      var found :- HeadAt(db, key);
      if found.None? {
        return Ok([]);
      }
      var quick := found.value;
      if quick.lenList < 1 {
        return Ok([]);
      }
      var startIndex := AsUsize(CountIndex(AsI32(quick.lenList), start));
      var stopIndex := AsUsize(CountIndex(AsI32(quick.lenList), stop));
      if startIndex > stopIndex {
        return Ok([]);
      }
      var tx := db;
      var nodeKey :- OkOr(quick.left, NoneError);
      r := RangeFrom(tx, nodeKey, startIndex, stopIndex, fuel);
    }

    /** `lpop`. */
    method Lpop(listKey: Key) returns (r: Result<Value, Error>)
      modifies this
      ensures (r, db) == Commit(old(db), PopSpec(old(db), listKey, Front))
    {
      r := Pop(listKey, Front);
    }

    /** `rpop`. */
    method Rpop(listKey: Key) returns (r: Result<Value, Error>)
      modifies this
      ensures (r, db) == Commit(old(db), PopSpec(old(db), listKey, Back))
    {
      r := Pop(listKey, Back);
    }

    /** The body `lpop` and `rpop` share: they differ only in the end of the head and of the
        block they take from. */
    method Pop(listKey: Key, side: Side) returns (r: Result<Value, Error>)
      modifies this
      ensures (r, db) == Commit(old(db), PopSpec(old(db), listKey, side))
    {
      var tx := db;
      var found :- HeadAt(db, listKey);
      if found.None? {
        return Err(NotFind);
      }
      var quick := found.value;
      var nodeKey :- OkOr(if side == Front then quick.left else quick.right, NoneError);
      var node :- ReadNode(tx, nodeKey);
      var zipKey :- OkOr(node.valuesKey, NoneError);
      var zipFound :- BlockAt(tx, zipKey);
      var zip :- OkOr(zipFound, NoneError);
      var value;
      if side == Front {
        value, zip := PopLeft(zip).0, PopLeft(zip).1;
      } else {
        value, zip := PopRight(zip).0, PopRight(zip).1;
      }
      if |zip| == 0 {
        if quick.lenNode == 1 {
          tx := tx - {zipKey};
          tx := tx - {nodeKey};
          quick := quick.(right := None);
          quick := quick.(left := None);
          quick := quick.(lenList := 0);
          quick := quick.(lenNode := 0);
          tx := tx[listKey := HeadRecord(quick)];
        } else {
          quick := quick.(right := node.left);
          quick := quick.(lenNode := Sub32(quick.lenNode, 1));
          quick := quick.(lenList := Sub32(quick.lenList, 1));
          tx := tx - {zipKey};
          tx := tx - {nodeKey};
          tx := tx[listKey := HeadRecord(quick)];
        }
      } else {
        node := node.(lenList := Trunc32(|zip|));
        node := node.(lenBytes := Trunc32(EncodedSize(zip)));
        // The head's count is lowered here but the head is not written back.
        quick := quick.(lenList := Sub32(quick.lenList, 1));
        tx := tx[zipKey := BlockRecord(zip)];
        tx := tx[nodeKey := NodeRecord(node)];
      }
      db := tx;
      r := Ok(value);
    }

    /** `lrem` with a positive `count` removes up to `count` copies of `value`, leftmost first,
        walking right from the leftmost node; the other directions are empty branches. */
    method Lrem(listKey: Key, count: i32, value: Value, fuel: nat) returns (r: Result<u32, Error>)
      modifies this
      ensures (r, db) == Commit(old(db), LremSpec(old(db), listKey, count, value, fuel))
    {
      var found :- HeadAt(db, listKey);
      if found.None? {
        return Ok(0);
      }
      var quick := found.value;
      var remCount: u32 := 0;
      var tx := db;
      if count > 0 {
        var c := count as int;
        var nodeKey :- OkOr(quick.left, NoneError);
        var node :- ReadNode(tx, nodeKey);
        var walked :- RemFrom(RemState(tx, quick, 0), listKey, nodeKey, node, c, value, fuel);
        tx, quick, remCount := walked.0.tx, walked.0.quick, walked.0.removed as u32;
      }
      if remCount > 0 {
        quick := quick.(lenList := Sub32(quick.lenList, remCount));
        tx := tx[listKey := HeadRecord(quick)];
      }
      db := tx;
      r := Ok(remCount);
    }

    /** `lpush_exists`: push on the left only onto a list that exists. */
    method LpushExists(listKey: Key, value: Value, push: PushOp) returns (r: Result<i32, Error>)
      modifies this
      ensures (r, db) == Commit(old(db), ExistsSpec(old(db), listKey, (tx, h) => push(tx, h, listKey, value)))
    {
      r := Guarded(listKey, (tx, h) => push(tx, h, listKey, value));
    }

    /** `rpush_exists`: push on the right only onto a list that exists. */
    method RpushExists(listKey: Key, value: Value, push: PushOp) returns (r: Result<i32, Error>)
      modifies this
      ensures (r, db) == Commit(old(db), ExistsSpec(old(db), listKey, (tx, h) => push(tx, h, listKey, value)))
    {
      r := Guarded(listKey, (tx, h) => push(tx, h, listKey, value));
    }

    /** `linsert_before`: insert to the left of `pivot` in a list that exists. */
    method LinsertBefore(key: Key, pivot: Value, value: Value, insert: InsertOp) returns (r: Result<i32, Error>)
      modifies this
      ensures (r, db) == Commit(old(db), ExistsSpec(old(db), key, (tx, h) => insert(tx, h, key, pivot, value, Front)))
    {
      r := Guarded(key, (tx, h) => insert(tx, h, key, pivot, value, Front));
    }

    /** `linsert_after`: insert to the right of `pivot` in a list that exists. */
    method LinsertAfter(key: Key, pivot: Value, value: Value, insert: InsertOp) returns (r: Result<i32, Error>)
      modifies this
      ensures (r, db) == Commit(old(db), ExistsSpec(old(db), key, (tx, h) => insert(tx, h, key, pivot, value, Back)))
    {
      r := Guarded(key, (tx, h) => insert(tx, h, key, pivot, value, Back));
    }

    /** The body the four guarded commands share: read the head, answer 0 when it is absent,
        otherwise run `op` in a transaction and commit what it wrote. */
    method Guarded(key: Key, op: (Store, Head) -> Result<(i32, Store), Error>) returns (r: Result<i32, Error>)
      modifies this
      ensures (r, db) == Commit(old(db), ExistsSpec(old(db), key, op))
    {
      var found :- HeadAt(db, key);
      if found.None? {
        return Ok(0);
      }
      var quick := found.value;
      var tx := db;
      var result :- op(tx, quick);
      db := result.1;
      r := Ok(result.0);
    }
  }
}
