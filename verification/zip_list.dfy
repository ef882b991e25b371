/** The packed block (`ZipList`) of one list node, seen through the operations the list commands
    use. The block's byte encoding is not part of this model: a block is its sequence of
    elements, and its encoded length is a stand-in size function. */
module ZipList {
  import opened Wrappers
  import opened Width

  newtype byte = x: int | 0 <= x < 256

  /** One list element: an opaque byte string. */
  type Value = seq<byte>

  /** The elements of one block, left to right. */
  type Block = seq<Value>

  /** `pop_left`: the leftmost element and the block without it. The source returns a plain
      value, not an option; popping an empty block yields an empty value and leaves it empty. */
  function PopLeft(b: Block): (r: (Value, Block))
    ensures b != [] ==> [r.0] + r.1 == b
    ensures b == [] ==> r.1 == []
  {
    if b == [] then ([], []) else (b[0], b[1..])
  }

  /** `pop_right`: the rightmost element and the block without it. */
  function PopRight(b: Block): (r: (Value, Block))
    ensures b != [] ==> r.1 + [r.0] == b
    ensures b == [] ==> r.1 == []
  {
    if b == [] then ([], []) else (b[|b| - 1], b[..|b| - 1])
  }

  /** `index`: the element at a zero-based position of the block, none when out of range. */
  function Index(b: Block, i: int): (r: Option<Value>)
    ensures r.Some? <==> 0 <= i < |b|
    ensures r.Some? ==> r.value == b[i]
  {
    if 0 <= i < |b| then Some(b[i]) else None
  }

  /** `range`: the inclusive slice `[start, stop]` of the block. Its callers keep both bounds
      inside the block; outside them only the positions that exist are returned. */
  function Range(b: Block, start: int, stop: int): (r: seq<Value>)
    ensures 0 <= start <= stop < |b| ==> r == b[start..stop + 1]
    ensures |r| == Max(0, Min(stop + 1, |b|) - Max(start, 0))
    ensures forall i :: 0 <= i < |r| ==> r[i] == b[Max(start, 0) + i]
  {
    var lo := Max(start, 0);
    var hi := Min(stop + 1, |b|);
    if lo < hi then b[lo..hi] else []
  }

  /** Number of elements of `b` equal to `v`. */
  function Count(b: Block, v: Value): nat
  {
    if b == [] then 0 else (if b[0] == v then 1 else 0) + Count(b[1..], v)
  }

  /** The elements of `b` other than `v`, in order. */
  function Without(b: Block, v: Value): seq<Value>
  {
    if b == [] then [] else (if b[0] == v then [] else [b[0]]) + Without(b[1..], v)
  }

  /** `rem(limit, v)`: scanning from the left, removes up to `limit` elements equal to `v` and
      says how many it removed. A limit that is not positive removes nothing. */
  function Rem(b: Block, limit: int, v: Value): (res: (Block, nat))
    ensures limit <= 0 ==> res == (b, 0)
  {
    if limit <= 0 || b == [] then (b, 0)
    else if b[0] == v then
      var tail := Rem(b[1..], limit - 1, v);
      (tail.0, tail.1 + 1)
    else
      var tail := Rem(b[1..], limit, v);
      ([b[0]] + tail.0, tail.1)
  }

  /** `Rem` removes as many matches as the budget allows and no other element: the count is
      the smaller of the budget and the number of matches, and that many matches are gone. */
  lemma {:induction false} RemCounts(b: Block, limit: int, v: Value)
    ensures Rem(b, limit, v).1 == Min(Max(limit, 0), Count(b, v))
    ensures |Rem(b, limit, v).0| + Rem(b, limit, v).1 == |b|
    ensures Count(Rem(b, limit, v).0, v) + Rem(b, limit, v).1 == Count(b, v)
  {
    if limit <= 0 || b == [] {
    } else if b[0] == v {
      RemCounts(b[1..], limit - 1, v);
    } else {
      RemCounts(b[1..], limit, v);
      var t := Rem(b[1..], limit, v).0;
      assert ([b[0]] + t)[0] == b[0] && ([b[0]] + t)[1..] == t;
    }
  }

  /** A `Rem` that removes nothing leaves the block as it was. */
  lemma {:induction false} RemNone(b: Block, limit: int, v: Value)
    requires Rem(b, limit, v).1 == 0
    ensures Rem(b, limit, v).0 == b
  {
    if limit <= 0 || b == [] {
    } else if b[0] == v {
    } else {
      RemNone(b[1..], limit, v);
      assert [b[0]] + b[1..] == b;
    }
  }

  /** Elements other than `v` all survive `Rem`, in their order. */
  lemma {:induction false} RemKeepsOthers(b: Block, limit: int, v: Value)
    ensures Without(Rem(b, limit, v).0, v) == Without(b, v)
  {
    if limit <= 0 || b == [] {
    } else if b[0] == v {
      RemKeepsOthers(b[1..], limit - 1, v);
    } else {
      RemKeepsOthers(b[1..], limit, v);
      var t := Rem(b[1..], limit, v).0;
      assert ([b[0]] + t)[0] == b[0] && ([b[0]] + t)[1..] == t;
    }
  }

  /** Removal over two consecutive blocks is removal from the first, then from the second with
      what is left of the budget: the leftmost matches go first. */
  lemma {:induction false} RemSplit(b: Block, c: Block, limit: int, v: Value)
    ensures Rem(b + c, limit, v).0 == Rem(b, limit, v).0 + Rem(c, limit - Rem(b, limit, v).1, v).0
    ensures Rem(b + c, limit, v).1 == Rem(b, limit, v).1 + Rem(c, limit - Rem(b, limit, v).1, v).1
  {
    if limit <= 0 {
      assert Rem(b, limit, v) == (b, 0);
      assert Rem(c, limit, v) == (c, 0);
    } else if b == [] {
      assert b + c == c;
      assert [] + Rem(c, limit, v).0 == Rem(c, limit, v).0;
    } else {
      var lim' := if b[0] == v then limit - 1 else limit;
      RemSplit(b[1..], c, lim', v);
      var bc := b + c;
      var inner := Rem(b[1..], lim', v);
      var second := Rem(c, lim' - inner.1, v);
      var rest := Rem(b[1..] + c, lim', v);
      var whole := Rem(b, limit, v);
      var joined := Rem(bc, limit, v);
      assert bc[0] == b[0] && bc[1..] == b[1..] + c;
      if b[0] == v {
        assert whole == (inner.0, inner.1 + 1);
        assert joined == (rest.0, rest.1 + 1);
      } else {
        assert whole == ([b[0]] + inner.0, inner.1);
        assert joined == ([b[0]] + rest.0, rest.1);
        assert [b[0]] + (inner.0 + second.0) == ([b[0]] + inner.0) + second.0;
      }
      assert limit - whole.1 == lim' - inner.1;
    }
  }

  const HEADER_BYTES: nat := 4
  const PREFIX_BYTES: nat := 4

  /** Stand-in for the length of the block's encoding (`zip.as_ref().len()`): a header, then per
      element a length prefix and its bytes. */
  function EncodedSize(b: Block): nat
  {
    if b == [] then HEADER_BYTES else EncodedSize(b[..|b| - 1]) + PREFIX_BYTES + |b[|b| - 1]|
  }

  /** `count_index`: Redis's signed index against a length; a negative index counts from the
      tail, so -1 is the last position. The i32 addition wraps as in a release build. */
  function CountIndex(len: i32, index: i32): (r: i32)
    ensures 0 <= index ==> r == index
    ensures index < 0 <= len ==> r as int == len as int + index as int
    ensures 0 <= len && -(len as int) <= index as int < len as int ==> 0 <= r < len
  {
    if index < 0 then WrapAdd32(len, index) else index
  }

  /** Position `offset + q` of the whole list lies in the window `[start, stop]`. */
  predicate InWindow(q: int, offset: int, start: int, stop: int)
  {
    start <= offset + q <= stop
  }

  /** `count_in_index`: a block holding list positions `[offset, offset + lenZip)` meets the
      window `[start, stop]` in the local inclusive range returned, and not at all when none is. */
  function CountInIndex(lenZip: nat, offset: nat, start: nat, stop: nat): (r: Option<(nat, nat)>)
    ensures r.Some? ==> r.value.0 <= r.value.1 < lenZip
    ensures forall q :: 0 <= q < lenZip ==>
              (InWindow(q, offset, start, stop) <==> r.Some? && r.value.0 <= q <= r.value.1)
  {
    if 0 < lenZip && start <= stop && start < offset + lenZip && offset <= stop then
      Some((Max(start, offset) - offset, Min(stop, offset + lenZip - 1) - offset))
    else
      None
  }
}
