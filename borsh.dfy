/**
 * The Borsh framing that Anchor programs use on the wire: u32 little-endian
 * length and count prefixes, u64 little-endian integers, and the cursor
 * reads the front-end performs over a Buffer (`readUInt32LE`, which throws
 * past the end, and clamping slices, which do not).
 */
module Borsh {
  import opened Wrappers
  import opened Bytes

  /** A u32 little-endian length followed by the bytes themselves. */
  function LengthPrefixed(s: seq<byte>): (r: seq<byte>)
    requires |s| < U32_LIMIT
    ensures |r| == 4 + |s| && r[4..] == s
  {
    LeBytes(|s|, 4) + s
  }

  /** Every item length-prefixed, in order (the elements of a Borsh `Vec<String>` after its count). */
  function PrefixedItems(items: seq<seq<byte>>): (r: seq<byte>)
    requires forall i :: 0 <= i < |items| ==> |items[i]| < U32_LIMIT
    ensures |r| >= 4 * |items|
  {
    if items == [] then []
    else PrefixedItems(items[..|items| - 1]) + LengthPrefixed(items[|items| - 1])
  }

  /** Each value as 8 little-endian bytes, in order (the elements of a Borsh `Vec<u64>` after its count). */
  function U64Items(values: seq<nat>): (r: seq<byte>)
    ensures |r| == 8 * |values|
  {
    if values == [] then []
    else U64Items(values[..|values| - 1]) + LeBytes(values[|values| - 1], 8)
  }

  /** `readUInt32LE(off)`: the u32 at off, or a RangeError (None) when fewer than four bytes remain. */
  function ReadU32(data: seq<byte>, off: nat): (r: Option<nat>)
    ensures r.Some? <==> off + 4 <= |data|
    ensures r.Some? ==> r.value < U32_LIMIT
  {
    if off + 4 <= |data| then
      Pow256Constants();
      Some(LeValue(data[off..off + 4]))
    else None
  }

  /**
   * A u32 length at off, then that many bytes taken by a clamping slice.
   * Only the length read can fail; the cursor moves past the DECLARED
   * length whether or not that many bytes are there.
   */
  function ReadPrefixed(data: seq<byte>, off: nat): (r: Option<(seq<byte>, nat)>)
    ensures r.Some? <==> off + 4 <= |data|
  {
    match ReadU32(data, off)
    case None => None
    case Some(n) => Some((Slice(data, off + 4, off + 4 + n), off + 4 + n))
  }

  /** count length-prefixed items read one after the other from off, or None once a length read fails. */
  function ReadPrefixedItems(data: seq<byte>, off: nat, count: nat): (r: Option<(seq<seq<byte>>, nat)>)
    ensures r.Some? ==> |r.value.0| == count && r.value.1 >= off + 4 * count
  {
    if count == 0 then Some(([], off))
    else match ReadPrefixedItems(data, off, count - 1)
      case None => None
      case Some((items, next)) =>
        match ReadPrefixed(data, next)
        case None => None
        case Some((item, after)) => Some((items + [item], after))
  }

  /** A failure part-way through a run of reads is a failure of every longer run. */
  lemma {:induction false} ReadPrefixedItemsFailureStays(data: seq<byte>, off: nat, k: nat, count: nat)
    requires k <= count && ReadPrefixedItems(data, off, k) == None
    ensures ReadPrefixedItems(data, off, count) == None
    decreases count
  {
    if count > k {
      ReadPrefixedItemsFailureStays(data, off, k, count - 1);
    }
  }

  /** A string read failing after k successful reads makes the whole run of count reads fail. */
  lemma ReadPrefixedItemsStops(data: seq<byte>, off: nat, k: nat, items: seq<seq<byte>>, next: nat, count: nat)
    requires k < count
    requires ReadPrefixedItems(data, off, k) == Some((items, next)) && ReadPrefixed(data, next).None?
    ensures ReadPrefixedItems(data, off, count) == None
  {
    assert ReadPrefixedItems(data, off, k + 1) == None;
    ReadPrefixedItemsFailureStays(data, off, k + 1, count);
  }

  /** `new BN(data.slice(off, off + 8), "le")`: never fails; bytes past the end are simply missing. */
  function U64At(data: seq<byte>, off: nat): (r: nat)
    ensures r < U64_LIMIT
  {
    Pow256Constants();
    LeValue(Slice(data, off, off + 8))
  }

  /** count u64 values read one after the other from off. */
  function ReadU64Items(data: seq<byte>, off: nat, count: nat): (r: seq<nat>)
    ensures |r| == count
  {
    if count == 0 then [] else ReadU64Items(data, off, count - 1) + [U64At(data, off + 8 * (count - 1))]
  }

  /** The i-th value of a run is the u64 eight bytes times i along. */
  lemma {:induction false} ReadU64ItemAt(data: seq<byte>, off: nat, count: nat, i: nat)
    requires i < count
    ensures ReadU64Items(data, off, count)[i] == U64At(data, off + 8 * i)
    decreases count
  {
    if i < count - 1 {
      ReadU64ItemAt(data, off, count - 1, i);
    }
  }

  /** A Borsh `Vec<String>`: a u32 count, that many length-prefixed strings, and where they end. */
  function ReadStringVec(data: seq<byte>, off: nat): Option<(seq<seq<byte>>, nat)>
  {
    match ReadU32(data, off)
    case None => None
    case Some(count) => ReadPrefixedItems(data, off + 4, count)
  }

  /** The vector read once its count and its strings have been read. */
  lemma ReadStringVecOf(data: seq<byte>, off: nat, items: seq<seq<byte>>, end: nat)
    requires ReadU32(data, off) == Some(|items|)
    requires ReadPrefixedItems(data, off + 4, |items|) == Some((items, end))
    ensures ReadStringVec(data, off) == Some((items, end))
  {
  }

  /** Reading a u32 where its 4 little-endian bytes were written gives it back. */
  lemma ReadU32Framed(pre: seq<byte>, n: nat, post: seq<byte>)
    requires n < U32_LIMIT
    ensures ReadU32(pre + LeBytes(n, 4) + post, |pre|) == Some(n)
  {
    var data := pre + LeBytes(n, 4) + post;
    assert data[|pre|..|pre| + 4] == LeBytes(n, 4);
    Pow256Constants();
    LeValueOfLeBytes(n, 4);
  }

  /** Reading a length-prefixed item where it was written gives the item back and moves past it. */
  lemma ReadPrefixedFramed(pre: seq<byte>, s: seq<byte>, post: seq<byte>)
    requires |s| < U32_LIMIT
    ensures ReadPrefixed(pre + LengthPrefixed(s) + post, |pre|) == Some((s, |pre| + 4 + |s|))
  {
    var data := pre + LengthPrefixed(s) + post;
    assert data[|pre|..|pre| + 4] == LeBytes(|s|, 4);
    Pow256Constants();
    LeValueOfLeBytes(|s|, 4);
    assert data[|pre| + 4..|pre| + 4 + |s|] == s;
  }

  /** Reading a run of length-prefixed items where they were written gives them back. */
  lemma {:induction false} ReadPrefixedItemsFramed(pre: seq<byte>, items: seq<seq<byte>>, post: seq<byte>)
    requires forall i :: 0 <= i < |items| ==> |items[i]| < U32_LIMIT
    ensures ReadPrefixedItems(pre + PrefixedItems(items) + post, |pre|, |items|)
            == Some((items, |pre| + |PrefixedItems(items)|))
    decreases |items|, 1
  {
    if items != [] {
      var init, last := items[..|items| - 1], items[|items| - 1];
      assert items == init + [last];
      ReadPrefixedItemsSnoc(pre, init, last, post);
    }
  }

  /** The inductive step: the run before the last item is read back, then the last item after it. */
  lemma ReadPrefixedItemsSnoc(pre: seq<byte>, init: seq<seq<byte>>, last: seq<byte>, post: seq<byte>)
    requires forall i :: 0 <= i < |init| ==> |init[i]| < U32_LIMIT
    requires |last| < U32_LIMIT
    ensures ReadPrefixedItems(pre + PrefixedItems(init + [last]) + post, |pre|, |init| + 1)
            == Some((init + [last], |pre| + |PrefixedItems(init + [last])|))
    decreases |init| + 1, 0
  {
    var front := pre + PrefixedItems(init);
    var data := pre + PrefixedItems(init + [last]) + post;
    assert data == pre + PrefixedItems(init) + (LengthPrefixed(last) + post)
           && data == front + LengthPrefixed(last) + post
           && |PrefixedItems(init + [last])| == |PrefixedItems(init)| + 4 + |last| by {
      PrefixedItemsSnoc(pre, init, last, post);
    }
    ReadPrefixedItemsFramed(pre, init, LengthPrefixed(last) + post);
    ReadPrefixedFramed(front, last, post);
    ReadPrefixedItemsStep(data, |pre|, |init|, init, |front|, last, |front| + 4 + |last|);
  }

  /** A run of prefixed items with one more item is the shorter run followed by that item. */
  lemma PrefixedItemsSnoc(pre: seq<byte>, init: seq<seq<byte>>, last: seq<byte>, post: seq<byte>)
    requires forall i :: 0 <= i < |init| ==> |init[i]| < U32_LIMIT
    requires |last| < U32_LIMIT
    ensures pre + PrefixedItems(init + [last]) + post == pre + PrefixedItems(init) + (LengthPrefixed(last) + post)
    ensures pre + PrefixedItems(init + [last]) + post == (pre + PrefixedItems(init)) + LengthPrefixed(last) + post
    ensures |PrefixedItems(init + [last])| == |PrefixedItems(init)| + 4 + |last|
  {
    assert (init + [last])[..|init|] == init;
    assert PrefixedItems(init + [last]) == PrefixedItems(init) + LengthPrefixed(last);
    Regroup(pre, PrefixedItems(init), LengthPrefixed(last), post);
  }

  /** One more successful string read extends a run of reads by that string. */
  lemma ReadPrefixedItemsStep(data: seq<byte>, off: nat, k: nat, items: seq<seq<byte>>, next: nat,
                              item: seq<byte>, after: nat)
    requires ReadPrefixedItems(data, off, k) == Some((items, next))
    requires ReadPrefixed(data, next) == Some((item, after))
    ensures ReadPrefixedItems(data, off, k + 1) == Some((items + [item], after))
  {
  }

  /** The two ways of grouping a framed field's surroundings name the same buffer. */
  lemma Regroup<T>(pre: seq<T>, a: seq<T>, b: seq<T>, post: seq<T>)
    ensures pre + (a + b) + post == pre + a + (b + post)
    ensures pre + (a + b) + post == (pre + a) + b + post
  {
  }

  /** A buffer followed by nothing is the buffer itself. */
  lemma Unpadded<T>(s: seq<T>)
    ensures s + [] == s
  {
  }

  /** Reading a u64 where 8 little-endian bytes of it were written gives it back. */
  lemma U64AtFramed(pre: seq<byte>, v: nat, post: seq<byte>)
    requires v < U64_LIMIT
    ensures U64At(pre + LeBytes(v, 8) + post, |pre|) == v
  {
    var data := pre + LeBytes(v, 8) + post;
    assert data[|pre|..|pre| + 8] == LeBytes(v, 8);
    Pow256Constants();
    LeValueOfLeBytes(v, 8);
  }

  /** Reading a run of u64 values where they were written gives them back. */
  lemma {:induction false} ReadU64ItemsFramed(pre: seq<byte>, values: seq<nat>, post: seq<byte>)
    requires forall i :: 0 <= i < |values| ==> values[i] < U64_LIMIT
    ensures ReadU64Items(pre + U64Items(values) + post, |pre|, |values|) == values
    decreases |values|, 1
  {
    if values != [] {
      var init, last := values[..|values| - 1], values[|values| - 1];
      assert values == init + [last];
      ReadU64ItemsSnoc(pre, init, last, post);
    }
  }

  /** The inductive step: the values before the last are read back, then the last one after them. */
  lemma ReadU64ItemsSnoc(pre: seq<byte>, init: seq<nat>, last: nat, post: seq<byte>)
    requires forall i :: 0 <= i < |init| ==> init[i] < U64_LIMIT
    requires last < U64_LIMIT
    ensures ReadU64Items(pre + U64Items(init + [last]) + post, |pre|, |init| + 1) == init + [last]
    decreases |init| + 1, 0
  {
    var front := pre + U64Items(init);
    var data := pre + U64Items(init + [last]) + post;
    assert data == pre + U64Items(init) + (LeBytes(last, 8) + post)
           && data == front + LeBytes(last, 8) + post by {
      assert (init + [last])[..|init|] == init;
      assert U64Items(init + [last]) == U64Items(init) + LeBytes(last, 8);
      Regroup(pre, U64Items(init), LeBytes(last, 8), post);
    }
    assert ReadU64Items(data, |pre|, |init|) == init by {
      ReadU64ItemsFramed(pre, init, LeBytes(last, 8) + post);
    }
    assert U64At(data, |pre| + 8 * |init|) == last by {
      U64AtFramed(front, last, post);
    }
  }
}
