/**
  The repository's own key-prefix helper (package subspace): a subspace is
  a raw byte prefix, and its keys are the prefix followed by a packed tuple.
 */
module Subspace {
  import opened Wrappers
  import opened ByteOrder
  import TupleCodec

  datatype Subspace = Subspace(rawPrefix: Bytes)

  /** concat: allocates a slice of the combined length and fills it with two
      copies, `old1` first and `old2` after it. */
  method Concat(old1: Bytes, old2: Bytes) returns (r: Bytes)
    ensures |r| == |old1| + |old2|
    ensures r[..|old1|] == old1 && r[|old1|..] == old2
  {
    var newslice := new byte[|old1| + |old2|];
    var i := 0;
    while i < |old1|
      invariant 0 <= i <= |old1|
      invariant newslice[..i] == old1[..i]
    {
      newslice[i] := old1[i];
      i := i + 1;
    }
    var j := 0;
    while j < |old2|
      invariant 0 <= j <= |old2|
      invariant newslice[..|old1|] == old1
      invariant newslice[|old1|..|old1| + j] == old2[..j]
    {
      newslice[|old1| + j] := old2[j];
      j := j + 1;
    }
    assert old2[..j] == old2;
    r := newslice[..];
    assert r[..|old1|] == newslice[..|old1|];
    assert r[|old1|..] == newslice[|old1|..|old1| + |old2|];
  }

  /** New: the subspace whose prefix is the packed tuple `t`. */
  function New(t: TupleCodec.Tuple): (s: Subspace)
    ensures TupleCodec.Unpack(s.rawPrefix) == Ok(t)
  {
    TupleCodec.UnpackPack(t);
    Subspace(TupleCodec.Pack(t))
  }

  /** WithPrefix: the subspace whose prefix is `prefix` followed by the old one. */
  function WithPrefix(space: Subspace, prefix: Bytes): (s: Subspace)
    ensures HasPrefix(s.rawPrefix, prefix)
    ensures s.rawPrefix[|prefix|..] == space.rawPrefix
  {
    Subspace(prefix + space.rawPrefix)
  }

  /** Pack: the key of tuple `t` in the subspace. */
  function Pack(space: Subspace, t: TupleCodec.Tuple): (k: Bytes)
    ensures HasPrefix(k, space.rawPrefix)
    ensures k[|space.rawPrefix|..] == TupleCodec.Pack(t)
  {
    space.rawPrefix + TupleCodec.Pack(t)
  }

  /** Item: the nested subspace of tuple `t`. */
  function Item(space: Subspace, t: TupleCodec.Tuple): (s: Subspace)
    ensures HasPrefix(s.rawPrefix, space.rawPrefix)
    ensures Unpack(space, s.rawPrefix) == Ok(t)
  {
    UnpackPack(space, t);
    Subspace(Pack(space, t))
  }

  /** Unpack: decodes the key with its first len(RawPrefix) bytes dropped,
      without checking that they are the prefix; a key shorter than the
      prefix is Go's slice-bounds panic. */
  function Unpack(space: Subspace, key: Bytes): Result<TupleCodec.Tuple>
  {
    if |key| < |space.rawPrefix| then Err("slice bounds out of range")
    else TupleCodec.Unpack(key[|space.rawPrefix|..])
  }

  /** Range: the tuple range of `t`, both ends behind the prefix. */
  function Range(space: Subspace, t: TupleCodec.Tuple): (r: KeyRange)
    ensures HasPrefix(r.begin, space.rawPrefix) && HasPrefix(r.end, space.rawPrefix)
    ensures r.begin[|space.rawPrefix|..] == TupleCodec.Range(t).begin
    ensures r.end[|space.rawPrefix|..] == TupleCodec.Range(t).end
  {
    var rang := TupleCodec.Range(t);
    KeyRange(space.rawPrefix + rang.begin, space.rawPrefix + rang.end)
  }

  // ---------------------------------------------------------------------
  // Properties

  /** What Pack writes, Unpack reads back. */
  lemma UnpackPack(space: Subspace, t: TupleCodec.Tuple)
    ensures Unpack(space, Pack(space, t)) == Ok(t)
  {
    var k := Pack(space, t);
    assert k[|space.rawPrefix|..] == TupleCodec.Pack(t);
    TupleCodec.UnpackPack(t);
  }

  /** Unpack does not look at the prefix: the key of `t` behind any other
      prefix of the same length unpacks to `t` as well. */
  lemma UnpackIgnoresPrefix(space: Subspace, other: Bytes, t: TupleCodec.Tuple)
    requires |other| == |space.rawPrefix|
    ensures Unpack(space, other + TupleCodec.Pack(t)) == Ok(t)
  {
    assert (other + TupleCodec.Pack(t))[|space.rawPrefix|..] == TupleCodec.Pack(t);
    TupleCodec.UnpackPack(t);
  }

  /** A subspace made by New(t) packs `u` as the tuple layer packs t + u. */
  lemma NewPack(t: TupleCodec.Tuple, u: TupleCodec.Tuple)
    ensures Pack(New(t), u) == TupleCodec.Pack(t + u)
  {
    TupleCodec.PackAppend(t, u);
  }

  /** Item nests: packing `u` in Item(space, t) is packing t + u in space. */
  lemma ItemPack(space: Subspace, t: TupleCodec.Tuple, u: TupleCodec.Tuple)
    ensures Pack(Item(space, t), u) == Pack(space, t + u)
  {
    TupleCodec.PackAppend(t, u);
  }

  /** WithPrefix puts the new prefix in front of every key of the subspace. */
  lemma WithPrefixPack(space: Subspace, prefix: Bytes, t: TupleCodec.Tuple)
    ensures Pack(WithPrefix(space, prefix), t) == prefix + Pack(space, t)
  {
  }

  /** Range(t) holds the key of every tuple that strictly extends t, behind
      the prefix, and nothing of another prefix. */
  lemma RangeContainsExtensions(space: Subspace, t: TupleCodec.Tuple, u: TupleCodec.Tuple)
    requires u != []
    ensures Range(space, t).Contains(Pack(space, t + u))
  {
    TupleCodec.PackExtensionInRange(t, u);
    var rang := TupleCodec.Range(t);
    LessCommonPrefix(space.rawPrefix, TupleCodec.Pack(t + u), rang.end);
    if rang.begin != TupleCodec.Pack(t + u) {
      LessCommonPrefix(space.rawPrefix, rang.begin, TupleCodec.Pack(t + u));
    }
  }
}
