/**
  The client library's subspace (the one the queue package imports, not the
  repository's own): a raw prefix whose `Unpack` refuses keys that do not
  start with it, and whose key range runs from prefix + 0x00 to
  prefix + 0xFF.
 */
module FdbSubspace {
  import opened Wrappers
  import opened ByteOrder
  import TupleCodec

  datatype Space = Space(prefix: Bytes) {

    /** Sub: the nested subspace of tuple `t`. */
    function Sub(t: TupleCodec.Tuple): Space
    {
      Space(prefix + TupleCodec.Pack(t))
    }

    function Pack(t: TupleCodec.Tuple): Bytes
    {
      prefix + TupleCodec.Pack(t)
    }

    function Unpack(k: Bytes): Result<TupleCodec.Tuple>
    {
      if HasPrefix(k, prefix) then TupleCodec.Unpack(k[|prefix|..])
      else Err("key is not in subspace")
    }

    /** FDBRangeKeys. */
    function RangeKeys(): KeyRange
    {
      KeyRange(prefix + [0], prefix + [255])
    }

    /** Membership of the range RangeKeys() gives, [prefix + 0x00,
        prefix + 0xFF): the keys a range read of the subspace sees.  This
        is not fdb-go's Subspace.Contains, which tests the prefix alone. */
    predicate InRange(k: Bytes)
    {
      RangeKeys().Contains(k)
    }
  }

  /** The keys of a subspace's range are the keys behind its prefix whose
      next byte is not 0xFF. */
  lemma InRangeIff(s: Space, k: Bytes)
    ensures s.InRange(k) <==> (|k| > |s.prefix| && k[..|s.prefix|] == s.prefix && k[|s.prefix|] != 255)
  {
    PrefixRange(s.prefix, k);
  }

  lemma UnpackPack(s: Space, t: TupleCodec.Tuple)
    ensures s.Unpack(s.Pack(t)) == Ok(t)
  {
    assert s.Pack(t)[|s.prefix|..] == TupleCodec.Pack(t);
    TupleCodec.UnpackPack(t);
  }

  /** The key of a non-empty tuple lies in the subspace's range. */
  lemma PackInRange(s: Space, t: TupleCodec.Tuple)
    requires t != []
    ensures s.InRange(s.Pack(t))
  {
    var k := s.Pack(t);
    assert k[..|s.prefix|] == s.prefix;
    assert k[|s.prefix|] == TupleCodec.EncodeElement(t[0])[0];
    InRangeIff(s, k);
  }

  /** Keys of one subspace sort as their tuples. */
  lemma PackOrder(s: Space, t: TupleCodec.Tuple, u: TupleCodec.Tuple)
    ensures Less(s.Pack(t), s.Pack(u)) <==> TupleCodec.TupleLess(t, u)
  {
    LessCommonPrefix(s.prefix, TupleCodec.Pack(t), TupleCodec.Pack(u));
    TupleCodec.PackOrder(t, u);
  }

  lemma PackInjective(s: Space, t: TupleCodec.Tuple, u: TupleCodec.Tuple)
    requires s.Pack(t) == s.Pack(u)
    ensures t == u
  {
    UnpackPack(s, t);
    UnpackPack(s, u);
  }

  /** Two prefixes that differ at a position both have: no key starts with
      both, so the two ranges are disjoint. */
  predicate Apart(a: Space, b: Space)
  {
    exists i :: 0 <= i < |a.prefix| && i < |b.prefix| && a.prefix[i] != b.prefix[i]
  }

  lemma ApartDisjoint(a: Space, b: Space, k: Bytes)
    requires Apart(a, b)
    ensures !(a.InRange(k) && b.InRange(k))
  {
    InRangeIff(a, k);
    InRangeIff(b, k);
    var i :| 0 <= i < |a.prefix| && i < |b.prefix| && a.prefix[i] != b.prefix[i];
    assert a.InRange(k) ==> k[i] == a.prefix[i] by {
      if a.InRange(k) {
        assert k[..|a.prefix|][i] == k[i];
      }
    }
    assert b.InRange(k) ==> k[i] == b.prefix[i] by {
      if b.InRange(k) {
        assert k[..|b.prefix|][i] == k[i];
      }
    }
  }

  /** `child` is made from `parent` by appending at least one byte that is
      not 0xFF (as Sub does), so every key of the child is one of the parent. */
  predicate NestedIn(child: Space, parent: Space)
  {
    |child.prefix| > |parent.prefix|
    && child.prefix[..|parent.prefix|] == parent.prefix
    && child.prefix[|parent.prefix|] != 255
  }

  lemma NestedInRange(child: Space, parent: Space, k: Bytes)
    requires NestedIn(child, parent) && child.InRange(k)
    ensures parent.InRange(k)
  {
    InRangeIff(child, k);
    InRangeIff(parent, k);
    assert k[..|parent.prefix|] == k[..|child.prefix|][..|parent.prefix|];
    assert k[|parent.prefix|] == k[..|child.prefix|][|parent.prefix|];
  }

  lemma SubNested(s: Space, t: TupleCodec.Tuple)
    requires t != []
    ensures NestedIn(s.Sub(t), s)
  {
    assert s.Sub(t).prefix[|s.prefix|] == TupleCodec.EncodeElement(t[0])[0];
  }

  /** Sub-spaces named by strings with different first characters are apart. */
  lemma SubApart(s: Space, a: Bytes, b: Bytes)
    requires |a| > 0 && |b| > 0 && a[0] != b[0] && a[0] != 0 && b[0] != 0
    ensures Apart(s.Sub([TupleCodec.TextString(a)]), s.Sub([TupleCodec.TextString(b)]))
  {
    var pa, pb := s.Sub([TupleCodec.TextString(a)]).prefix, s.Sub([TupleCodec.TextString(b)]).prefix;
    var i := |s.prefix| + 1;
    assert TupleCodec.Escape(a)[0] == a[0] && TupleCodec.Escape(b)[0] == b[0];
    assert pa[i] == a[0];
    assert pb[i] == b[0];
  }
}
