/**
  The FoundationDB tuple layer, restricted to the element kinds the queue
  uses: byte strings (type code 0x01), unicode strings given as their UTF-8
  bytes (0x02) and signed 64-bit integers (0x0c..0x1c).

  The encoding follows the tuple layer's: a string is its type code, its
  bytes with every 0x00 escaped as 0x00 0xFF, and a 0x00 terminator; an
  integer is 0x14 for zero, 0x14 + n followed by n big-endian bytes for a
  positive value, and 0x14 - n followed by the n-byte ones' complement of
  the magnitude for a negative value.  The two properties every client of
  the layer relies on are proved, not assumed: `Unpack(Pack(t)) == Ok(t)`
  (UnpackPack) and "tuples sort as their encodings" (PackOrder).
 */
module TupleCodec {
  import opened Wrappers
  import opened ByteOrder

  const MinInt64: int := -0x8000_0000_0000_0000
  const MaxInt64: int := 0x7FFF_FFFF_FFFF_FFFF

  type Int64 = x: int | -0x8000_0000_0000_0000 <= x <= 0x7FFF_FFFF_FFFF_FFFF

  datatype Element =
    | ByteString(bytes: Bytes)
    | TextString(utf8: Bytes)
    | Integer(value: Int64)

  type Tuple = seq<Element>

  const BytesCode: byte := 0x01
  const StringCode: byte := 0x02
  const IntZeroCode: byte := 0x14

  // ---------------------------------------------------------------------
  // Integer helpers

  function Pow256(k: nat): (p: nat)
    ensures p >= 1
  {
    if k == 0 then 1 else 256 * Pow256(k - 1)
  }

  lemma {:induction false} Pow256Monotonic(j: nat, k: nat)
    requires j <= k
    ensures Pow256(j) <= Pow256(k)
  {
    if j < k {
      Pow256Monotonic(j, k - 1);
    }
  }

  /** The `k` big-endian bytes of `n`. */
  function BigEndian(n: nat, k: nat): (r: Bytes)
    requires n < Pow256(k)
    ensures |r| == k
  {
    if k == 0 then [] else BigEndian(n / 256, k - 1) + [n % 256]
  }

  function FromBigEndian(b: Bytes): nat
  {
    if |b| == 0 then 0 else FromBigEndian(b[..|b| - 1]) * 256 + b[|b| - 1]
  }

  lemma {:induction false} FromBigEndianBigEndian(n: nat, k: nat)
    requires n < Pow256(k)
    ensures FromBigEndian(BigEndian(n, k)) == n
  {
    if k > 0 {
      var b := BigEndian(n, k);
      assert b[..k - 1] == BigEndian(n / 256, k - 1);
      FromBigEndianBigEndian(n / 256, k - 1);
    }
  }

  /** Big-endian encodings of one width sort as the numbers they encode,
      whatever follows them. */
  lemma {:induction false} BigEndianOrder(n: nat, m: nat, k: nat, r1: Bytes, r2: Bytes)
    requires n < m < Pow256(k)
    ensures Less(BigEndian(n, k) + r1, BigEndian(m, k) + r2)
  {
    assert k > 0;
    var p, q := BigEndian(n / 256, k - 1), BigEndian(m / 256, k - 1);
    assert BigEndian(n, k) + r1 == p + ([n % 256] + r1);
    assert BigEndian(m, k) + r2 == q + ([m % 256] + r2);
    if n / 256 < m / 256 {
      BigEndianOrder(n / 256, m / 256, k - 1, [n % 256] + r1, [m % 256] + r2);
    } else {
      assert n / 256 == m / 256 && n % 256 < m % 256;
      LessAtFirstDifference(p, n % 256, m % 256, r1, r2);
    }
  }

  /** The number of bytes the tuple layer uses for a positive magnitude. */
  function ByteLength(m: nat): (k: nat)
    requires m > 0
    ensures k >= 1
  {
    if m < 256 then 1 else 1 + ByteLength(m / 256)
  }

  lemma {:induction false} ByteLengthBounds(m: nat)
    requires m > 0
    ensures Pow256(ByteLength(m) - 1) <= m < Pow256(ByteLength(m))
  {
    if m >= 256 {
      ByteLengthBounds(m / 256);
    }
  }

  lemma {:induction false} ByteLengthMonotonic(a: nat, b: nat)
    requires 0 < a <= b
    ensures ByteLength(a) <= ByteLength(b)
  {
    if a >= 256 {
      ByteLengthMonotonic(a / 256, b / 256);
    }
  }

  /** A 64-bit magnitude never needs more than eight bytes. */
  lemma ByteLengthAtMostEight(m: nat)
    requires 0 < m <= 0x8000_0000_0000_0000
    ensures ByteLength(m) <= 8
  {
    ByteLengthBounds(m);
    assert Pow256(8) == 0x1_0000_0000_0000_0000;
    if ByteLength(m) > 8 {
      Pow256Monotonic(8, ByteLength(m) - 1);
    }
  }

  // ---------------------------------------------------------------------
  // Encoding

  /** The number of magnitude bytes of an integer (none for zero). */
  function IntLength(n: Int64): (k: nat)
    ensures k <= 8
    ensures n != 0 ==> k >= 1
  {
    if n == 0 then 0
    else if n > 0 then ByteLengthAtMostEight(n); ByteLength(n)
    else ByteLengthAtMostEight(-(n as int)); ByteLength(-(n as int))
  }

  /** The type code of an integer: 0x14 plus or minus its byte length. */
  function IntCode(n: Int64): (c: byte)
    ensures 0x0c <= c <= 0x1c
  {
    if n >= 0 then IntZeroCode + IntLength(n) else IntZeroCode - IntLength(n)
  }

  /** The number written after the type code: the value itself when it is
      positive, its ones' complement in IntLength(n) bytes when negative. */
  function IntPayload(n: Int64): (v: nat)
    ensures v < Pow256(IntLength(n))
  {
    if n == 0 then 0
    else if n > 0 then ByteLengthBounds(n); n
    else ByteLengthBounds(-(n as int)); n + Pow256(IntLength(n)) - 1
  }

  function EncodeInt(n: Int64): (r: Bytes)
    ensures |r| > 0 && 0x0c <= r[0] <= 0x1c
  {
    [IntCode(n)] + BigEndian(IntPayload(n), IntLength(n))
  }

  function EscapeByte(x: byte): Bytes
  {
    if x == 0 then [0, 255] else [x]
  }

  /** Every 0x00 of `b` becomes 0x00 0xFF. */
  function Escape(b: Bytes): Bytes
  {
    if b == [] then [] else EscapeByte(b[0]) + Escape(b[1..])
  }

  function EncodeElement(e: Element): (r: Bytes)
    ensures |r| > 0 && 0 < r[0] < 255
  {
    match e
    case ByteString(b) => [BytesCode] + Escape(b) + [0]
    case TextString(s) => [StringCode] + Escape(s) + [0]
    case Integer(n) => EncodeInt(n)
  }

  /** The tuple layer's Tuple.Pack. */
  function Pack(t: Tuple): Bytes
  {
    if t == [] then [] else EncodeElement(t[0]) + Pack(t[1..])
  }

  // ---------------------------------------------------------------------
  // Decoding

  datatype Decoded = Decoded(element: Element, rest: Bytes)

  /** Reads an escaped string up to its terminator; gives the string and
      the bytes after the terminator. */
  function Unescape(b: Bytes): (r: Option<(Bytes, Bytes)>)
    ensures r.Some? ==> |r.value.1| < |b|
  {
    if b == [] then None
    else if b[0] == 0 then
      if |b| > 1 && b[1] == 255 then
        match Unescape(b[2..])
        case None => None
        case Some((s, rest)) => Some(([0] + s, rest))
      else Some(([], b[1..]))
    else
      match Unescape(b[1..])
      case None => None
      case Some((s, rest)) => Some(([b[0]] + s, rest))
  }

  function DecodeInt(b: Bytes): (r: Result<Decoded>)
    requires |b| > 0 && 0x0c <= b[0] <= 0x1c
    ensures r.Ok? ==> |r.value.rest| < |b|
  {
    var code := b[0];
    if code == IntZeroCode then Ok(Decoded(Integer(0), b[1..]))
    else
      var k := if code > IntZeroCode then code - IntZeroCode else IntZeroCode - code;
      if |b| < 1 + k then Err("insufficient bytes to decode integer")
      else
        var v := FromBigEndian(b[1..1 + k]);
        var n := if code > IntZeroCode then v else v - (Pow256(k) - 1);
        if MinInt64 <= n <= MaxInt64 then Ok(Decoded(Integer(n), b[1 + k..]))
        else Err("integer does not fit 64 bits")
  }

  function DecodeElement(b: Bytes): (r: Result<Decoded>)
    requires |b| > 0
    ensures r.Ok? ==> |r.value.rest| < |b|
  {
    var code := b[0];
    if code == BytesCode || code == StringCode then
      match Unescape(b[1..])
      case None => Err("unterminated string")
      case Some((s, rest)) =>
        Ok(Decoded(if code == BytesCode then ByteString(s) else TextString(s), rest))
    else if 0x0c <= code <= 0x1c then DecodeInt(b)
    else Err("unknown data type")
  }

  /** The tuple layer's tuple.Unpack. */
  function Unpack(b: Bytes): Result<Tuple>
    decreases |b|
  {
    if b == [] then Ok([])
    else
      match DecodeElement(b)
      case Err(e) => Err(e)
      case Ok(Decoded(e, rest)) =>
        match Unpack(rest)
        case Err(msg) => Err(msg)
        case Ok(t) => Ok([e] + t)
  }

  // ---------------------------------------------------------------------
  // Round trip

  /** What may follow an encoded element: nothing, or a byte other than
      0xFF (the second byte of an escaped 0x00). */
  predicate MayFollow(r: Bytes)
  {
    r == [] || r[0] != 255
  }

  lemma PackMayFollow(t: Tuple)
    ensures MayFollow(Pack(t))
  {
  }

  lemma {:induction false} UnescapeEscape(a: Bytes, rest: Bytes)
    requires MayFollow(rest)
    ensures Unescape(Escape(a) + [0] + rest) == Some((a, rest))
  {
    var b := Escape(a) + [0] + rest;
    if a == [] {
      assert b == [0] + rest;
    } else if a[0] == 0 {
      assert b == [0, 255] + (Escape(a[1..]) + [0] + rest);
      assert b[2..] == Escape(a[1..]) + [0] + rest;
      UnescapeEscape(a[1..], rest);
      assert [0] + a[1..] == a;
    } else {
      assert b == [a[0]] + (Escape(a[1..]) + [0] + rest);
      assert b[1..] == Escape(a[1..]) + [0] + rest;
      UnescapeEscape(a[1..], rest);
      assert [a[0]] + a[1..] == a;
    }
  }

  lemma DecodeEncodeInt(n: Int64, rest: Bytes)
    ensures DecodeInt(EncodeInt(n) + rest) == Ok(Decoded(Integer(n), rest))
  {
    var b := EncodeInt(n) + rest;
    var k := IntLength(n);
    assert b[0] == IntCode(n);
    if n != 0 {
      assert b[1..1 + k] == BigEndian(IntPayload(n), k);
      assert b[1 + k..] == rest;
      FromBigEndianBigEndian(IntPayload(n), k);
    } else {
      assert b[1..] == rest;
    }
  }

  lemma DecodeEncodeString(code: byte, s: Bytes, rest: Bytes)
    requires code == BytesCode || code == StringCode
    requires MayFollow(rest)
    ensures DecodeElement([code] + Escape(s) + [0] + rest)
         == Ok(Decoded(if code == BytesCode then ByteString(s) else TextString(s), rest))
  {
    var b := [code] + Escape(s) + [0] + rest;
    assert b[1..] == Escape(s) + [0] + rest;
    UnescapeEscape(s, rest);
  }

  lemma DecodeEncodeElement(e: Element, rest: Bytes)
    requires MayFollow(rest)
    ensures DecodeElement(EncodeElement(e) + rest) == Ok(Decoded(e, rest))
  {
    match e
    case ByteString(s) =>
      DecodeEncodeString(BytesCode, s, rest);
    case TextString(s) =>
      DecodeEncodeString(StringCode, s, rest);
    case Integer(n) =>
      DecodeEncodeInt(n, rest);
  }

  /** Unpacking a packed tuple gives the tuple back. */
  lemma {:induction false} UnpackPack(t: Tuple)
    ensures Unpack(Pack(t)) == Ok(t)
  {
    if t != [] {
      PackMayFollow(t[1..]);
      DecodeEncodeElement(t[0], Pack(t[1..]));
      UnpackPack(t[1..]);
      assert [t[0]] + t[1..] == t;
    }
  }

  /** Packing a concatenation packs the parts one after the other. */
  lemma {:induction false} PackAppend(s: Tuple, t: Tuple)
    ensures Pack(s + t) == Pack(s) + Pack(t)
  {
    if s == [] {
      assert s + t == t;
    } else {
      assert (s + t)[0] == s[0] && (s + t)[1..] == s[1..] + t;
      PackAppend(s[1..], t);
    }
  }

  // ---------------------------------------------------------------------
  // Order

  /** The tuple layer's element order: byte strings before unicode strings
      before integers; within a kind, by value (strings byte-wise). */
  predicate ElementLess(x: Element, y: Element)
  {
    match x
    case ByteString(a) => !y.ByteString? || Less(a, y.bytes)
    case TextString(a) => y.Integer? || (y.TextString? && Less(a, y.utf8))
    case Integer(m) => y.Integer? && m < y.value
  }

  /** Lexicographic order on tuples, a proper prefix first. */
  predicate TupleLess(s: Tuple, t: Tuple)
  {
    if |s| == 0 then |t| > 0
    else if |t| == 0 then false
    else ElementLess(s[0], t[0]) || (s[0] == t[0] && TupleLess(s[1..], t[1..]))
  }

  lemma {:induction false} EscapeOrder(a: Bytes, b: Bytes, r1: Bytes, r2: Bytes)
    requires Less(a, b) && MayFollow(r1)
    ensures Less(Escape(a) + ([0] + r1), Escape(b) + ([0] + r2))
  {
    if a == [] {
      var tail := Escape(b[1..]) + ([0] + r2);
      assert Escape(b) + ([0] + r2) == EscapeByte(b[0]) + tail;
      if b[0] == 0 {
        assert EscapeByte(b[0]) + tail == [0] + ([255] + tail);
        assert Less(r1, [255] + tail);
        LessCommonPrefix([0], r1, [255] + tail);
      } else {
        LessFirstByte(0, b[0], r1, tail);
      }
    } else {
      var ta := Escape(a[1..]) + ([0] + r1);
      var tb := Escape(b[1..]) + ([0] + r2);
      assert Escape(a) + ([0] + r1) == EscapeByte(a[0]) + ta;
      assert Escape(b) + ([0] + r2) == EscapeByte(b[0]) + tb;
      if a[0] == b[0] {
        EscapeOrder(a[1..], b[1..], r1, r2);
        LessCommonPrefix(EscapeByte(a[0]), ta, tb);
      } else if a[0] == 0 {
        assert EscapeByte(a[0]) + ta == [0] + ([255] + ta);
        LessFirstByte(0, b[0], [255] + ta, tb);
      } else {
        LessFirstByte(a[0], b[0], ta, tb);
      }
    }
  }

  /** A larger integer has a larger type code, or the same code and a
      larger payload of the same width. */
  lemma IntCodeOrder(n: Int64, m: Int64)
    requires n < m
    ensures IntCode(n) < IntCode(m)
         || (IntCode(n) == IntCode(m) && IntLength(n) == IntLength(m) && IntPayload(n) < IntPayload(m))
  {
    if 0 < n {
      ByteLengthMonotonic(n, m);
    } else if m < 0 {
      ByteLengthMonotonic(-(m as int), -(n as int));
    }
  }

  lemma IntOrder(n: Int64, m: Int64, r1: Bytes, r2: Bytes)
    requires n < m
    ensures Less(EncodeInt(n) + r1, EncodeInt(m) + r2)
  {
    var pn, pm := BigEndian(IntPayload(n), IntLength(n)), BigEndian(IntPayload(m), IntLength(m));
    assert EncodeInt(n) + r1 == [IntCode(n)] + (pn + r1);
    assert EncodeInt(m) + r2 == [IntCode(m)] + (pm + r2);
    IntCodeOrder(n, m);
    if IntCode(n) < IntCode(m) {
      LessFirstByte(IntCode(n), IntCode(m), pn + r1, pm + r2);
    } else {
      BigEndianOrder(IntPayload(n), IntPayload(m), IntLength(n), r1, r2);
      LessCommonPrefix([IntCode(n)], pn + r1, pm + r2);
    }
  }

  lemma StringOrder(code: byte, a: Bytes, b: Bytes, r1: Bytes, r2: Bytes)
    requires Less(a, b) && MayFollow(r1)
    ensures Less([code] + Escape(a) + [0] + r1, [code] + Escape(b) + [0] + r2)
  {
    EscapeOrder(a, b, r1, r2);
    assert [code] + Escape(a) + [0] + r1 == [code] + (Escape(a) + ([0] + r1));
    assert [code] + Escape(b) + [0] + r2 == [code] + (Escape(b) + ([0] + r2));
    LessCommonPrefix([code], Escape(a) + ([0] + r1), Escape(b) + ([0] + r2));
  }

  lemma ElementOrder(x: Element, y: Element, r1: Bytes, r2: Bytes)
    requires ElementLess(x, y) && MayFollow(r1)
    ensures Less(EncodeElement(x) + r1, EncodeElement(y) + r2)
  {
    var ex, ey := EncodeElement(x), EncodeElement(y);
    assert ex + r1 == [ex[0]] + (ex + r1)[1..];
    assert ey + r2 == [ey[0]] + (ey + r2)[1..];
    match (x, y)
    case (ByteString(a), ByteString(b)) =>
      StringOrder(BytesCode, a, b, r1, r2);
    case (TextString(a), TextString(b)) =>
      StringOrder(StringCode, a, b, r1, r2);
    case (Integer(n), Integer(m)) =>
      IntOrder(n, m, r1, r2);
    case (ByteString(_), _) =>
      LessFirstByte(ex[0], ey[0], (ex + r1)[1..], (ey + r2)[1..]);
    case (TextString(_), Integer(_)) =>
      LessFirstByte(ex[0], ey[0], (ex + r1)[1..], (ey + r2)[1..]);
    case _ =>
      assert false;
  }

  /** Tuples sort as their packed encodings (one direction). */
  lemma {:induction false} PackOrderForward(s: Tuple, t: Tuple)
    requires TupleLess(s, t)
    ensures Less(Pack(s), Pack(t))
  {
    if s == [] {
    } else if ElementLess(s[0], t[0]) {
      PackMayFollow(s[1..]);
      ElementOrder(s[0], t[0], Pack(s[1..]), Pack(t[1..]));
    } else {
      PackOrderForward(s[1..], t[1..]);
      LessCommonPrefix(EncodeElement(s[0]), Pack(s[1..]), Pack(t[1..]));
    }
  }

  lemma ElementLessTotal(x: Element, y: Element)
    ensures x == y || ElementLess(x, y) || ElementLess(y, x)
    ensures !(ElementLess(x, y) && ElementLess(y, x))
    ensures !ElementLess(x, x)
  {
    LessIrreflexive(ElementBytes(x));
    LessTotal(ElementBytes(x), ElementBytes(y));
    LessAsymmetric(ElementBytes(x), ElementBytes(y));
  }

  function ElementBytes(x: Element): Bytes
  {
    match x
    case ByteString(b) => b
    case TextString(s) => s
    case Integer(_) => []
  }

  lemma {:induction false} TupleLessTotal(s: Tuple, t: Tuple)
    ensures s == t || TupleLess(s, t) || TupleLess(t, s)
    ensures !(TupleLess(s, t) && TupleLess(t, s))
  {
    if |s| > 0 && |t| > 0 {
      ElementLessTotal(s[0], t[0]);
      TupleLessTotal(s[1..], t[1..]);
      if s[0] == t[0] && s[1..] == t[1..] {
        assert s == [s[0]] + s[1..] && t == [t[0]] + t[1..];
      }
    }
  }

  /** Tuples sort exactly as their packed encodings. */
  lemma PackOrder(s: Tuple, t: Tuple)
    ensures Less(Pack(s), Pack(t)) <==> TupleLess(s, t)
  {
    TupleLessTotal(s, t);
    LessAsymmetric(Pack(s), Pack(t));
    LessIrreflexive(Pack(s));
    if TupleLess(s, t) {
      PackOrderForward(s, t);
    } else if TupleLess(t, s) {
      PackOrderForward(t, s);
    }
  }

  /** The tuple layer's Tuple.Range: the keys of the tuples that strictly
      extend `t`. */
  function Range(t: Tuple): KeyRange
  {
    KeyRange(Pack(t) + [0], Pack(t) + [255])
  }

  /** Every tuple extending `t` by at least one element packs into Range(t). */
  lemma PackExtensionInRange(t: Tuple, u: Tuple)
    requires u != []
    ensures Range(t).Contains(Pack(t + u))
  {
    PackAppend(t, u);
    var k := Pack(t + u);
    assert k[..|Pack(t)|] == Pack(t);
    assert k[|Pack(t)|] == EncodeElement(u[0])[0];
    PrefixRange(Pack(t), k);
  }
}
