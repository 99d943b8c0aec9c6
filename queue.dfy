/**
  The high-contention queue layer (package queue).  A queue lives in a
  subspace of the key-value store and uses three child subspaces:

    item      (index, randomId)  -> packed (value)     the queued items
    pop       (index, randomId)  -> ""                 registered waiters
    conflict  (randomId)         -> packed (value)     result slots of waiters

  An index is a signed 64-bit integer one above the greatest index already
  stored; the random id (20 bytes of crypto randomness in the Go code) is
  a parameter here.  Reads are functions of the store's map; operations
  that write go through a Store.Transaction, and the fulfilment sweep runs
  a transaction of its own against a Store.Database.
 */
module Queue {
  import opened Wrappers
  import opened ByteOrder
  import TupleCodec
  import opened Store
  import opened FdbSubspace

  /** "pop", "conflict" and "item" as UTF-8 bytes. */
  const PopName: Bytes := [0x70, 0x6f, 0x70]
  const ConflictName: Bytes := [0x63, 0x6f, 0x6e, 0x66, 0x6c, 0x69, 0x63, 0x74]
  const ItemName: Bytes := [0x69, 0x74, 0x65, 0x6d]

  /** How many waiters and items one sweep looks at. */
  const NumPops: nat := 100

  /** The 20 random bytes that make concurrent keys distinct. */
  type RandomId = b: Bytes | |b| == 20 witness [0, 0, 0, 0, 0, 0, 0, 0, 0, 0, 0, 0, 0, 0, 0, 0, 0, 0, 0, 0]

  type Int64 = TupleCodec.Int64

  datatype Queue = Queue(
    subspace: Space,
    highContention: bool,
    conflictedPop: Space,
    conflictedItem: Space,
    queueItem: Space)

  // ---------------------------------------------------------------------
  // Construction

  /** The child subspace named by a string, sub.Sub(name). */
  function Child(sub: Space, name: Bytes): Space
  {
    sub.Sub([TupleCodec.TextString(name)])
  }

  /** The three children lie inside the queue's subspace and no key belongs
      to two of them. */
  predicate Layout(q: Queue)
  {
    && NestedIn(q.conflictedPop, q.subspace)
    && NestedIn(q.conflictedItem, q.subspace)
    && NestedIn(q.queueItem, q.subspace)
    && Apart(q.conflictedPop, q.conflictedItem)
    && Apart(q.conflictedPop, q.queueItem)
    && Apart(q.conflictedItem, q.queueItem)
  }

  function New(sub: Space, highContention: bool): (q: Queue)
    ensures q.subspace == sub && q.highContention == highContention
    ensures Layout(q)
  {
    SubNested(sub, [TupleCodec.TextString(PopName)]);
    SubNested(sub, [TupleCodec.TextString(ConflictName)]);
    SubNested(sub, [TupleCodec.TextString(ItemName)]);
    SubApart(sub, PopName, ConflictName);
    SubApart(sub, PopName, ItemName);
    SubApart(sub, ConflictName, ItemName);
    Queue(sub, highContention, Child(sub, PopName), Child(sub, ConflictName), Child(sub, ItemName))
  }

  /** A key of one child is a key of no other child. */
  lemma LayoutSeparates(q: Queue, k: Key)
    requires Layout(q)
    ensures q.conflictedPop.InRange(k) ==> !q.queueItem.InRange(k) && !q.conflictedItem.InRange(k)
    ensures q.queueItem.InRange(k) ==> !q.conflictedItem.InRange(k)
  {
    ApartDisjoint(q.conflictedPop, q.conflictedItem, k);
    ApartDisjoint(q.conflictedPop, q.queueItem, k);
    ApartDisjoint(q.conflictedItem, q.queueItem, k);
  }

  // ---------------------------------------------------------------------
  // Keys and values

  /** Go's int64 `+ 1`: two's-complement wrap-around at the top. */
  function Increment(n: Int64): (r: Int64)
    ensures (r - n - 1) % 0x1_0000_0000_0000_0000 == 0
    ensures n < TupleCodec.MaxInt64 ==> r > n
  {
    if n == TupleCodec.MaxInt64 then TupleCodec.MinInt64 else n + 1
  }

  /** The key pushAt writes: (index, randomId) under the item subspace. */
  function ItemKey(q: Queue, index: Int64, rand: Bytes): Key
  {
    q.queueItem.Pack([TupleCodec.Integer(index), TupleCodec.ByteString(rand)])
  }

  /** The key addConflictedPop writes: (index, randomId) under pop. */
  function WaiterKey(q: Queue, index: Int64, rand: Bytes): Key
  {
    q.conflictedPop.Pack([TupleCodec.Integer(index), TupleCodec.ByteString(rand)])
  }

  /** conflictedItemKey: the result slot of the waiter with this id. */
  function ConflictedItemKey(q: Queue, subkey: Bytes): Key
  {
    q.conflictedItem.Pack([TupleCodec.ByteString(subkey)])
  }

  /** Every result slot is a key of the conflict subspace. */
  lemma SlotInConflictSubspace(q: Queue, subkey: Bytes)
    ensures q.conflictedItem.InRange(ConflictedItemKey(q, subkey))
  {
    PackInRange(q.conflictedItem, [TupleCodec.ByteString(subkey)]);
  }

  /** Distinct waiter ids have distinct result slots. */
  lemma ConflictedItemKeyInjective(q: Queue, a: Bytes, b: Bytes)
    requires ConflictedItemKey(q, a) == ConflictedItemKey(q, b)
    ensures a == b
  {
    PackInjective(q.conflictedItem, [TupleCodec.ByteString(a)], [TupleCodec.ByteString(b)]);
    assert [TupleCodec.ByteString(a)][0] == [TupleCodec.ByteString(b)][0];
  }

  /** decodeValue: the first element of the unpacked tuple, which must be a
      byte string; anything else is a Go panic. */
  function DecodeValue(val: Bytes): Result<Bytes>
  {
    match TupleCodec.Unpack(val)
    case Err(e) => Err(e)
    case Ok(t) =>
      if |t| == 0 then Err("index out of range")
      else if t[0].ByteString? then Ok(t[0].bytes)
      else Err("interface conversion: not a byte string")
  }

  /** encodeValue: the one-element tuple (value), packed. */
  function EncodeValue(value: Bytes): (r: Bytes)
    ensures DecodeValue(r) == Ok(value)
  {
    TupleCodec.UnpackPack([TupleCodec.ByteString(value)]);
    TupleCodec.Pack([TupleCodec.ByteString(value)])
  }

  // ---------------------------------------------------------------------
  // Index generation

  /** A key of `sub` shaped as the queue writes them: (index, randomId). */
  predicate IsIndexKey(sub: Space, k: Key)
  {
    var t := sub.Unpack(k);
    && t.Ok? && |t.value| == 2
    && t.value[0].Integer? && t.value[1].ByteString?
    && sub.Pack(t.value) == k
  }

  function KeyIndex(sub: Space, k: Key): Int64
    requires IsIndexKey(sub, k)
  {
    sub.Unpack(k).value[0].value
  }

  /** Every key of the store inside `sub` is an index key. */
  predicate IndexKeys(kv: Kv, sub: Space)
  {
    forall k :: k in kv && sub.InRange(k) ==> IsIndexKey(sub, k)
  }

  /** Every index inside `sub` lies in [lo, hi). */
  predicate IndicesWithin(kv: Kv, sub: Space, lo: int, hi: int)
    requires IndexKeys(kv, sub)
  {
    forall k :: k in kv && sub.InRange(k) ==> lo <= KeyIndex(sub, k) < hi
  }

  lemma PackedIndexKey(sub: Space, index: Int64, rand: Bytes)
    ensures var k := sub.Pack([TupleCodec.Integer(index), TupleCodec.ByteString(rand)]);
      IsIndexKey(sub, k) && KeyIndex(sub, k) == index
  {
    UnpackPack(sub, [TupleCodec.Integer(index), TupleCodec.ByteString(rand)]);
  }

  /** Index keys of one subspace sort by their index first. */
  lemma IndexKeyOrder(sub: Space, j: Key, k: Key)
    requires IsIndexKey(sub, j) && IsIndexKey(sub, k) && Less(j, k)
    ensures KeyIndex(sub, j) <= KeyIndex(sub, k)
  {
    var tj, tk := sub.Unpack(j).value, sub.Unpack(k).value;
    PackOrder(sub, tj, tk);
    assert TupleCodec.TupleLess(tj, tk);
  }

  /** GetNextIndex: 0 when the last key below the end of `sub` sorts before
      its start, otherwise the leading index of that key plus one. */
  function GetNextIndex(kv: Kv, sub: Space): Result<Int64>
  {
    var range := sub.RangeKeys();
    var key := LastLessThan(kv, range.end);
    if Less(key, range.begin) then Ok(0)
    else
      match sub.Unpack(key)
      case Err(_) => Err("Failed to unpack key")
      case Ok(t) =>
        if |t| == 0 then Err("index out of range")
        else if t[0].Integer? then Ok(Increment(t[0].value))
        else Err("interface conversion: not an int64")
  }

  /** The last key below the end of `sub` sorts before its start exactly
      when `sub` holds no key. */
  lemma LastKeyBeforeStart(kv: Kv, sub: Space)
    ensures var range := sub.RangeKeys();
      Less(LastLessThan(kv, range.end), range.begin) <==> KeysIn(kv, range) == {}
    ensures var range := sub.RangeKeys();
      KeysIn(kv, range) != {} ==> LastLessThan(kv, range.end) in KeysIn(kv, range)
  {
    var range := sub.RangeKeys();
    var key := LastLessThan(kv, range.end);
    if KeysIn(kv, range) != {} {
      var j :| j in KeysIn(kv, range);
      assert LessEq(j, key);
      LessEqTransitive(range.begin, j, key);
      Trichotomy(key, range.begin);
      assert key in KeysIn(kv, range);
    } else if exists j :: j in kv && Less(j, range.end) {
      Trichotomy(range.begin, key);
      assert key !in KeysIn(kv, range);
    } else {
      assert key == [];
    }
  }

  lemma NextIndexOfEmpty(kv: Kv, sub: Space)
    requires KeysIn(kv, sub.RangeKeys()) == {}
    ensures GetNextIndex(kv, sub) == Ok(0)
  {
    LastKeyBeforeStart(kv, sub);
  }

  /** With indices below the int64 maximum, the next index is one above the
      greatest stored one: above every index of `sub`, and one above some. */
  lemma NextIndexAboveAll(kv: Kv, sub: Space)
    requires IndexKeys(kv, sub) && IndicesWithin(kv, sub, TupleCodec.MinInt64, TupleCodec.MaxInt64)
    requires KeysIn(kv, sub.RangeKeys()) != {}
    ensures GetNextIndex(kv, sub).Ok?
    ensures forall k :: k in kv && sub.InRange(k) ==> KeyIndex(sub, k) < GetNextIndex(kv, sub).value
    ensures exists k :: k in kv && sub.InRange(k) && GetNextIndex(kv, sub).value == KeyIndex(sub, k) + 1
  {
    NextIndexOfLast(kv, sub);
    LastIndexIsGreatest(kv, sub);
    var key := LastLessThan(kv, sub.RangeKeys().end);
    assert KeyIndex(sub, key) < TupleCodec.MaxInt64;
  }

  /** When `sub` holds keys, the last key below its end is one of them and
      the next index is its index plus one (with int64 wrap-around). */
  lemma NextIndexOfLast(kv: Kv, sub: Space)
    requires IndexKeys(kv, sub) && KeysIn(kv, sub.RangeKeys()) != {}
    ensures LastLessThan(kv, sub.RangeKeys().end) in kv
    ensures sub.InRange(LastLessThan(kv, sub.RangeKeys().end))
    ensures IsIndexKey(sub, LastLessThan(kv, sub.RangeKeys().end))
    ensures GetNextIndex(kv, sub) == Ok(Increment(KeyIndex(sub, LastLessThan(kv, sub.RangeKeys().end))))
  {
    LastKeyBeforeStart(kv, sub);
  }

  /** The last key below the end of `sub` carries the greatest index. */
  lemma LastIndexIsGreatest(kv: Kv, sub: Space)
    requires IndexKeys(kv, sub) && KeysIn(kv, sub.RangeKeys()) != {}
    ensures IsIndexKey(sub, LastLessThan(kv, sub.RangeKeys().end))
    ensures forall k :: k in kv && sub.InRange(k) ==>
      KeyIndex(sub, k) <= KeyIndex(sub, LastLessThan(kv, sub.RangeKeys().end))
  {
    LastKeyBeforeStart(kv, sub);
    var key := LastLessThan(kv, sub.RangeKeys().end);
    assert key in KeysIn(kv, sub.RangeKeys());
    forall k | k in kv && sub.InRange(k) ensures KeyIndex(sub, k) <= KeyIndex(sub, key) {
      if k != key {
        assert k in KeysIn(kv, sub.RangeKeys());
        IndexKeyOrder(sub, k, key);
      }
    }
  }

  /** With non-negative indices, the next index is 0 exactly when `sub` is
      empty. */
  lemma NextIndexZeroIff(kv: Kv, sub: Space)
    requires IndexKeys(kv, sub) && IndicesWithin(kv, sub, 0, TupleCodec.MaxInt64)
    ensures GetNextIndex(kv, sub) == Ok(0) <==> KeysIn(kv, sub.RangeKeys()) == {}
  {
    if KeysIn(kv, sub.RangeKeys()) == {} {
      NextIndexOfEmpty(kv, sub);
    } else {
      NextIndexAboveAll(kv, sub);
      var k :| k in KeysIn(kv, sub.RangeKeys());
      assert KeyIndex(sub, k) >= 0;
    }
  }

  /** Once some index is the int64 maximum, the next index wraps to the
      minimum, so the next key would sort before every other. */
  lemma NextIndexWraps(kv: Kv, sub: Space)
    requires IndexKeys(kv, sub)
    requires exists k :: k in kv && sub.InRange(k) && KeyIndex(sub, k) == TupleCodec.MaxInt64
    ensures GetNextIndex(kv, sub) == Ok(TupleCodec.MinInt64)
  {
    var j :| j in kv && sub.InRange(j) && KeyIndex(sub, j) == TupleCodec.MaxInt64;
    assert j in KeysIn(kv, sub.RangeKeys());
    NextIndexOfLast(kv, sub);
    LastIndexIsGreatest(kv, sub);
  }

  // ---------------------------------------------------------------------
  // Reading the head

  /** The item range's keys. */
  function ItemKeys(kv: Kv, q: Queue): set<Key>
  {
    KeysIn(kv, q.queueItem.RangeKeys())
  }

  /** getFirstItem: a range read of the item subspace limited to one pair. */
  function FirstItem(kv: Kv, q: Queue): Option<KeyValue>
  {
    var kvs := GetRange(kv, q.queueItem.RangeKeys(), 1);
    if |kvs| == 1 then Some(kvs[0]) else None
  }

  /** The first item is the pair of the least item key, if there is any. */
  lemma FirstItemIsLeast(kv: Kv, q: Queue)
    ensures ItemKeys(kv, q) == {} ==> FirstItem(kv, q) == None
    ensures ItemKeys(kv, q) != {} ==>
      var k := Least(ItemKeys(kv, q));
      FirstItem(kv, q) == Some(KeyValue(k, kv[k]))
  {
    var r := q.queueItem.RangeKeys();
    FirstPairsLength(kv, r, 1);
    if ItemKeys(kv, q) != {} {
      FirstPairsStep(kv, r, 1);
    }
  }

  /** Peek: the decoded value of the first item; the store is not changed. */
  function Peek(kv: Kv, q: Queue): Result<Option<Bytes>>
  {
    match FirstItem(kv, q)
    case None => Ok(None)
    case Some(p) =>
      match DecodeValue(p.value)
      case Err(e) => Err(e)
      case Ok(v) => Ok(Some(v))
  }

  /** Peek reads the value under the least item key, the one a pop removes. */
  lemma PeekIsHead(kv: Kv, q: Queue)
    ensures ItemKeys(kv, q) == {} ==> Peek(kv, q) == Ok(None)
    ensures ItemKeys(kv, q) != {} ==>
      var k := Least(ItemKeys(kv, q));
      && (Peek(kv, q).Ok? <==> DecodeValue(kv[k]).Ok?)
      && (Peek(kv, q).Ok? ==> Peek(kv, q).value == Some(DecodeValue(kv[k]).value))
      && k == Popped(kv, q).removed.value
  {
    FirstItemIsLeast(kv, q);
  }

  /** Empty: no first item. */
  function Empty(kv: Kv, q: Queue): (r: bool)
    ensures r <==> ItemKeys(kv, q) == {}
  {
    FirstItemIsLeast(kv, q);
    FirstItem(kv, q).None?
  }

  /** What popSimple returns and the store it leaves. */
  datatype PopOutcome = PopOutcome(value: Option<Value>, removed: Option<Key>, kv: Kv)

  function Popped(kv: Kv, q: Queue): PopOutcome
  {
    match FirstItem(kv, q)
    case None => PopOutcome(None, None, kv)
    case Some(p) => PopOutcome(Some(p.value), Some(p.key), kv - {p.key})
  }

  /** popSimple takes the least item key: it returns that key's stored value
      and removes exactly that key; an empty queue is left unchanged. */
  lemma PoppedRemovesHead(kv: Kv, q: Queue)
    ensures ItemKeys(kv, q) == {} ==> Popped(kv, q) == PopOutcome(None, None, kv)
    ensures ItemKeys(kv, q) != {} ==>
      var k := Least(ItemKeys(kv, q));
      Popped(kv, q) == PopOutcome(Some(kv[k]), Some(k), kv - {k})
  {
    FirstItemIsLeast(kv, q);
  }

  /** A pop leaves every item key but the head, and the head was the least. */
  lemma PoppedKeys(kv: Kv, q: Queue)
    requires ItemKeys(kv, q) != {}
    ensures var out := Popped(kv, q);
      && ItemKeys(out.kv, q) == ItemKeys(kv, q) - {out.removed.value}
      && forall k :: k in ItemKeys(out.kv, q) ==> Less(out.removed.value, k)
  {
    PoppedRemovesHead(kv, q);
    var k := Least(ItemKeys(kv, q));
    KeysInRemove(kv, q.queueItem.RangeKeys(), k);
    forall j | j in ItemKeys(kv, q) - {k} ensures Less(k, j) {
    }
  }

  // ---------------------------------------------------------------------
  // Push

  /** Push: the store with the encoded value under (next index, rand). */
  function Pushed(kv: Kv, q: Queue, value: Bytes, rand: Bytes): Result<Kv>
  {
    match GetNextIndex(kv, q.queueItem)
    case Err(e) => Err(e)
    case Ok(index) => Ok(kv[ItemKey(q, index, rand) := EncodeValue(value)])
  }

  /** On a queue of index keys below the int64 maximum, a push adds exactly
      one new key, after every item already queued, holding the value; no
      other key changes and every item key stays an index key. */
  lemma PushAppends(kv: Kv, q: Queue, value: Bytes, rand: Bytes)
    requires IndexKeys(kv, q.queueItem)
    requires IndicesWithin(kv, q.queueItem, TupleCodec.MinInt64, TupleCodec.MaxInt64)
    ensures Pushed(kv, q, value, rand).Ok?
    ensures var k := ItemKey(q, GetNextIndex(kv, q.queueItem).value, rand);
      var after := Pushed(kv, q, value, rand).value;
      && k !in kv && after == kv[k := EncodeValue(value)]
      && ItemKeys(after, q) == ItemKeys(kv, q) + {k}
      && (forall j :: j in ItemKeys(kv, q) ==> Less(j, k))
      && IndexKeys(after, q.queueItem)
      && DecodeValue(after[k]) == Ok(value)
  {
    NextKeyIsLast(kv, q.queueItem, rand);
    var after := Pushed(kv, q, value, rand).value;
    var k := ItemKey(q, GetNextIndex(kv, q.queueItem).value, rand);
    assert ItemKeys(after, q) == ItemKeys(kv, q) + {k};
  }

  /** The key (next index, rand) is new to `sub` and sorts after every key
      already in it, as long as no index has reached the int64 maximum. */
  lemma NextKeyIsLast(kv: Kv, sub: Space, rand: Bytes)
    requires IndexKeys(kv, sub)
    requires IndicesWithin(kv, sub, TupleCodec.MinInt64, TupleCodec.MaxInt64)
    ensures GetNextIndex(kv, sub).Ok?
    ensures var n := GetNextIndex(kv, sub).value;
      var k := sub.Pack([TupleCodec.Integer(n), TupleCodec.ByteString(rand)]);
      && k !in kv && sub.InRange(k) && IsIndexKey(sub, k) && KeyIndex(sub, k) == n
      && forall j :: j in KeysIn(kv, sub.RangeKeys()) ==> Less(j, k)
  {
    if KeysIn(kv, sub.RangeKeys()) == {} {
      NextIndexOfEmpty(kv, sub);
    } else {
      NextIndexAboveAll(kv, sub);
    }
    var n := GetNextIndex(kv, sub).value;
    var t := [TupleCodec.Integer(n), TupleCodec.ByteString(rand)];
    var k := sub.Pack(t);
    PackedIndexKey(sub, n, rand);
    PackInRange(sub, t);
    forall j | j in KeysIn(kv, sub.RangeKeys()) ensures Less(j, k) && j != k {
      var tj := sub.Unpack(j).value;
      assert KeyIndex(sub, j) < n;
      assert TupleCodec.TupleLess(tj, t);
      PackOrder(sub, tj, t);
      LessIrreflexive(k);
    }
    assert k in kv ==> k in KeysIn(kv, sub.RangeKeys());
  }

  // ---------------------------------------------------------------------
  // Clear

  /** Clear wipes the queue's whole range: no item, no waiter, no result
      slot is left, and nothing outside the queue's subspace changes. */
  lemma ClearEmptiesQueue(kv: Kv, q: Queue)
    requires Layout(q)
    ensures var after := ClearedRange(kv, q.subspace.RangeKeys());
      && Empty(after, q)
      && KeysIn(after, q.conflictedPop.RangeKeys()) == {}
      && KeysIn(after, q.conflictedItem.RangeKeys()) == {}
      && forall k :: !q.subspace.InRange(k) ==> (k in after <==> k in kv) && (k in kv ==> after[k] == kv[k])
  {
    var after := ClearedRange(kv, q.subspace.RangeKeys());
    forall k | q.queueItem.InRange(k) || q.conflictedPop.InRange(k) || q.conflictedItem.InRange(k)
      ensures k !in after
    {
      if q.queueItem.InRange(k) {
        NestedInRange(q.queueItem, q.subspace, k);
      } else if q.conflictedPop.InRange(k) {
        NestedInRange(q.conflictedPop, q.subspace, k);
      } else {
        NestedInRange(q.conflictedItem, q.subspace, k);
      }
    }
  }

  // ---------------------------------------------------------------------
  // A first-in first-out run

  /** A push onto an empty queue makes its key the only item, at index 0. */
  lemma PushOntoEmpty(kv: Kv, q: Queue, value: Bytes, rand: Bytes)
    requires ItemKeys(kv, q) == {}
    ensures Pushed(kv, q, value, rand) == Ok(kv[ItemKey(q, 0, rand) := EncodeValue(value)])
    ensures var after := Pushed(kv, q, value, rand).value;
      && ItemKeys(after, q) == {ItemKey(q, 0, rand)}
      && IndexKeys(after, q.queueItem)
      && IndicesWithin(after, q.queueItem, 0, 1)
  {
    NextIndexOfEmpty(kv, q.queueItem);
    assert forall k :: k in kv && q.queueItem.InRange(k) ==> k in ItemKeys(kv, q);
    PushAppends(kv, q, value, rand);
    PackedIndexKey(q.queueItem, 0, rand);
  }

  /** Pushing onto a non-empty queue does not change what the next pop
      takes; the pushed key stays behind. */
  lemma PushKeepsHead(kv: Kv, q: Queue, value: Bytes, rand: Bytes)
    requires IndexKeys(kv, q.queueItem)
    requires IndicesWithin(kv, q.queueItem, TupleCodec.MinInt64, TupleCodec.MaxInt64)
    requires ItemKeys(kv, q) != {}
    ensures Pushed(kv, q, value, rand).Ok?
    ensures var after := Pushed(kv, q, value, rand).value;
      var k := ItemKey(q, GetNextIndex(kv, q.queueItem).value, rand);
      && Popped(after, q).value == Popped(kv, q).value
      && Popped(after, q).removed == Popped(kv, q).removed
      && ItemKeys(Popped(after, q).kv, q) == ItemKeys(Popped(kv, q).kv, q) + {k}
      && Popped(after, q).kv[k] == EncodeValue(value)
  {
    PushAppends(kv, q, value, rand);
    AppendKeepsHead(kv, q, ItemKey(q, GetNextIndex(kv, q.queueItem).value, rand), EncodeValue(value));
  }

  /** Storing a new item key that sorts after every queued one leaves the
      head, and what a pop takes, as they were. */
  lemma AppendKeepsHead(kv: Kv, q: Queue, k: Key, v: Value)
    requires ItemKeys(kv, q) != {} && k !in kv
    requires ItemKeys(kv[k := v], q) == ItemKeys(kv, q) + {k}
    requires forall j :: j in ItemKeys(kv, q) ==> Less(j, k)
    ensures Popped(kv[k := v], q).value == Popped(kv, q).value
    ensures Popped(kv[k := v], q).removed == Popped(kv, q).removed
    ensures ItemKeys(Popped(kv[k := v], q).kv, q) == ItemKeys(Popped(kv, q).kv, q) + {k}
    ensures Popped(kv[k := v], q).kv[k] == v
  {
    var after := kv[k := v];
    var head := Least(ItemKeys(kv, q));
    LessIrreflexive(k);
    LeastUnique(ItemKeys(after, q), head);
    PoppedRemovesHead(kv, q);
    PoppedRemovesHead(after, q);
    KeysInRemove(kv, q.queueItem.RangeKeys(), head);
    KeysInRemove(after, q.queueItem.RangeKeys(), head);
  }

  /** Two pushes onto an empty queue come back out in push order, after
      which the queue is empty again. */
  lemma FirstInFirstOut(kv: Kv, q: Queue, a: Bytes, b: Bytes, ra: Bytes, rb: Bytes)
    requires ItemKeys(kv, q) == {}
    ensures Pushed(kv, q, a, ra).Ok?
    ensures Pushed(Pushed(kv, q, a, ra).value, q, b, rb).Ok?
    ensures var full := Pushed(Pushed(kv, q, a, ra).value, q, b, rb).value;
      var first := Popped(full, q);
      var second := Popped(first.kv, q);
      && first.value == Some(EncodeValue(a))
      && second.value == Some(EncodeValue(b))
      && Empty(second.kv, q)
  {
    PushOntoEmpty(kv, q, a, ra);
    var one := Pushed(kv, q, a, ra).value;
    PopSingle(one, q, ItemKey(q, 0, ra));
    PushKeepsHead(one, q, b, rb);
    var first := Popped(Pushed(one, q, b, rb).value, q);
    PopSingle(first.kv, q, ItemKey(q, GetNextIndex(one, q.queueItem).value, rb));
  }

  /** Popping a queue of one item takes that item and leaves it empty. */
  lemma PopSingle(kv: Kv, q: Queue, k: Key)
    requires ItemKeys(kv, q) == {k}
    ensures k in kv && Popped(kv, q).value == Some(kv[k])
    ensures ItemKeys(Popped(kv, q).kv, q) == {}
  {
    LeastUnique(ItemKeys(kv, q), k);
    PoppedRemovesHead(kv, q);
    KeysInRemove(kv, q.queueItem.RangeKeys(), k);
  }

  // ---------------------------------------------------------------------
  // Operations inside a transaction

  /** Clear: ClearRange over the queue's whole subspace. */
  method Clear(q: Queue, tr: Transaction)
    modifies tr
    ensures tr.kv == ClearedRange(old(tr.kv), q.subspace.RangeKeys())
  {
    tr.ClearRange(q.subspace.RangeKeys());
  }

  /** pushAt: the encoded value under (index, rand) in the item subspace. */
  method PushAt(q: Queue, tr: Transaction, value: Bytes, index: Int64, rand: RandomId)
    modifies tr
    ensures tr.kv == old(tr.kv)[ItemKey(q, index, rand) := EncodeValue(value)]
  {
    var key := q.queueItem.Pack([TupleCodec.Integer(index), TupleCodec.ByteString(rand)]);
    var val := EncodeValue(value);
    tr.Set(key, val);
  }

  /** Push: pushAt at the next index of the item subspace; a failed index
      lookup is a panic and writes nothing. */
  method Push(q: Queue, tr: Transaction, value: Bytes, rand: RandomId) returns (r: Result<()>)
    modifies tr
    ensures Pushed(old(tr.kv), q, value, rand).Ok? ==>
      r == Ok(()) && tr.kv == Pushed(old(tr.kv), q, value, rand).value
    ensures Pushed(old(tr.kv), q, value, rand).Err? ==> r.Err? && tr.kv == old(tr.kv)
  {
    var index := GetNextIndex(tr.kv, q.queueItem);
    if index.Err? {
      return Err(index.error);
    }
    PushAt(q, tr, value, index.value, rand);
    return Ok(());
  }

  /** popSimple: clear the first item and return its stored value. */
  method PopSimple(q: Queue, tr: Transaction) returns (value: Option<Value>)
    modifies tr
    ensures value == Popped(old(tr.kv), q).value
    ensures tr.kv == Popped(old(tr.kv), q).kv
  {
    var first := FirstItem(tr.kv, q);
    if first.Some? {
      tr.Clear(first.value.key);
      return Some(first.value.value);
    }
    return None;
  }

  /** addConflictedPop: unless the waiter subspace's next index is 0 and the
      call is not forced, register a waiter with an empty value at
      (next index, rand) and return its key. */
  method AddConflictedPop(q: Queue, tr: Transaction, forced: bool, rand: RandomId)
    returns (r: Result<Option<Key>>)
    modifies tr
    ensures var next := GetNextIndex(old(tr.kv), q.conflictedPop);
      && (next.Err? ==> r.Err? && tr.kv == old(tr.kv))
      && (next == Ok(0) && !forced ==> r == Ok(None) && tr.kv == old(tr.kv))
      && (next.Ok? && (forced || next.value != 0) ==>
            r == Ok(Some(WaiterKey(q, next.value, rand)))
            && tr.kv == old(tr.kv)[WaiterKey(q, next.value, rand) := []])
  {
    var index := GetNextIndex(tr.kv, q.conflictedPop);
    if index.Err? {
      return Err(index.error);
    }
    if index.value == 0 && !forced {
      return Ok(None);
    }
    var key := q.conflictedPop.Pack([TupleCodec.Integer(index.value), TupleCodec.ByteString(rand)]);
    tr.Set(key, []);
    return Ok(Some(key));
  }

  /** With waiter indices in [0, int64 max), an unforced registration skips
      exactly when nobody is waiting; otherwise the new waiter queues up
      behind every waiter already registered. */
  lemma RegistrationOrder(kv: Kv, q: Queue, rand: Bytes)
    requires IndexKeys(kv, q.conflictedPop)
    requires IndicesWithin(kv, q.conflictedPop, 0, TupleCodec.MaxInt64)
    ensures GetNextIndex(kv, q.conflictedPop).Ok?
    ensures GetNextIndex(kv, q.conflictedPop).value == 0 <==> KeysIn(kv, q.conflictedPop.RangeKeys()) == {}
    ensures var key := WaiterKey(q, GetNextIndex(kv, q.conflictedPop).value, rand);
      && key !in kv && q.conflictedPop.InRange(key)
      && forall j :: j in KeysIn(kv, q.conflictedPop.RangeKeys()) ==> Less(j, key)
  {
    NextIndexZeroIff(kv, q.conflictedPop);
    NextKeyIsLast(kv, q.conflictedPop, rand);
  }

  /** A registration keeps the waiter subspace's shape: every waiter key is
      still an index key, and the indices stay non-negative and at most the
      new waiter's, which is at most the int64 maximum. */
  lemma RegistrationKeepsIndexKeys(kv: Kv, q: Queue, rand: Bytes)
    requires IndexKeys(kv, q.conflictedPop)
    requires IndicesWithin(kv, q.conflictedPop, 0, TupleCodec.MaxInt64)
    ensures GetNextIndex(kv, q.conflictedPop).Ok?
    ensures var n := GetNextIndex(kv, q.conflictedPop).value;
      var after := kv[WaiterKey(q, n, rand) := []];
      && 0 <= n <= TupleCodec.MaxInt64
      && IndexKeys(after, q.conflictedPop)
      && IndicesWithin(after, q.conflictedPop, 0, n + 1)
  {
    NextKeyKeepsIndices(kv, q.conflictedPop, rand, []);
  }

  /** Storing the next key of `sub` keeps every key of `sub` an index key,
      with indices from 0 up to the new one. */
  lemma NextKeyKeepsIndices(kv: Kv, sub: Space, rand: Bytes, v: Value)
    requires IndexKeys(kv, sub) && IndicesWithin(kv, sub, 0, TupleCodec.MaxInt64)
    ensures GetNextIndex(kv, sub).Ok?
    ensures var n := GetNextIndex(kv, sub).value;
      var after := kv[sub.Pack([TupleCodec.Integer(n), TupleCodec.ByteString(rand)]) := v];
      && 0 <= n <= TupleCodec.MaxInt64
      && IndexKeys(after, sub)
      && IndicesWithin(after, sub, 0, n + 1)
  {
    NextKeyIsLast(kv, sub, rand);
    NextIndexBounds(kv, sub);
  }

  /** With indices in [0, int64 max), the next index lies in [0, int64 max]
      and above every stored index. */
  lemma NextIndexBounds(kv: Kv, sub: Space)
    requires IndexKeys(kv, sub) && IndicesWithin(kv, sub, 0, TupleCodec.MaxInt64)
    ensures GetNextIndex(kv, sub).Ok?
    ensures 0 <= GetNextIndex(kv, sub).value <= TupleCodec.MaxInt64
    ensures forall k :: k in kv && sub.InRange(k) ==> KeyIndex(sub, k) < GetNextIndex(kv, sub).value
  {
    if KeysIn(kv, sub.RangeKeys()) == {} {
      NextIndexOfEmpty(kv, sub);
      assert forall k :: k in kv && sub.InRange(k) ==> k in KeysIn(kv, sub.RangeKeys());
    } else {
      NextIndexAboveAll(kv, sub);
    }
  }

  // ---------------------------------------------------------------------
  // The fulfilment sweep

  /** getWaitingPops: the oldest NumPops waiters. */
  function WaitingPops(kv: Kv, q: Queue): seq<KeyValue>
  {
    GetRange(kv, q.conflictedPop.RangeKeys(), NumPops)
  }

  /** getItems: the oldest NumPops items. */
  function Items(kv: Kv, q: Queue): seq<KeyValue>
  {
    GetRange(kv, q.queueItem.RangeKeys(), NumPops)
  }

  /** minLength: the shorter of the two lengths. */
  function MinLength<T>(a: seq<T>, b: seq<T>): (r: nat)
    ensures r <= |a| && r <= |b|
    ensures r == |a| || r == |b|
  {
    if |a| < |b| then |a| else |b|
  }

  /** The random id of a waiter: element 1 of its key's tuple, which must be
      a byte string. */
  function PopRandId(q: Queue, popKey: Key): Result<Bytes>
  {
    match q.conflictedPop.Unpack(popKey)
    case Err(e) => Err(e)
    case Ok(t) =>
      if |t| < 2 then Err("index out of range")
      else if t[1].ByteString? then Ok(t[1].bytes)
      else Err("interface conversion: not a byte string")
  }

  /** The result slot of a waiter: conflictedItemKey of its random id. */
  function SlotFor(q: Queue, popKey: Key): Result<Key>
  {
    match PopRandId(q, popKey)
    case Err(e) => Err(e)
    case Ok(id) => Ok(ConflictedItemKey(q, id))
  }

  /** The result slots of a list of waiters, one per waiter, as the
      matching loop computes them. */
  function SlotsOf(q: Queue, pops: seq<KeyValue>): (r: seq<Result<Key>>)
    ensures |r| == |pops|
    ensures forall i :: 0 <= i < |pops| ==> r[i] == SlotFor(q, pops[i].key)
  {
    seq(|pops|, i requires 0 <= i < |pops| => SlotFor(q, pops[i].key))
  }

  // The matching loop is written over any list of slots, so that what it
  // does to the store is proved once, apart from how the slots are
  // computed; the sweep runs it with SlotsOf(q, pops).

  /** The store after the first `n` rounds of the matching loop: round i
      writes item i's value into waiter i's result slot, then clears waiter
      i and item i; a waiter without a slot stops the loop with its error. */
  function Matched(kv: Kv, slots: seq<Result<Key>>, pops: seq<KeyValue>, items: seq<KeyValue>, n: nat): Result<Kv>
    requires n <= |pops| && n <= |items| && n <= |slots|
  {
    if n == 0 then Ok(kv)
    else
      match Matched(kv, slots, pops, items, n - 1)
      case Err(e) => Err(e)
      case Ok(m) => MatchRound(m, slots[n - 1], pops[n - 1], items[n - 1])
  }

  /** One round: the item's value into the waiter's result slot, then the
      waiter and the item cleared. */
  function MatchRound(m: Kv, slot: Result<Key>, pop: KeyValue, item: KeyValue): Result<Kv>
  {
    match slot
    case Err(e) => Err(e)
    case Ok(slot) => Ok(m[slot := item.value] - {pop.key} - {item.key})
  }

  datatype SweepOutcome = SweepOutcome(kv: Kv, drained: bool)

  /** fulfilConflictedPops as one transaction: match the oldest waiters with
      the oldest items, clear the waiters left over, and report whether
      fewer than NumPops waiters were seen. */
  function Sweep(kv: Kv, q: Queue): Result<SweepOutcome>
  {
    var pops := WaitingPops(kv, q);
    var items := Items(kv, q);
    var n := MinLength(pops, items);
    match Matched(kv, SlotsOf(q, pops), pops, items, n)
    case Err(e) => Err(e)
    case Ok(m) => Ok(SweepOutcome(m - KeysOf(pops[n..]), |pops| < NumPops))
  }

  /** fulfilConflictedPops: runs the sweep in a transaction of its own and
      commits it; a panic inside commits nothing. */
  method FulfilConflictedPops(q: Queue, db: Database) returns (r: Result<bool>)
    modifies db
    ensures Sweep(old(db.kv), q).Err? ==> r.Err? && db.kv == old(db.kv)
    ensures Sweep(old(db.kv), q).Ok? ==>
      r == Ok(Sweep(old(db.kv), q).value.drained) && db.kv == Sweep(old(db.kv), q).value.kv
  {
    var tr := new Transaction(db.kv);
    var pops := WaitingPops(tr.kv, q);
    var items := Items(tr.kv, q);
    var min := MinLength(pops, items);
    var matched := MatchLoop(tr, q, pops, items, min, SlotsOf(q, pops));
    if matched.Err? {
      return Err(matched.error);
    }
    ClearSurplus(tr, pops, min);
    db.kv := tr.kv;
    return Ok(|pops| < NumPops);
  }

  /** The matching loop of fulfilConflictedPops over the first `n` waiters
      and items. */
  method MatchLoop(tr: Transaction, q: Queue, pops: seq<KeyValue>, items: seq<KeyValue>, n: nat,
                   ghost slots: seq<Result<Key>>)
    returns (r: Result<()>)
    requires n <= |pops| && n <= |items| && |slots| == |pops|
    requires forall i {:trigger SlotFor(q, pops[i].key)} :: 0 <= i < |pops| ==> slots[i] == SlotFor(q, pops[i].key)
    modifies tr
    ensures r.Err? <==> Matched(old(tr.kv), slots, pops, items, n).Err?
    ensures r.Ok? ==> Matched(old(tr.kv), slots, pops, items, n) == Ok(tr.kv)
  {
    ghost var kv0 := tr.kv;
    for i := 0 to n
      invariant Matched(kv0, slots, pops, items, i) == Ok(tr.kv)
    {
      ghost var before := tr.kv;
      var done := MatchWaiter(tr, q, pops[i], items[i], slots[i]);
      MatchedNext(kv0, slots, pops, items, i, n, before);
      if done.Err? {
        return Err(done.error);
      }
    }
    return Ok(());
  }

  /** One pass of the matching loop's body: the waiter's random id, its
      result slot, the item's value written there, the waiter and the item
      cleared; a key without an id panics before anything is written. */
  method MatchWaiter(tr: Transaction, q: Queue, pop: KeyValue, item: KeyValue, ghost slot: Result<Key>)
    returns (r: Result<()>)
    requires slot == SlotFor(q, pop.key)
    modifies tr
    ensures r.Err? <==> MatchRound(old(tr.kv), slot, pop, item).Err?
    ensures r.Err? ==> tr.kv == old(tr.kv)
    ensures r.Ok? ==> tr.kv == MatchRound(old(tr.kv), slot, pop, item).value
  {
    var k, v := item.key, item.value;
    var id := PopRandId(q, pop.key);
    if id.Err? {
      return Err(id.error);
    }
    var storageKey := ConflictedItemKey(q, id.value);
    tr.Set(storageKey, v);
    tr.Clear(pop.key);
    tr.Clear(k);
    return Ok(());
  }

  /** The range loop over pops[from:]: clear every left-over waiter. */
  method ClearSurplus(tr: Transaction, pops: seq<KeyValue>, from: nat)
    requires from <= |pops|
    modifies tr
    ensures tr.kv == old(tr.kv) - KeysOf(pops[from..])
  {
    for j := from to |pops|
      invariant tr.kv == old(tr.kv) - KeysOf(pops[from..j])
    {
      tr.Clear(pops[j].key);
      assert pops[from..j + 1] == pops[from..j] + [pops[j]];
      KeysOfSnoc(pops[from..j], pops[j]);
      ClearOneMore(old(tr.kv), KeysOf(pops[from..j]), pops[j].key);
    }
    assert pops[from..|pops|] == pops[from..];
  }

  // ---------------------------------------------------------------------
  // What the matching loop does, for any list of slots

  /** The first `n` waiters all have a slot. */
  predicate Slotted(slots: seq<Result<Key>>, n: nat)
    requires n <= |slots|
  {
    forall i :: 0 <= i < n ==> slots[i].Ok?
  }

  /** No slot of the first `n` rounds is a waiter or an item of them. */
  predicate SlotsApart(slots: seq<Result<Key>>, pops: seq<KeyValue>, items: seq<KeyValue>, n: nat)
    requires n <= |pops| && n <= |items| && n <= |slots| && Slotted(slots, n)
  {
    forall i, j :: 0 <= i < n && 0 <= j < n ==>
      slots[i].value != pops[j].key && slots[i].value != items[j].key
  }

  /** The first `n` waiters have pairwise different slots. */
  predicate SlotsDistinct(slots: seq<Result<Key>>, n: nat)
    requires n <= |slots| && Slotted(slots, n)
  {
    forall i, j :: 0 <= i < j < n ==> slots[i].value != slots[j].value
  }

  /** One round of the matching loop, as the loop body performs it. */
  lemma MatchedStep(kv: Kv, slots: seq<Result<Key>>, pops: seq<KeyValue>, items: seq<KeyValue>, n: nat, m: Kv)
    requires n < |pops| && n < |items| && n < |slots|
    requires Matched(kv, slots, pops, items, n) == Ok(m)
    requires slots[n].Ok?
    ensures Matched(kv, slots, pops, items, n + 1)
      == Ok(m[slots[n].value := items[n].value] - {pops[n].key} - {items[n].key})
  {
  }

  /** A run of the loop succeeds exactly when every waiter it reaches has a
      slot. */
  lemma {:induction false} MatchedOk(kv: Kv, slots: seq<Result<Key>>, pops: seq<KeyValue>, items: seq<KeyValue>, n: nat)
    requires n <= |pops| && n <= |items| && n <= |slots|
    ensures Matched(kv, slots, pops, items, n).Ok? <==> Slotted(slots, n)
    decreases n
  {
    if n > 0 {
      MatchedOk(kv, slots, pops, items, n - 1);
      assert Slotted(slots, n) <==> Slotted(slots, n - 1) && slots[n - 1].Ok?;
    }
  }

  /** A failed round fails every longer run of the loop. */
  lemma MatchedErrPersists(kv: Kv, slots: seq<Result<Key>>, pops: seq<KeyValue>, items: seq<KeyValue>, n: nat, m: nat)
    requires n <= m <= |pops| && m <= |items| && m <= |slots|
    requires Matched(kv, slots, pops, items, n).Err?
    ensures Matched(kv, slots, pops, items, m).Err?
  {
    MatchedOk(kv, slots, pops, items, n);
    MatchedOk(kv, slots, pops, items, m);
  }

  /** One more round from the store the loop has reached; a failed round
      fails the whole run. */
  lemma MatchedNext(kv: Kv, slots: seq<Result<Key>>, pops: seq<KeyValue>, items: seq<KeyValue>, i: nat, n: nat, m: Kv)
    requires i < n <= |pops| && n <= |items| && n <= |slots|
    requires Matched(kv, slots, pops, items, i) == Ok(m)
    ensures Matched(kv, slots, pops, items, i + 1) == MatchRound(m, slots[i], pops[i], items[i])
    ensures MatchRound(m, slots[i], pops[i], items[i]).Err? ==> Matched(kv, slots, pops, items, n).Err?
  {
    if MatchRound(m, slots[i], pops[i], items[i]).Err? {
      MatchedErrPersists(kv, slots, pops, items, i + 1, n);
    }
  }

  /** After n rounds with distinct slots, waiter i's slot holds item i's value. */
  lemma {:induction false} MatchedFills(kv: Kv, slots: seq<Result<Key>>, pops: seq<KeyValue>, items: seq<KeyValue>, n: nat)
    requires n <= |pops| && n <= |items| && n <= |slots| && Slotted(slots, n)
    requires SlotsApart(slots, pops, items, n) && SlotsDistinct(slots, n)
    ensures Matched(kv, slots, pops, items, n).Ok?
    ensures forall i :: 0 <= i < n ==>
      slots[i].value in Matched(kv, slots, pops, items, n).value
      && Matched(kv, slots, pops, items, n).value[slots[i].value] == items[i].value
    decreases n
  {
    MatchedOk(kv, slots, pops, items, n);
    if n > 0 {
      assert Slotted(slots, n - 1);
      assert SlotsApart(slots, pops, items, n - 1) && SlotsDistinct(slots, n - 1);
      MatchedFills(kv, slots, pops, items, n - 1);
      var m0 := Matched(kv, slots, pops, items, n - 1).value;
      MatchedStep(kv, slots, pops, items, n - 1, m0);
      var slot := slots[n - 1].value;
      var m := m0[slot := items[n - 1].value] - {pops[n - 1].key} - {items[n - 1].key};
      assert slot != pops[n - 1].key && slot != items[n - 1].key;
      forall i | 0 <= i < n ensures slots[i].value in m && m[slots[i].value] == items[i].value {
        var s := slots[i].value;
        if i < n - 1 {
          assert s in m0 && m0[s] == items[i].value;
          assert s != slot;
          assert s != pops[n - 1].key && s != items[n - 1].key;
          RoundKeeps(m0, slot, items[n - 1].value, pops[n - 1].key, items[n - 1].key, s);
        } else {
          RoundWrites(m0, slot, items[n - 1].value, pops[n - 1].key, items[n - 1].key);
        }
      }
    }
  }

  /** A round leaves every key other than its slot, waiter and item as it
      was. */
  lemma RoundKeeps(m: Kv, slot: Key, v: Value, pop: Key, item: Key, k: Key)
    requires k != slot && k != pop && k != item
    ensures k in m[slot := v] - {pop} - {item} <==> k in m
    ensures k in m ==> (m[slot := v] - {pop} - {item})[k] == m[k]
  {
  }

  /** A round's slot holds the round's value, unless the slot is the
      round's own waiter or item. */
  lemma RoundWrites(m: Kv, slot: Key, v: Value, pop: Key, item: Key)
    requires slot != pop && slot != item
    ensures slot in m[slot := v] - {pop} - {item}
    ensures (m[slot := v] - {pop} - {item})[slot] == v
  {
  }

  /** After n rounds, waiters and items 0 .. n-1 are gone. */
  lemma {:induction false} MatchedClears(kv: Kv, slots: seq<Result<Key>>, pops: seq<KeyValue>, items: seq<KeyValue>, n: nat)
    requires n <= |pops| && n <= |items| && n <= |slots| && Slotted(slots, n) && SlotsApart(slots, pops, items, n)
    ensures Matched(kv, slots, pops, items, n).Ok?
    ensures forall i :: 0 <= i < n ==>
      pops[i].key !in Matched(kv, slots, pops, items, n).value && items[i].key !in Matched(kv, slots, pops, items, n).value
    decreases n
  {
    MatchedOk(kv, slots, pops, items, n);
    if n > 0 {
      assert Slotted(slots, n - 1) && SlotsApart(slots, pops, items, n - 1);
      MatchedClears(kv, slots, pops, items, n - 1);
      var m0 := Matched(kv, slots, pops, items, n - 1).value;
      MatchedStep(kv, slots, pops, items, n - 1, m0);
      var slot := slots[n - 1].value;
      var m := m0[slot := items[n - 1].value] - {pops[n - 1].key} - {items[n - 1].key};
      forall i | 0 <= i < n ensures pops[i].key !in m && items[i].key !in m {
        if i < n - 1 {
          assert pops[i].key !in m0 && items[i].key !in m0;
          assert slot != pops[i].key && slot != items[i].key;
          assert pops[i].key !in m0[slot := items[n - 1].value];
          assert items[i].key !in m0[slot := items[n - 1].value];
        }
      }
    }
  }

  /** A key that is no slot, waiter or item of the first n rounds keeps its
      presence and its value. */
  lemma {:induction false} MatchedFrame(kv: Kv, slots: seq<Result<Key>>, pops: seq<KeyValue>, items: seq<KeyValue>, n: nat, k: Key)
    requires n <= |pops| && n <= |items| && n <= |slots| && Slotted(slots, n)
    requires forall i :: 0 <= i < n ==> k != slots[i].value && k != pops[i].key && k != items[i].key
    ensures Matched(kv, slots, pops, items, n).Ok?
    ensures k in Matched(kv, slots, pops, items, n).value <==> k in kv
    ensures k in kv ==> Matched(kv, slots, pops, items, n).value[k] == kv[k]
    decreases n
  {
    MatchedOk(kv, slots, pops, items, n);
    if n > 0 {
      assert k != slots[n - 1].value && k != pops[n - 1].key && k != items[n - 1].key;
      assert Slotted(slots, n - 1);
      MatchedFrame(kv, slots, pops, items, n - 1, k);
      var m0 := Matched(kv, slots, pops, items, n - 1).value;
      MatchedStep(kv, slots, pops, items, n - 1, m0);
      RoundKeeps(m0, slots[n - 1].value, items[n - 1].value, pops[n - 1].key, items[n - 1].key, k);
    }
  }

  /** A key no waiter of the listing has, and no slot or item of the first
      n rounds, survives the rounds and the clearing of the waiters left
      over. */
  lemma MatchedKeepsUnlisted(kv: Kv, slots: seq<Result<Key>>, pops: seq<KeyValue>, items: seq<KeyValue>, n: nat, k: Key)
    requires n <= |pops| && n <= |items| && n <= |slots| && Slotted(slots, n)
    requires k !in KeysOf(pops)
    requires forall i :: 0 <= i < n ==> k != items[i].key && k != slots[i].value
    ensures Matched(kv, slots, pops, items, n).Ok?
    ensures var after := Matched(kv, slots, pops, items, n).value - KeysOf(pops[n..]);
      (k in after <==> k in kv) && (k in kv ==> after[k] == kv[k])
  {
    forall i | 0 <= i < n ensures k != pops[i].key {
      KeysOfMember(pops, i);
    }
    MatchedFrame(kv, slots, pops, items, n, k);
    KeysOfSuffixWithin(pops, n, k);
  }

  /** Apart from the slots it writes, the loop only removes keys. */
  lemma {:induction false} MatchedOnlyRemoves(kv: Kv, slots: seq<Result<Key>>, pops: seq<KeyValue>, items: seq<KeyValue>, n: nat)
    requires n <= |pops| && n <= |items| && n <= |slots| && Slotted(slots, n)
    ensures Matched(kv, slots, pops, items, n).Ok?
    ensures forall k :: k in Matched(kv, slots, pops, items, n).value && (forall i :: 0 <= i < n ==> k != slots[i].value) ==>
      k in kv && Matched(kv, slots, pops, items, n).value[k] == kv[k]
    decreases n
  {
    MatchedOk(kv, slots, pops, items, n);
    if n > 0 {
      assert Slotted(slots, n - 1);
      MatchedOnlyRemoves(kv, slots, pops, items, n - 1);
      var m0 := Matched(kv, slots, pops, items, n - 1).value;
      MatchedStep(kv, slots, pops, items, n - 1, m0);
      var slot := slots[n - 1].value;
      var m := m0[slot := items[n - 1].value] - {pops[n - 1].key} - {items[n - 1].key};
      forall k | k in m && (forall i :: 0 <= i < n ==> k != slots[i].value)
        ensures k in kv && m[k] == kv[k]
      {
        assert k != slot;
        assert forall i :: 0 <= i < n - 1 ==> k != slots[i].value;
      }
    }
  }

  // ---------------------------------------------------------------------
  // The queue's slots

  /** What the matching loop relies on, and range reads guarantee (see
      SweepInputsHold): waiters are keys of `pop`, items keys of `item`,
      and no item is listed twice. */
  predicate SweepInputs(q: Queue, pops: seq<KeyValue>, items: seq<KeyValue>)
  {
    && Layout(q)
    && (forall i :: 0 <= i < |pops| ==> q.conflictedPop.InRange(pops[i].key))
    && (forall i :: 0 <= i < |items| ==> q.queueItem.InRange(items[i].key))
    && (forall i, j :: 0 <= i < j < |items| ==> items[i].key != items[j].key)
  }

  /** The first `n` waiters all carry a random id. */
  predicate IdsOk(q: Queue, pops: seq<KeyValue>, n: nat)
    requires n <= |pops|
  {
    forall i :: 0 <= i < n ==> PopRandId(q, pops[i].key).Ok?
  }

  /** The first `n` waiters carry pairwise different ids. */
  predicate DistinctIds(q: Queue, pops: seq<KeyValue>, n: nat)
    requires n <= |pops| && IdsOk(q, pops, n)
  {
    forall i, j :: 0 <= i < j < n ==> PopRandId(q, pops[i].key).value != PopRandId(q, pops[j].key).value
  }

  /** The result slot of waiter i. */
  function Slot(q: Queue, pops: seq<KeyValue>, i: nat): Key
    requires i < |pops| && PopRandId(q, pops[i].key).Ok?
  {
    SlotFor(q, pops[i].key).value
  }

  /** A waiter has a slot exactly when it carries an id, and the slot is
      conflictedItemKey of the id. */
  lemma IdsOkSlotted(q: Queue, pops: seq<KeyValue>, n: nat)
    requires n <= |pops|
    ensures IdsOk(q, pops, n) <==> Slotted(SlotsOf(q, pops), n)
    ensures IdsOk(q, pops, n) ==> forall i :: 0 <= i < n ==> SlotsOf(q, pops)[i].value == Slot(q, pops, i)
  {
  }

  /** Every result slot is a key of the conflict subspace, so it is no
      waiter and no item. */
  lemma SlotOutsideRound(q: Queue, pop: KeyValue, item: KeyValue, id: Bytes)
    requires Layout(q) && q.conflictedPop.InRange(pop.key) && q.queueItem.InRange(item.key)
    ensures ConflictedItemKey(q, id) != pop.key && ConflictedItemKey(q, id) != item.key
  {
    SlotInConflictSubspace(q, id);
    LayoutSeparates(q, pop.key);
    LayoutSeparates(q, item.key);
  }

  lemma QueueSlotsApart(q: Queue, pops: seq<KeyValue>, items: seq<KeyValue>, n: nat)
    requires n <= |pops| && n <= |items| && SweepInputs(q, pops, items) && IdsOk(q, pops, n)
    ensures Slotted(SlotsOf(q, pops), n) && SlotsApart(SlotsOf(q, pops), pops, items, n)
  {
    IdsOkSlotted(q, pops, n);
    forall i, j | 0 <= i < n && 0 <= j < n
      ensures Slot(q, pops, i) != pops[j].key && Slot(q, pops, i) != items[j].key
    {
      SlotOutsideRound(q, pops[j], items[j], PopRandId(q, pops[i].key).value);
    }
  }

  /** Waiters with different ids have different slots. */
  lemma QueueSlotsDistinct(q: Queue, pops: seq<KeyValue>, n: nat)
    requires n <= |pops| && IdsOk(q, pops, n) && DistinctIds(q, pops, n)
    ensures Slotted(SlotsOf(q, pops), n) && SlotsDistinct(SlotsOf(q, pops), n)
  {
    IdsOkSlotted(q, pops, n);
    forall i, j | 0 <= i < j < n ensures Slot(q, pops, i) != Slot(q, pops, j) {
      if Slot(q, pops, i) == Slot(q, pops, j) {
        ConflictedItemKeyInjective(q, PopRandId(q, pops[i].key).value, PopRandId(q, pops[j].key).value);
      }
    }
  }

  /** Every slot the queue's loop writes lies in the conflict subspace. */
  lemma QueueSlotsInConflictSubspace(q: Queue, pops: seq<KeyValue>, n: nat)
    requires n <= |pops| && IdsOk(q, pops, n)
    ensures Slotted(SlotsOf(q, pops), n)
    ensures forall i :: 0 <= i < n ==> q.conflictedItem.InRange(SlotsOf(q, pops)[i].value)
  {
    IdsOkSlotted(q, pops, n);
    forall i | 0 <= i < n ensures q.conflictedItem.InRange(Slot(q, pops, i)) {
      SlotInConflictSubspace(q, PopRandId(q, pops[i].key).value);
    }
  }

  // ---------------------------------------------------------------------
  // The sweep as a whole

  /** The range reads the sweep starts from: the oldest NumPops waiters and
      items in ascending key order, with their stored values. */
  lemma SweepInputsHold(kv: Kv, q: Queue)
    requires Layout(q)
    ensures SweepInputs(q, WaitingPops(kv, q), Items(kv, q))
    ensures var pops := WaitingPops(kv, q);
      forall i :: 0 <= i < |pops| ==> pops[i].key in kv && pops[i].value == kv[pops[i].key]
    ensures var items := Items(kv, q);
      forall i :: 0 <= i < |items| ==> items[i].key in kv && items[i].value == kv[items[i].key]
  {
    var pops, items := WaitingPops(kv, q), Items(kv, q);
    assert pops == FirstPairs(kv, q.conflictedPop.RangeKeys(), NumPops);
    assert items == FirstPairs(kv, q.queueItem.RangeKeys(), NumPops);
    FirstPairsMembers(kv, q.conflictedPop.RangeKeys(), NumPops);
    FirstPairsMembers(kv, q.queueItem.RangeKeys(), NumPops);
    FirstPairsAscending(kv, q.queueItem.RangeKeys(), NumPops);
    forall i | 0 <= i < |pops| ensures q.conflictedPop.InRange(pops[i].key) {
      assert q.conflictedPop.RangeKeys().Contains(pops[i].key);
    }
    forall i | 0 <= i < |items| ensures q.queueItem.InRange(items[i].key) {
      assert q.queueItem.RangeKeys().Contains(items[i].key);
    }
    forall i, j | 0 <= i < j < |items| ensures items[i].key != items[j].key {
      LessIrreflexive(items[i].key);
    }
  }

  /** Waiter i is the i-th oldest waiter and item i the i-th oldest item:
      both lists ascend, every waiter or item left out is younger than all
      listed, and each list is as long as it can be up to NumPops. */
  lemma SweepReadsOldest(kv: Kv, q: Queue)
    ensures var pops := WaitingPops(kv, q);
      var waiting := KeysIn(kv, q.conflictedPop.RangeKeys());
      && |pops| == Min(NumPops, |waiting|)
      && (forall i, j :: 0 <= i < j < |pops| ==> Less(pops[i].key, pops[j].key))
      && (forall k :: k in waiting && k !in KeysOf(pops) ==>
            forall i :: 0 <= i < |pops| ==> Less(pops[i].key, k))
    ensures var items := Items(kv, q);
      var queued := ItemKeys(kv, q);
      && |items| == Min(NumPops, |queued|)
      && (forall i, j :: 0 <= i < j < |items| ==> Less(items[i].key, items[j].key))
      && (forall k :: k in queued && k !in KeysOf(items) ==>
            forall i :: 0 <= i < |items| ==> Less(items[i].key, k))
  {
    FirstPairsLength(kv, q.conflictedPop.RangeKeys(), NumPops);
    FirstPairsAscending(kv, q.conflictedPop.RangeKeys(), NumPops);
    FirstPairsBeforeOmitted(kv, q.conflictedPop.RangeKeys(), NumPops);
    FirstPairsLength(kv, q.queueItem.RangeKeys(), NumPops);
    FirstPairsAscending(kv, q.queueItem.RangeKeys(), NumPops);
    FirstPairsBeforeOmitted(kv, q.queueItem.RangeKeys(), NumPops);
  }

  /** The sweep fails (a panic) exactly when a waiter it matches has a key
      that does not carry a random id. */
  lemma SweepFails(kv: Kv, q: Queue)
    ensures var pops := WaitingPops(kv, q);
      var n := MinLength(pops, Items(kv, q));
      Sweep(kv, q).Err? <==> !IdsOk(q, pops, n)
  {
    var pops, items := WaitingPops(kv, q), Items(kv, q);
    var n := MinLength(pops, items);
    MatchedOk(kv, SlotsOf(q, pops), pops, items, n);
    IdsOkSlotted(q, pops, n);
  }

  /** The sweep reports "drained" exactly when fewer than NumPops waiters
      were registered. */
  lemma SweepDrained(kv: Kv, q: Queue)
    requires Sweep(kv, q).Ok?
    ensures Sweep(kv, q).value.drained <==> |KeysIn(kv, q.conflictedPop.RangeKeys())| < NumPops
  {
    FirstPairsLength(kv, q.conflictedPop.RangeKeys(), NumPops);
  }

  /** The left-over waiters are waiter keys. */
  lemma SurplusAreWaiters(q: Queue, pops: seq<KeyValue>, n: nat, k: Key)
    requires n <= |pops| && k in KeysOf(pops[n..])
    requires forall i :: 0 <= i < |pops| ==> q.conflictedPop.InRange(pops[i].key)
    ensures q.conflictedPop.InRange(k)
  {
    var i :| 0 <= i < |pops[n..]| && pops[n..][i].key == k;
    assert pops[n + i].key == k;
  }

  /** Each matched waiter's result slot holds the value of the item matched
      with it (waiters with distinct ids). */
  lemma SweepFillsSlots(kv: Kv, q: Queue)
    requires Layout(q)
    requires var pops := WaitingPops(kv, q);
      var n := MinLength(pops, Items(kv, q));
      IdsOk(q, pops, n) && DistinctIds(q, pops, n)
    ensures Sweep(kv, q).Ok?
    ensures var pops, items := WaitingPops(kv, q), Items(kv, q);
      var n := MinLength(pops, items);
      var after := Sweep(kv, q).value.kv;
      forall i :: 0 <= i < n ==>
        Slot(q, pops, i) in after && after[Slot(q, pops, i)] == items[i].value
  {
    var pops, items := WaitingPops(kv, q), Items(kv, q);
    var n := MinLength(pops, items);
    SweepInputsHold(kv, q);
    QueueMatchFills(kv, q, pops, items, n);
  }

  /** The queue's matching loop over waiters and items read from their
      subspaces fills each slot with its item's value, and no slot is a
      left-over waiter. */
  lemma QueueMatchFills(kv: Kv, q: Queue, pops: seq<KeyValue>, items: seq<KeyValue>, n: nat)
    requires n <= |pops| && n <= |items| && SweepInputs(q, pops, items)
    requires IdsOk(q, pops, n) && DistinctIds(q, pops, n)
    ensures Matched(kv, SlotsOf(q, pops), pops, items, n).Ok?
    ensures forall i :: 0 <= i < n ==>
      && Slot(q, pops, i) in Matched(kv, SlotsOf(q, pops), pops, items, n).value
      && Matched(kv, SlotsOf(q, pops), pops, items, n).value[Slot(q, pops, i)] == items[i].value
      && Slot(q, pops, i) !in KeysOf(pops[n..])
  {
    QueueSlotsApart(q, pops, items, n);
    QueueSlotsDistinct(q, pops, n);
    IdsOkSlotted(q, pops, n);
    MatchedFills(kv, SlotsOf(q, pops), pops, items, n);
    forall i | 0 <= i < n ensures Slot(q, pops, i) !in KeysOf(pops[n..]) {
      SlotInConflictSubspace(q, PopRandId(q, pops[i].key).value);
      LayoutSeparates(q, Slot(q, pops, i));
      if Slot(q, pops, i) in KeysOf(pops[n..]) {
        SurplusAreWaiters(q, pops, n, Slot(q, pops, i));
      }
    }
  }

  /** Every waiter the sweep saw is cleared, and so is every item it
      matched. */
  lemma SweepClearsMatched(kv: Kv, q: Queue)
    requires Layout(q)
    requires IdsOk(q, WaitingPops(kv, q), MinLength(WaitingPops(kv, q), Items(kv, q)))
    ensures Sweep(kv, q).Ok?
    ensures var pops, items := WaitingPops(kv, q), Items(kv, q);
      var n := MinLength(pops, items);
      var after := Sweep(kv, q).value.kv;
      && (forall i :: 0 <= i < |pops| ==> pops[i].key !in after)
      && (forall i :: 0 <= i < n ==> items[i].key !in after)
  {
    var pops, items := WaitingPops(kv, q), Items(kv, q);
    var n := MinLength(pops, items);
    SweepInputsHold(kv, q);
    QueueSlotsApart(q, pops, items, n);
    MatchedClears(kv, SlotsOf(q, pops), pops, items, n);
    var m := Matched(kv, SlotsOf(q, pops), pops, items, n).value;
    var after := m - KeysOf(pops[n..]);
    assert Sweep(kv, q).value.kv == after;
    forall i | 0 <= i < |pops| ensures pops[i].key !in after {
      if i >= n {
        KeysOfSuffix(pops, n, i);
      }
    }
  }

  /** The items beyond the matched ones stay queued, with their values. */
  lemma SweepKeepsLaterItems(kv: Kv, q: Queue)
    requires Layout(q)
    requires IdsOk(q, WaitingPops(kv, q), MinLength(WaitingPops(kv, q), Items(kv, q)))
    ensures Sweep(kv, q).Ok?
    ensures var pops, items := WaitingPops(kv, q), Items(kv, q);
      var n := MinLength(pops, items);
      var after := Sweep(kv, q).value.kv;
      forall i :: n <= i < |items| ==>
        items[i].key in kv && items[i].key in after && after[items[i].key] == kv[items[i].key]
  {
    var pops, items := WaitingPops(kv, q), Items(kv, q);
    var n := MinLength(pops, items);
    SweepInputsHold(kv, q);
    QueueSlotsInConflictSubspace(q, pops, n);
    MatchedOk(kv, SlotsOf(q, pops), pops, items, n);
    forall i | n <= i < |items|
      ensures items[i].key in kv && items[i].key in Sweep(kv, q).value.kv
        && Sweep(kv, q).value.kv[items[i].key] == kv[items[i].key]
    {
      var k := items[i].key;
      LayoutSeparates(q, k);
      forall j | 0 <= j < n
        ensures k != SlotsOf(q, pops)[j].value && k != pops[j].key && k != items[j].key
      {
        LayoutSeparates(q, pops[j].key);
      }
      MatchedFrame(kv, SlotsOf(q, pops), pops, items, n, k);
      if k in KeysOf(pops[n..]) {
        SurplusAreWaiters(q, pops, n, k);
      }
    }
  }

  /** Every key the sweep neither read as a waiter, nor matched as an item,
      nor wrote as a matched waiter's slot keeps its presence and its value:
      items and waiters beyond the NumPops read, and result slots of
      earlier sweeps, survive unchanged. */
  lemma SweepKeepsOthers(kv: Kv, q: Queue)
    requires Sweep(kv, q).Ok?
    ensures var pops, items := WaitingPops(kv, q), Items(kv, q);
      var n := MinLength(pops, items);
      var after := Sweep(kv, q).value.kv;
      && IdsOk(q, pops, n)
      && forall k :: k !in KeysOf(pops) && (forall i :: 0 <= i < n ==> k != items[i].key && k != Slot(q, pops, i)) ==>
           (k in after <==> k in kv) && (k in kv ==> after[k] == kv[k])
  {
    var pops, items := WaitingPops(kv, q), Items(kv, q);
    var n := MinLength(pops, items);
    SweepIsMatched(kv, q);
    QueueMatchKeepsOthers(kv, q, pops, items, n);
  }

  /** A sweep that succeeds is the matching loop's map less the surplus
      waiters, and every waiter it matched carried an id. */
  lemma SweepIsMatched(kv: Kv, q: Queue)
    requires Sweep(kv, q).Ok?
    ensures var pops, items := WaitingPops(kv, q), Items(kv, q);
      var n := MinLength(pops, items);
      && IdsOk(q, pops, n)
      && Matched(kv, SlotsOf(q, pops), pops, items, n).Ok?
      && Sweep(kv, q).value.kv == Matched(kv, SlotsOf(q, pops), pops, items, n).value - KeysOf(pops[n..])
  {
    SweepFails(kv, q);
  }

  /** The queue's two loops leave alone every key that is no waiter read,
      no matched item and no matched waiter's slot. */
  lemma QueueMatchKeepsOthers(kv: Kv, q: Queue, pops: seq<KeyValue>, items: seq<KeyValue>, n: nat)
    requires n <= |pops| && n <= |items| && IdsOk(q, pops, n)
    ensures Matched(kv, SlotsOf(q, pops), pops, items, n).Ok?
    ensures forall k :: k !in KeysOf(pops) && (forall i :: 0 <= i < n ==> k != items[i].key && k != Slot(q, pops, i)) ==>
      && (k in Matched(kv, SlotsOf(q, pops), pops, items, n).value - KeysOf(pops[n..]) <==> k in kv)
      && (k in kv ==> (Matched(kv, SlotsOf(q, pops), pops, items, n).value - KeysOf(pops[n..]))[k] == kv[k])
  {
    IdsOkSlotted(q, pops, n);
    MatchedOk(kv, SlotsOf(q, pops), pops, items, n);
    forall k | k !in KeysOf(pops) && (forall i :: 0 <= i < n ==> k != items[i].key && k != Slot(q, pops, i))
      ensures && (k in Matched(kv, SlotsOf(q, pops), pops, items, n).value - KeysOf(pops[n..]) <==> k in kv)
        && (k in kv ==> (Matched(kv, SlotsOf(q, pops), pops, items, n).value - KeysOf(pops[n..]))[k] == kv[k])
    {
      MatchedKeepsUnlisted(kv, SlotsOf(q, pops), pops, items, n, k);
    }
  }

  /** Nothing outside the waiter, item and result-slot subspaces changes. */
  lemma SweepStaysInQueue(kv: Kv, q: Queue)
    requires Layout(q)
    requires Sweep(kv, q).Ok?
    ensures var after := Sweep(kv, q).value.kv;
      forall k :: !q.conflictedPop.InRange(k) && !q.queueItem.InRange(k) && !q.conflictedItem.InRange(k) ==>
        (k in after <==> k in kv) && (k in kv ==> after[k] == kv[k])
  {
    var pops, items := WaitingPops(kv, q), Items(kv, q);
    var n := MinLength(pops, items);
    SweepFails(kv, q);
    SweepInputsHold(kv, q);
    QueueSlotsInConflictSubspace(q, pops, n);
    forall k | !q.conflictedPop.InRange(k) && !q.queueItem.InRange(k) && !q.conflictedItem.InRange(k)
      ensures (k in Sweep(kv, q).value.kv <==> k in kv) && (k in kv ==> Sweep(kv, q).value.kv[k] == kv[k])
    {
      assert forall j :: 0 <= j < n ==> k != SlotsOf(q, pops)[j].value && k != pops[j].key && k != items[j].key;
      MatchedFrame(kv, SlotsOf(q, pops), pops, items, n, k);
      if k in KeysOf(pops[n..]) {
        SurplusAreWaiters(q, pops, n, k);
      }
    }
  }

  /** The sweep writes nowhere but the matched waiters' result slots: any
      key it adds or changes is the slot of some waiter i < min, and that
      slot got item i's value (SweepFillsSlots), so each item reaches one
      slot only. */
  lemma SweepWritesOnlySlots(kv: Kv, q: Queue)
    requires Sweep(kv, q).Ok?
    ensures var pops, items := WaitingPops(kv, q), Items(kv, q);
      var n := MinLength(pops, items);
      var after := Sweep(kv, q).value.kv;
      && IdsOk(q, pops, n)
      && forall k :: k in after && (k !in kv || after[k] != kv[k]) ==>
           exists i :: 0 <= i < n && k == Slot(q, pops, i)
  {
    var pops, items := WaitingPops(kv, q), Items(kv, q);
    var n := MinLength(pops, items);
    SweepFails(kv, q);
    IdsOkSlotted(q, pops, n);
    MatchedOnlyRemoves(kv, SlotsOf(q, pops), pops, items, n);
    var m := Matched(kv, SlotsOf(q, pops), pops, items, n).value;
    var after := m - KeysOf(pops[n..]);
    assert Sweep(kv, q).value.kv == after;
    forall k | k in after && (k !in kv || after[k] != kv[k])
      ensures exists i :: 0 <= i < n && k == Slot(q, pops, i)
    {
      assert k in m && after[k] == m[k];
    }
  }

  /** The sweep keeps the queue's key shapes: item and waiter keys stay
      index keys, with their indices in whatever bounds they had. */
  lemma SweepKeepsIndexKeys(kv: Kv, q: Queue, lo: int, hi: int)
    requires Layout(q) && Sweep(kv, q).Ok?
    requires IndexKeys(kv, q.queueItem) && IndicesWithin(kv, q.queueItem, lo, hi)
    requires IndexKeys(kv, q.conflictedPop) && IndicesWithin(kv, q.conflictedPop, lo, hi)
    ensures var after := Sweep(kv, q).value.kv;
      && IndexKeys(after, q.queueItem) && IndicesWithin(after, q.queueItem, lo, hi)
      && IndexKeys(after, q.conflictedPop) && IndicesWithin(after, q.conflictedPop, lo, hi)
  {
    var pops, items := WaitingPops(kv, q), Items(kv, q);
    var n := MinLength(pops, items);
    SweepFails(kv, q);
    QueueSlotsInConflictSubspace(q, pops, n);
    MatchedOnlyRemoves(kv, SlotsOf(q, pops), pops, items, n);
    var after := Sweep(kv, q).value.kv;
    forall k | k in after && (q.queueItem.InRange(k) || q.conflictedPop.InRange(k)) ensures k in kv {
      LayoutSeparates(q, k);
    }
  }
}
