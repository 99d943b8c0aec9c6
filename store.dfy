/**
  The ordered transactional key-value store, as the queue sees it: a finite
  map from byte keys to byte values, ordered by ByteOrder.Less.  A
  transaction is an object holding its view of that map (reads see the
  transaction's own writes); a database is the committed map.  Conflict
  detection, snapshot reads and retries are not part of this model.
 */
module Store {
  import opened Wrappers
  import opened ByteOrder

  type Key = Bytes
  type Value = Bytes
  type Kv = map<Key, Value>

  datatype KeyValue = KeyValue(key: Key, value: Value)

  /** The keys of `kv` inside range `r`. */
  function KeysIn(kv: Kv, r: KeyRange): set<Key>
  {
    set k | k in kv && r.Contains(k)
  }

  function KeysOf(s: seq<KeyValue>): set<Key>
  {
    set i | 0 <= i < |s| :: s[i].key
  }

  function Min(a: nat, b: nat): nat
  {
    if a < b then a else b
  }

  /** GetKey(LastLessThan(end)): the greatest key below `end`, or the empty
      key (the start of the key space) when there is none. */
  function LastLessThan(kv: Kv, end: Key): (k: Key)
    ensures (exists j :: j in kv && Less(j, end)) ==>
              k in kv && Less(k, end) && forall j :: j in kv && Less(j, end) ==> LessEq(j, k)
    ensures (forall j :: j in kv ==> !Less(j, end)) ==> k == []
  {
    var below := set j | j in kv && Less(j, end);
    if below == {} then
      assert forall j :: j in kv && Less(j, end) ==> j in below;
      []
    else Greatest(below)
  }

  /** The `n` least pairs of `kv` inside `r`, in ascending key order. */
  function FirstPairs(kv: Kv, r: KeyRange, n: nat): (s: seq<KeyValue>)
    decreases n
  {
    var keys := KeysIn(kv, r);
    if n == 0 || keys == {} then []
    else
      var k := Least(keys);
      [KeyValue(k, kv[k])] + FirstPairs(kv - {k}, r, n - 1)
  }

  /** Removing a key from the map removes it from every range view. */
  lemma KeysInRemove(kv: Kv, r: KeyRange, k: Key)
    ensures KeysIn(kv - {k}, r) == KeysIn(kv, r) - {k}
  {
  }

  /** One step of a range read: the least key of the range, then the rest. */
  lemma FirstPairsStep(kv: Kv, r: KeyRange, n: nat)
    requires n > 0 && KeysIn(kv, r) != {}
    ensures var k := Least(KeysIn(kv, r));
      && FirstPairs(kv, r, n) == [KeyValue(k, kv[k])] + FirstPairs(kv - {k}, r, n - 1)
      && KeysIn(kv - {k}, r) == KeysIn(kv, r) - {k}
      && (forall j :: j in KeysIn(kv, r) && j != k ==> Less(k, j))
  {
    var k := Least(KeysIn(kv, r));
    KeysInRemove(kv, r, k);
  }

  /** A range read returns min(n, |keys in r|) pairs. */
  lemma {:induction false} FirstPairsLength(kv: Kv, r: KeyRange, n: nat)
    ensures |FirstPairs(kv, r, n)| == Min(n, |KeysIn(kv, r)|)
    decreases n
  {
    if n > 0 && KeysIn(kv, r) != {} {
      var k := Least(KeysIn(kv, r));
      FirstPairsStep(kv, r, n);
      FirstPairsLength(kv - {k}, r, n - 1);
    }
  }

  /** Every returned pair is a pair of `kv` inside `r`. */
  lemma {:induction false} FirstPairsMembers(kv: Kv, r: KeyRange, n: nat)
    ensures forall i :: 0 <= i < |FirstPairs(kv, r, n)| ==>
      FirstPairs(kv, r, n)[i].key in kv && r.Contains(FirstPairs(kv, r, n)[i].key)
    ensures forall i :: 0 <= i < |FirstPairs(kv, r, n)| ==>
      FirstPairs(kv, r, n)[i].key in kv && FirstPairs(kv, r, n)[i].value == kv[FirstPairs(kv, r, n)[i].key]
    decreases n
  {
    if n > 0 && KeysIn(kv, r) != {} {
      var k := Least(KeysIn(kv, r));
      FirstPairsStep(kv, r, n);
      FirstPairsMembers(kv - {k}, r, n - 1);
      var s := FirstPairs(kv, r, n);
      var tail := FirstPairs(kv - {k}, r, n - 1);
      assert forall i :: 1 <= i < |s| ==> s[i] == tail[i - 1];
    }
  }

  /** The pairs come in strictly ascending key order. */
  lemma {:induction false} FirstPairsAscending(kv: Kv, r: KeyRange, n: nat)
    ensures var s := FirstPairs(kv, r, n);
      forall i, j :: 0 <= i < j < |s| ==> Less(s[i].key, s[j].key)
    decreases n
  {
    if n > 0 && KeysIn(kv, r) != {} {
      var k := Least(KeysIn(kv, r));
      FirstPairsStep(kv, r, n);
      FirstPairsAscending(kv - {k}, r, n - 1);
      FirstPairsMembers(kv - {k}, r, n - 1);
      var s := FirstPairs(kv, r, n);
      var tail := FirstPairs(kv - {k}, r, n - 1);
      assert forall i :: 1 <= i < |s| ==> s[i] == tail[i - 1];
    }
  }

  /** Every key of `r` the read leaves out sorts after every key it returns. */
  lemma {:induction false} FirstPairsBeforeOmitted(kv: Kv, r: KeyRange, n: nat)
    ensures var s := FirstPairs(kv, r, n);
      forall x :: x in KeysIn(kv, r) && x !in KeysOf(s) ==>
        forall i :: 0 <= i < |s| ==> Less(s[i].key, x)
    decreases n
  {
    if n > 0 && KeysIn(kv, r) != {} {
      var k := Least(KeysIn(kv, r));
      FirstPairsStep(kv, r, n);
      FirstPairsBeforeOmitted(kv - {k}, r, n - 1);
      var s := FirstPairs(kv, r, n);
      var tail := FirstPairs(kv - {k}, r, n - 1);
      assert forall i :: 1 <= i < |s| ==> s[i] == tail[i - 1];
      assert s[0].key == k;
      KeysOfTail(s);
      forall x | x in KeysIn(kv, r) && x !in KeysOf(s)
        ensures forall i :: 0 <= i < |s| ==> Less(s[i].key, x)
      {
        assert x != k;
      }
    }
  }

  /** A read whose limit covers the range returns all of its keys. */
  lemma {:induction false} FirstPairsAll(kv: Kv, r: KeyRange, n: nat)
    requires |KeysIn(kv, r)| <= n
    ensures KeysOf(FirstPairs(kv, r, n)) == KeysIn(kv, r)
    decreases n
  {
    var keys := KeysIn(kv, r);
    if keys != {} {
      var k := Least(keys);
      KeysInRemove(kv, r, k);
      assert |keys - {k}| == |keys| - 1;
      FirstPairsAll(kv - {k}, r, n - 1);
      FirstPairsAllStep(kv, r, n);
    }
  }

  lemma FirstPairsAllStep(kv: Kv, r: KeyRange, n: nat)
    requires n > 0 && KeysIn(kv, r) != {}
    requires var k := Least(KeysIn(kv, r));
      KeysOf(FirstPairs(kv - {k}, r, n - 1)) == KeysIn(kv - {k}, r)
    ensures KeysOf(FirstPairs(kv, r, n)) == KeysIn(kv, r)
  {
    var keys := KeysIn(kv, r);
    var k := Least(keys);
    FirstPairsStep(kv, r, n);
    var s := FirstPairs(kv, r, n);
    assert s[0].key == k && s[1..] == FirstPairs(kv - {k}, r, n - 1);
    KeysOfTail(s);
    assert {k} + (keys - {k}) == keys;
  }

  /** The keys of a non-empty listing: its head's key and its tail's keys. */
  lemma KeysOfTail(s: seq<KeyValue>)
    requires |s| > 0
    ensures KeysOf(s) == {s[0].key} + KeysOf(s[1..])
  {
    forall x | x in KeysOf(s[1..]) ensures x in KeysOf(s) {
      var i :| 0 <= i < |s[1..]| && s[1..][i].key == x;
      assert s[i + 1].key == x;
    }
  }

  lemma KeysOfSnoc(s: seq<KeyValue>, x: KeyValue)
    ensures KeysOf(s + [x]) == KeysOf(s) + {x.key}
  {
    var t := s + [x];
    assert t[|s|].key == x.key;
    forall k | k in KeysOf(s) ensures k in KeysOf(t) {
      var i :| 0 <= i < |s| && s[i].key == k;
      assert t[i].key == k;
    }
  }

  lemma KeysOfSuffix(s: seq<KeyValue>, n: nat, i: nat)
    requires n <= i < |s|
    ensures s[i].key in KeysOf(s[n..])
  {
    assert s[n..][i - n] == s[i];
  }

  lemma KeysOfMember(s: seq<KeyValue>, i: nat)
    requires i < |s|
    ensures s[i].key in KeysOf(s)
  {
  }

  /** A suffix lists no key the whole listing lacks. */
  lemma KeysOfSuffixWithin(s: seq<KeyValue>, n: nat, k: Key)
    requires n <= |s| && k !in KeysOf(s)
    ensures k !in KeysOf(s[n..])
  {
    forall i | 0 <= i < |s[n..]|
      ensures s[n..][i].key != k
    {
      assert s[n..][i] == s[n + i];
      KeysOfMember(s, n + i);
    }
  }

  /** Clearing keys one at a time is clearing the set of them. */
  lemma ClearOneMore(kv: Kv, done: set<Key>, k: Key)
    ensures kv - done - {k} == kv - (done + {k})
  {
  }

  /** GetRange(r, RangeOptions{Limit: limit}); a limit of 0 means no limit. */
  function GetRange(kv: Kv, r: KeyRange, limit: nat): seq<KeyValue>
  {
    FirstPairs(kv, r, if limit == 0 then |kv| else limit)
  }

  /** ClearRange(r): every key of `r` removed. */
  function ClearedRange(kv: Kv, r: KeyRange): (m: Kv)
    ensures forall k :: k in m <==> k in kv && !r.Contains(k)
    ensures forall k :: k in m ==> m[k] == kv[k]
  {
    map k | k in kv && !r.Contains(k) :: kv[k]
  }

  class Transaction {
    var kv: Kv

    constructor (kv: Kv)
      ensures this.kv == kv
    {
      this.kv := kv;
    }

    method Set(key: Key, value: Value)
      modifies this
      ensures kv == old(kv)[key := value]
    {
      kv := kv[key := value];
    }

    method Clear(key: Key)
      modifies this
      ensures kv == old(kv) - {key}
    {
      kv := kv - {key};
    }

    method ClearRange(r: KeyRange)
      modifies this
      ensures kv == ClearedRange(old(kv), r)
    {
      kv := ClearedRange(kv, r);
    }
  }

  /** The committed state that db.Transact runs a transaction against. */
  class Database {
    var kv: Kv

    constructor (kv: Kv)
      ensures this.kv == kv
    {
      this.kv := kv;
    }
  }
}
