/**
  Byte strings and the order the key-value store keeps its keys in:
  unsigned lexicographic comparison, a proper prefix sorting first
  (the order of Go's bytes.Compare).
 */
module ByteOrder {

  type byte = x: int | 0 <= x < 256
  type Bytes = seq<byte>

  /** Strict lexicographic order on byte strings. */
  predicate Less(a: Bytes, b: Bytes)
  {
    if |a| == 0 then |b| > 0
    else if |b| == 0 then false
    else a[0] < b[0] || (a[0] == b[0] && Less(a[1..], b[1..]))
  }

  predicate LessEq(a: Bytes, b: Bytes)
  {
    a == b || Less(a, b)
  }

  lemma {:induction false} LessIrreflexive(a: Bytes)
    ensures !Less(a, a)
  {
    if |a| > 0 {
      LessIrreflexive(a[1..]);
    }
  }

  lemma {:induction false} LessAsymmetric(a: Bytes, b: Bytes)
    ensures !(Less(a, b) && Less(b, a))
  {
    if |a| > 0 && |b| > 0 {
      LessAsymmetric(a[1..], b[1..]);
    }
  }

  lemma {:induction false} LessTransitive(a: Bytes, b: Bytes, c: Bytes)
    requires Less(a, b) && Less(b, c)
    ensures Less(a, c)
  {
    if |a| > 0 && a[0] == b[0] && b[0] == c[0] {
      LessTransitive(a[1..], b[1..], c[1..]);
    }
  }

  lemma {:induction false} LessTotal(a: Bytes, b: Bytes)
    ensures a == b || Less(a, b) || Less(b, a)
  {
    if |a| > 0 && |b| > 0 && a[0] == b[0] {
      LessTotal(a[1..], b[1..]);
      if a[1..] == b[1..] {
        assert a == [a[0]] + a[1..] && b == [b[0]] + b[1..];
      }
    }
  }

  /** Exactly one of `a < b`, `a == b`, `b < a` holds. */
  lemma Trichotomy(a: Bytes, b: Bytes)
    ensures Less(a, b) <==> (a != b && !Less(b, a))
    ensures LessEq(a, b) <==> !Less(b, a)
  {
    LessTotal(a, b);
    LessAsymmetric(a, b);
    LessIrreflexive(a);
  }

  lemma LessEqTransitive(a: Bytes, b: Bytes, c: Bytes)
    requires LessEq(a, b) && LessEq(b, c)
    ensures LessEq(a, c)
    ensures Less(a, b) || Less(b, c) ==> Less(a, c)
  {
    if Less(a, b) && Less(b, c) {
      LessTransitive(a, b, c);
    }
  }

  /** A shared prefix does not change the comparison. */
  lemma {:induction false} LessCommonPrefix(p: Bytes, a: Bytes, b: Bytes)
    ensures Less(p + a, p + b) == Less(a, b)
  {
    if |p| > 0 {
      assert (p + a)[0] == p[0] == (p + b)[0];
      assert (p + a)[1..] == p[1..] + a;
      assert (p + b)[1..] == p[1..] + b;
      assert Less(p + a, p + b) == Less((p + a)[1..], (p + b)[1..]);
      LessCommonPrefix(p[1..], a, b);
    } else {
      assert p + a == a && p + b == b;
    }
  }

  /** The first byte decides when the first bytes differ. */
  lemma LessFirstByte(x: byte, y: byte, a: Bytes, b: Bytes)
    requires x < y
    ensures Less([x] + a, [y] + b)
  {
  }

  /** Two strings that agree up to a position and differ there compare as
      the bytes at that position, whatever follows. */
  lemma LessAtFirstDifference(p: Bytes, x: byte, y: byte, a: Bytes, b: Bytes)
    requires x < y
    ensures Less(p + ([x] + a), p + ([y] + b))
  {
    LessCommonPrefix(p, [x] + a, [y] + b);
  }

  /** A half-open key range [begin, end), fdb.KeyRange. */
  datatype KeyRange = KeyRange(begin: Bytes, end: Bytes) {
    predicate Contains(k: Bytes)
    {
      LessEq(begin, k) && Less(k, end)
    }
  }

  predicate HasPrefix(k: Bytes, p: Bytes)
  {
    |p| <= |k| && k[..|p|] == p
  }

  /** The keys between `p + [0x00]` (inclusive) and `p + [0xFF]` (exclusive)
      are exactly the keys that extend `p` by at least one byte whose first
      byte after `p` is not 0xFF. */
  lemma {:induction false} PrefixRange(p: Bytes, k: Bytes)
    ensures (LessEq(p + [0], k) && Less(k, p + [255]))
        <==> (|k| > |p| && k[..|p|] == p && k[|p|] != 255)
  {
    if |p| == 0 {
      assert p + [0] == [0] && p + [255] == [255];
      if |k| > 0 && k[0] != 255 {
        if k != [0] {
          assert Less([0], k) by {
            if k[0] == 0 {
              assert [0][1..] == [];
            }
          }
        }
      }
    } else {
      var q := p[1..];
      assert (p + [0])[1..] == q + [0] && (p + [0])[0] == p[0];
      assert (p + [255])[1..] == q + [255] && (p + [255])[0] == p[0];
      if |k| > 0 && k[0] == p[0] {
        PrefixRange(q, k[1..]);
        if |k| > |p| {
          assert k[..|p|] == [k[0]] + k[1..][..|q|];
          assert p == [p[0]] + q;
        }
      } else if |k| > 0 {
        assert !(|k| > |p| && k[..|p|] == p) by {
          if |k| > |p| {
            assert k[..|p|][0] == k[0];
          }
        }
      }
    }
  }

  /** Every finite non-empty set of keys has a least element. */
  lemma LeastExists(s: set<Bytes>)
    requires s != {}
    ensures exists m :: m in s && forall k :: k in s ==> LessEq(m, k)
  {
    var m := LeastOf(s);
  }

  /** The least element of a finite non-empty set of keys, found by taking
      one element out and comparing it with the least of the rest. */
  lemma {:induction false} LeastOf(s: set<Bytes>) returns (m: Bytes)
    requires s != {}
    ensures m in s && forall k :: k in s ==> LessEq(m, k)
  {
    var x :| x in s;
    var rest := s - {x};
    assert forall k :: k in s ==> k in rest || k == x;
    if rest == {} {
      m := x;
    } else {
      var r := LeastOf(rest);
      LessTotal(r, x);
      m := if Less(x, r) then x else r;
      forall k | k in s ensures LessEq(m, k) {
        if k != x {
          assert k in rest;
          LessEqTransitive(m, r, k);
        }
      }
    }
  }

  /** Every finite non-empty set of keys has a greatest element. */
  lemma GreatestExists(s: set<Bytes>)
    requires s != {}
    ensures exists m :: m in s && forall k :: k in s ==> LessEq(k, m)
  {
    var m := GreatestOf(s);
  }

  /** The greatest element of a finite non-empty set of keys. */
  lemma {:induction false} GreatestOf(s: set<Bytes>) returns (m: Bytes)
    requires s != {}
    ensures m in s && forall k :: k in s ==> LessEq(k, m)
  {
    var x :| x in s;
    var rest := s - {x};
    assert forall k :: k in s ==> k in rest || k == x;
    if rest == {} {
      m := x;
    } else {
      var r := GreatestOf(rest);
      LessTotal(r, x);
      m := if Less(r, x) then x else r;
      forall k | k in s ensures LessEq(k, m) {
        if k != x {
          assert k in rest;
          LessEqTransitive(k, r, m);
        }
      }
    }
  }

  lemma LessEqAntisymmetric()
    ensures forall a, b :: LessEq(a, b) && LessEq(b, a) ==> a == b
  {
    forall a, b | LessEq(a, b) && LessEq(b, a) ensures a == b {
      LessAsymmetric(a, b);
    }
  }

  /** The least key of a finite non-empty set. */
  function Least(s: set<Bytes>): (m: Bytes)
    requires s != {}
    ensures m in s && forall k :: k in s ==> LessEq(m, k)
  {
    LeastExists(s);
    LessEqAntisymmetric();
    var m :| m in s && forall k :: k in s ==> LessEq(m, k); m
  }

  /** The greatest key of a finite non-empty set. */
  function Greatest(s: set<Bytes>): (m: Bytes)
    requires s != {}
    ensures m in s && forall k :: k in s ==> LessEq(k, m)
  {
    GreatestExists(s);
    LessEqAntisymmetric();
    var m :| m in s && forall k :: k in s ==> LessEq(k, m); m
  }

  /** Any least element is the one Least picks. */
  lemma LeastUnique(s: set<Bytes>, m: Bytes)
    requires m in s && forall k :: k in s ==> LessEq(m, k)
    ensures Least(s) == m
  {
    LessEqAntisymmetric();
  }
}
