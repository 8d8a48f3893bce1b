/** Byte strings, their ordering, and the small failure-carrying datatypes shared by
    every part of the tokenizer. */
module Common {

  /** An unsigned 8-bit value. */
  newtype Byte = x: int | 0 <= x < 256

  /** A token or a pretoken: an immutable byte string, not necessarily valid UTF-8. */
  type Bytes = seq<Byte>

  /** A vocabulary: token id to token bytes. */
  type Vocab = map<int, Bytes>

  datatype Option<+T> = None | Some(value: T)

  datatype Result<+T, +E> = Ok(value: T) | Err(error: E)

  /** Concatenation of a sequence of sequences, in order (`b"".join(...)`, `"".join(...)`). */
  function Concat<T>(parts: seq<seq<T>>): seq<T>
  {
    if |parts| == 0 then [] else parts[0] + Concat(parts[1..])
  }

  lemma {:induction false} ConcatAppend<T>(a: seq<seq<T>>, b: seq<seq<T>>)
    ensures Concat(a + b) == Concat(a) + Concat(b)
  {
    if |a| == 0 {
      assert a + b == b;
    } else {
      assert (a + b)[1..] == a[1..] + b;
      ConcatAppend(a[1..], b);
    }
  }

  lemma ConcatSingle<T>(x: seq<T>)
    ensures Concat([x]) == x
  {
    assert [x][1..] == [];
  }

  /** Python's `bytes.__lt__`: lexicographic on unsigned byte values, a proper prefix
      being smaller. */
  predicate BytesLt(x: Bytes, y: Bytes)
    decreases |x|
  {
    if |x| == 0 then |y| > 0
    else if |y| == 0 then false
    else if x[0] != y[0] then x[0] < y[0]
    else BytesLt(x[1..], y[1..])
  }

  lemma {:induction false} BytesLtIrreflexive(x: Bytes)
    ensures !BytesLt(x, x)
    decreases |x|
  {
    if |x| > 0 {
      BytesLtIrreflexive(x[1..]);
    }
  }

  lemma {:induction false} BytesLtAsymmetric(x: Bytes, y: Bytes)
    requires BytesLt(x, y)
    ensures !BytesLt(y, x)
    decreases |x|
  {
    if |x| > 0 && |y| > 0 && x[0] == y[0] {
      BytesLtAsymmetric(x[1..], y[1..]);
    }
  }

  lemma {:induction false} BytesLtTransitive(x: Bytes, y: Bytes, z: Bytes)
    requires BytesLt(x, y) && BytesLt(y, z)
    ensures BytesLt(x, z)
    decreases |x|
  {
    if |x| > 0 && x[0] == y[0] && y[0] == z[0] {
      BytesLtTransitive(x[1..], y[1..], z[1..]);
    }
  }

  lemma {:induction false} BytesLtTotal(x: Bytes, y: Bytes)
    requires x != y
    ensures BytesLt(x, y) || BytesLt(y, x)
    decreases |x|
  {
    if |x| > 0 && |y| > 0 && x[0] == y[0] {
      assert x == [x[0]] + x[1..] && y == [y[0]] + y[1..];
      BytesLtTotal(x[1..], y[1..]);
    }
  }

  /** A merge candidate: an ordered pair of adjacent symbols. */
  type Pair = (Bytes, Bytes)

  /** Python's ordering of `(bytes, bytes)` tuples: by the left token, then the right. */
  predicate PairLt(p: Pair, q: Pair)
  {
    BytesLt(p.0, q.0) || (p.0 == q.0 && BytesLt(p.1, q.1))
  }

  lemma PairLtIrreflexive(p: Pair)
    ensures !PairLt(p, p)
  {
    BytesLtIrreflexive(p.0);
    BytesLtIrreflexive(p.1);
  }

  lemma PairLtAsymmetric(p: Pair, q: Pair)
    requires PairLt(p, q)
    ensures !PairLt(q, p)
  {
    BytesLtIrreflexive(p.0);
    if BytesLt(p.0, q.0) {
      BytesLtAsymmetric(p.0, q.0);
    } else {
      BytesLtAsymmetric(p.1, q.1);
    }
  }

  lemma PairLtTotal(p: Pair, q: Pair)
    requires p != q
    ensures PairLt(p, q) || PairLt(q, p)
  {
    if p.0 != q.0 {
      BytesLtTotal(p.0, q.0);
    } else {
      BytesLtTotal(p.1, q.1);
    }
  }

  lemma PairLtTransitive(p: Pair, q: Pair, r: Pair)
    requires PairLt(p, q) && PairLt(q, r)
    ensures PairLt(p, r)
  {
    if BytesLt(p.0, q.0) && BytesLt(q.0, r.0) {
      BytesLtTransitive(p.0, q.0, r.0);
    } else if !BytesLt(p.0, q.0) && !BytesLt(q.0, r.0) {
      BytesLtTransitive(p.1, q.1, r.1);
    }
  }

  /** `r` is the greatest element of `s` under `PairLt`. */
  ghost predicate IsPairMax(r: Pair, s: set<Pair>)
  {
    r in s && forall q :: q in s ==> q == r || PairLt(q, r)
  }

  /** Every non-empty finite set of pairs has a greatest element under `PairLt`. */
  lemma {:induction false} PairMaxWitness(s: set<Pair>) returns (r: Pair)
    requires s != {}
    ensures IsPairMax(r, s)
    decreases |s|
  {
    var x :| x in s;
    if s == {x} {
      r := x;
      PairLtIrreflexive(x);
    } else {
      var rest := s - {x};
      var m := PairMaxWitness(rest);
      assert m in rest;
      if PairLt(x, m) {
        r := m;
        forall q | q in s
          ensures q == m || PairLt(q, m)
        {
          if q != x {
            assert q in rest;
          }
        }
      } else {
        r := x;
        PairLtTotal(x, m);
        forall q | q in s
          ensures q == x || PairLt(q, x)
        {
          if q != x {
            assert q in rest;
            if q != m {
              PairLtTransitive(q, m, x);
            }
          }
        }
      }
    }
  }

  lemma PairMaxExists(s: set<Pair>)
    requires s != {}
    ensures exists r :: r in s && forall q :: q in s ==> q == r || PairLt(q, r)
  {
    var r := PairMaxWitness(s);
    assert IsPairMax(r, s);
  }

  /** Python's `max(candidates)` on a non-empty collection of pairs. */
  function PairMax(s: set<Pair>): (r: Pair)
    requires s != {}
    ensures r in s
    ensures forall q :: q in s ==> q == r || PairLt(q, r)
  {
    PairMaxExists(s);
    forall p, q | PairLt(p, q)
      ensures !PairLt(q, p)
    {
      PairLtAsymmetric(p, q);
    }
    var r :| r in s && forall q :: q in s ==> q == r || PairLt(q, r);
    r
  }

  /** Some element of a non-empty set. */
  lemma Pick<T>(s: set<T>) returns (x: T)
    requires s != {}
    ensures x in s
  {
    x :| x in s;
  }

  /** A key under which a map holds a given value. */
  ghost function KeyOf<K, V>(m: map<K, V>, v: V): (k: K)
    requires v in m.Values
    ensures k in m && m[k] == v
  {
    var k :| k in m && m[k] == v; k
  }

  lemma ValuesContain<K, V>(m: map<K, V>)
    ensures forall k :: k in m ==> m[k] in m.Values
  {
    forall k | k in m
      ensures m[k] in m.Values
    {
    }
  }

  lemma ValuesNonEmpty<K, V>(m: map<K, V>)
    requires m != map[]
    ensures m.Values != {}
  {
    var k := Pick(m.Keys);
    assert m[k] in m.Values;
  }

  /** Every non-empty finite set of integers has a greatest element. */
  lemma {:induction false} IntMaxWitness(s: set<int>) returns (top: int)
    requires s != {}
    ensures top in s
    ensures forall z :: z in s ==> z <= top
    decreases |s|
  {
    var x := Pick(s);
    var rest := s - {x};
    if rest == {} {
      assert s == {x};
      top := x;
    } else {
      var m := IntMaxWitness(rest);
      top := if x <= m then m else x;
      forall z | z in s
        ensures z <= top
      {
        if z != x {
          assert z in rest;
        }
      }
    }
  }

  lemma IntMaxExists(s: set<int>)
    requires s != {}
    ensures exists r :: r in s && forall z :: z in s ==> z <= r
  {
    var top := IntMaxWitness(s);
  }

  /** The greatest element of a non-empty finite set of integers (Python's `max`). */
  function IntMax(s: set<int>): (r: int)
    requires s != {}
    ensures r in s
    ensures forall x :: x in s ==> x <= r
  {
    IntMaxExists(s);
    var r :| r in s && forall x :: x in s ==> x <= r;
    r
  }

  /** The integers `0 .. n-1`, the key set of a vocabulary with `n` entries. */
  function Range(n: nat): set<int>
  {
    if n == 0 then {} else Range(n - 1) + {n - 1}
  }

  lemma {:induction false} RangeSpec(n: nat)
    ensures forall i :: i in Range(n) <==> 0 <= i < n
    ensures |Range(n)| == n
  {
    if n > 0 {
      RangeSpec(n - 1);
    }
  }
}
