/** The merge rewrite shared by training and encoding: one greedy, non-overlapping,
    left-to-right pass that replaces every adjacent occurrence of a pair by its
    concatenation, and the replay of a whole merge list. */
module Merge {
  import opened Common

  /** A pretoken's current symbols; their concatenation is the pretoken's bytes. */
  type Symbols = seq<Bytes>

  /** The single-byte symbols of a byte string (`[bytes([b]) for b in pretoken]`). */
  function ByteSymbols(p: Bytes): (w: Symbols)
    ensures |w| == |p|
    ensures forall i :: 0 <= i < |p| ==> w[i] == [p[i]]
  {
    if |p| == 0 then [] else [[p[0]]] + ByteSymbols(p[1..])
  }

  lemma {:induction false} ByteSymbolsConcat(p: Bytes)
    ensures Concat(ByteSymbols(p)) == p
  {
    if |p| > 0 {
      ByteSymbolsConcat(p[1..]);
      var rest := ByteSymbols(p[1..]);
      assert ByteSymbols(p) == [[p[0]]] + rest;
      assert ByteSymbols(p)[1..] == rest;
      assert Concat(ByteSymbols(p)) == [p[0]] + Concat(rest);
      assert p == [p[0]] + p[1..];
    }
  }

  /** Number of indices `k` with `(w[k], w[k+1]) == p`, overlapping occurrences included. */
  function Occurrences(w: Symbols, p: Pair): nat
  {
    if |w| < 2 then 0
    else (if (w[0], w[1]) == p then 1 else 0) + Occurrences(w[1..], p)
  }

  /** The adjacent pairs of a word. */
  function PairsOfWord(w: Symbols): set<Pair>
  {
    if |w| < 2 then {} else {(w[0], w[1])} + PairsOfWord(w[1..])
  }

  lemma {:induction false} PairsOfWordSpec(w: Symbols, p: Pair)
    ensures p in PairsOfWord(w) <==> Occurrences(w, p) > 0
    ensures p in PairsOfWord(w) <==> exists k :: 0 <= k < |w| - 1 && w[k] == p.0 && w[k + 1] == p.1
  {
    if |w| >= 2 {
      PairsOfWordSpec(w[1..], p);
      if exists k :: 0 <= k < |w| - 1 && w[k] == p.0 && w[k + 1] == p.1 {
        var k :| 0 <= k < |w| - 1 && w[k] == p.0 && w[k + 1] == p.1;
        if k > 0 {
          assert w[1..][k - 1] == p.0 && w[1..][k] == p.1;
        }
      }
      if exists k :: 0 <= k < |w[1..]| - 1 && w[1..][k] == p.0 && w[1..][k + 1] == p.1 {
        var k :| 0 <= k < |w[1..]| - 1 && w[1..][k] == p.0 && w[1..][k + 1] == p.1;
        assert w[k + 1] == p.0 && w[k + 2] == p.1;
      }
    }
  }

  /** One merge pass for rule `p = (a, b)`: scanning left to right, an adjacent `a, b`
      becomes the single symbol `a + b` and the scan moves past both; every other
      symbol is kept. */
  function Rewrite(w: Symbols, p: Pair): Symbols
  {
    if |w| == 0 then []
    else if |w| >= 2 && w[0] == p.0 && w[1] == p.1 then [p.0 + p.1] + Rewrite(w[2..], p)
    else [w[0]] + Rewrite(w[1..], p)
  }

  /** A pass never changes the bytes a word spells. */
  lemma {:induction false} RewriteConcat(w: Symbols, p: Pair)
    ensures Concat(Rewrite(w, p)) == Concat(w)
  {
    if |w| >= 2 && w[0] == p.0 && w[1] == p.1 {
      RewriteConcat(w[2..], p);
      assert w == [w[0], w[1]] + w[2..];
      ConcatAppend([w[0], w[1]], w[2..]);
      assert [w[0], w[1]][1..] == [w[1]];
      ConcatSingle(w[1]);
      assert [p.0 + p.1] + Rewrite(w[2..], p) == [p.0 + p.1] + Rewrite(w[2..], p);
      ConcatAppend([p.0 + p.1], Rewrite(w[2..], p));
      ConcatSingle(p.0 + p.1);
    } else if |w| > 0 {
      RewriteConcat(w[1..], p);
      ConcatAppend([w[0]], Rewrite(w[1..], p));
      ConcatSingle(w[0]);
    }
  }

  /** A pass never lengthens a word, and shortens every word in which the pair occurs. */
  lemma {:induction false} RewriteLength(w: Symbols, p: Pair)
    ensures |Rewrite(w, p)| <= |w|
    ensures Occurrences(w, p) > 0 ==> |Rewrite(w, p)| < |w|
  {
    if |w| >= 2 && w[0] == p.0 && w[1] == p.1 {
      RewriteLength(w[2..], p);
    } else if |w| > 0 {
      RewriteLength(w[1..], p);
      assert Occurrences(w, p) == Occurrences(w[1..], p);
    }
  }

  /** The pass on a suffix, unfolded once at its first index. */
  lemma RewriteAt(w: Symbols, i: nat, p: Pair)
    requires i < |w|
    ensures i < |w| - 1 && w[i] == p.0 && w[i + 1] == p.1 ==>
              Rewrite(w[i..], p) == [p.0 + p.1] + Rewrite(w[i + 2..], p)
    ensures !(i < |w| - 1 && w[i] == p.0 && w[i + 1] == p.1) ==>
              Rewrite(w[i..], p) == [w[i]] + Rewrite(w[i + 1..], p)
  {
    var s := w[i..];
    assert s[0] == w[i];
    if i < |w| - 1 {
      assert s[1] == w[i + 1];
      assert s[2..] == w[i + 2..];
    }
    assert s[1..] == w[i + 1..];
  }

  /** The source's index loop over a word (the inner `while i < len(...)` of both the
      trainer and `_apply_bpe`), proved equal to the pass. */
  method RewriteLoop(symbols: Symbols, a: Bytes, b: Bytes) returns (out: Symbols)
    ensures out == Rewrite(symbols, (a, b))
    ensures Concat(out) == Concat(symbols)
    ensures |out| <= |symbols|
  {
    out := [];
    var i := 0;
    assert symbols[0..] == symbols;
    while i < |symbols|
      invariant 0 <= i <= |symbols|
      invariant out + Rewrite(symbols[i..], (a, b)) == Rewrite(symbols, (a, b))
    {
      RewriteAt(symbols, i, (a, b));
      if i < |symbols| - 1 && symbols[i] == a && symbols[i + 1] == b {
        assert (out + [a + b]) + Rewrite(symbols[i + 2..], (a, b))
               == out + ([a + b] + Rewrite(symbols[i + 2..], (a, b)));
        out := out + [a + b];
        i := i + 2;
      } else {
        assert (out + [symbols[i]]) + Rewrite(symbols[i + 1..], (a, b))
               == out + ([symbols[i]] + Rewrite(symbols[i + 1..], (a, b)));
        out := out + [symbols[i]];
        i := i + 1;
      }
    }
    assert symbols[i..] == [];
    assert out + [] == out;
    RewriteConcat(symbols, (a, b));
    RewriteLength(symbols, (a, b));
  }

  /** Every rule replayed in order, one full pass per rule. */
  function ApplyMerges(merges: seq<Pair>, w: Symbols): Symbols
  {
    if |merges| == 0 then w else ApplyMerges(merges[1..], Rewrite(w, merges[0]))
  }

  /** Replaying one more rule is one more pass over the previous result. */
  lemma {:induction false} ApplyMergesSnoc(merges: seq<Pair>, m: Pair, w: Symbols)
    ensures ApplyMerges(merges + [m], w) == Rewrite(ApplyMerges(merges, w), m)
  {
    if |merges| > 0 {
      assert (merges + [m])[1..] == merges[1..] + [m];
      ApplyMergesSnoc(merges[1..], m, Rewrite(w, merges[0]));
    }
  }

  /** Replay keeps the bytes and never adds symbols. */
  lemma {:induction false} ApplyMergesConcat(merges: seq<Pair>, w: Symbols)
    ensures Concat(ApplyMerges(merges, w)) == Concat(w)
    ensures |ApplyMerges(merges, w)| <= |w|
  {
    if |merges| > 0 {
      RewriteConcat(w, merges[0]);
      RewriteLength(w, merges[0]);
      ApplyMergesConcat(merges[1..], Rewrite(w, merges[0]));
    }
  }

  /** Where a symbol can come from: it was already there, or it is `a + b` for a rule. */
  predicate Derived(s: Bytes, w: Symbols, merges: seq<Pair>)
  {
    s in w || exists k :: 0 <= k < |merges| && s == merges[k].0 + merges[k].1
  }

  lemma {:induction false} RewriteSymbols(w: Symbols, p: Pair)
    ensures forall s :: s in Rewrite(w, p) ==> s in w || s == p.0 + p.1
  {
    if |w| >= 2 && w[0] == p.0 && w[1] == p.1 {
      RewriteSymbols(w[2..], p);
    } else if |w| > 0 {
      RewriteSymbols(w[1..], p);
    }
  }

  /** Every symbol replay outputs was an input symbol or is the result of some rule. */
  lemma {:induction false} ApplyMergesSymbols(merges: seq<Pair>, w: Symbols)
    ensures forall s :: s in ApplyMerges(merges, w) ==> Derived(s, w, merges)
  {
    if |merges| > 0 {
      var w1 := Rewrite(w, merges[0]);
      RewriteSymbols(w, merges[0]);
      ApplyMergesSymbols(merges[1..], w1);
      forall s | s in ApplyMerges(merges, w)
        ensures Derived(s, w, merges)
      {
        assert Derived(s, w1, merges[1..]);
        if s !in w1 {
          var k :| 0 <= k < |merges[1..]| && s == merges[1..][k].0 + merges[1..][k].1;
          assert s == merges[k + 1].0 + merges[k + 1].1;
        } else if s !in w {
          assert s == merges[0].0 + merges[0].1;
        }
      }
    }
  }
}
