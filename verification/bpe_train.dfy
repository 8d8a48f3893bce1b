/** Byte-level BPE training: the initial vocabulary, the word/frequency table, pair
    counting, the merge selection rule and the merge loop. */
module Trainer {
  import opened Common
  import opened Merge
  import Pretokenizer

  // ---------------------------------------------------------------------------------
  // Words
  // ---------------------------------------------------------------------------------

  /** `_word_to_symbols`: a special token stays one symbol, anything else starts as its
      single bytes. */
  function WordToSymbols(pretoken: Bytes, specialBytes: set<Bytes>): Symbols
  {
    if pretoken in specialBytes then [pretoken] else ByteSymbols(pretoken)
  }

  lemma WordToSymbolsSpec(pretoken: Bytes, specialBytes: set<Bytes>)
    ensures Concat(WordToSymbols(pretoken, specialBytes)) == pretoken
    ensures pretoken in specialBytes ==> WordToSymbols(pretoken, specialBytes) == [pretoken]
    ensures pretoken !in specialBytes ==>
              |WordToSymbols(pretoken, specialBytes)| == |pretoken| &&
              forall s :: s in WordToSymbols(pretoken, specialBytes) ==> |s| == 1
  {
    if pretoken in specialBytes {
      ConcatSingle(pretoken);
    } else {
      ByteSymbolsConcat(pretoken);
    }
  }

  /** One key of the word table with its frequency. */
  datatype Entry = Entry(word: Symbols, freq: nat)

  /** The word table: an insertion-ordered dictionary from symbol sequence to frequency. */
  type Table = seq<Entry>

  predicate DistinctWords(t: Table)
  {
    forall i, j :: 0 <= i < j < |t| ==> t[i].word != t[j].word
  }

  /** `words[w] += f` */
  function AddWord(t: Table, w: Symbols, f: nat): Table
  {
    if |t| == 0 then [Entry(w, f)]
    else if t[0].word == w then [Entry(w, t[0].freq + f)] + t[1..]
    else [t[0]] + AddWord(t[1..], w, f)
  }

  function WordsOf(t: Table): set<Symbols>
  {
    if |t| == 0 then {} else {t[0].word} + WordsOf(t[1..])
  }

  /** The frequency recorded for `w` (0 when absent). */
  function FreqOf(t: Table, w: Symbols): nat
  {
    if |t| == 0 then 0 else (if t[0].word == w then t[0].freq else 0) + FreqOf(t[1..], w)
  }

  function TotalFreq(t: Table): nat
  {
    if |t| == 0 then 0 else t[0].freq + TotalFreq(t[1..])
  }

  lemma {:induction false} WordsOfSpec(t: Table)
    ensures forall w :: w in WordsOf(t) <==> exists i :: 0 <= i < |t| && t[i].word == w
  {
    if |t| > 0 {
      WordsOfSpec(t[1..]);
      forall w | w in WordsOf(t)
        ensures exists i :: 0 <= i < |t| && t[i].word == w
      {
        if w != t[0].word {
          assert w in WordsOf(t[1..]);
          var i :| 0 <= i < |t[1..]| && t[1..][i].word == w;
          assert t[i + 1].word == w;
        }
      }
      forall w | exists i :: 0 <= i < |t| && t[i].word == w
        ensures w in WordsOf(t)
      {
        var i :| 0 <= i < |t| && t[i].word == w;
        if i > 0 {
          assert t[1..][i - 1].word == w;
        }
      }
    }
  }

  lemma {:induction false} AddWordFreq(t: Table, w: Symbols, f: nat, v: Symbols)
    ensures FreqOf(AddWord(t, w, f), v) == FreqOf(t, v) + (if v == w then f else 0)
  {
    if |t| > 0 {
      var r := AddWord(t, w, f);
      if t[0].word == w {
        assert r[1..] == t[1..];
      } else {
        AddWordFreq(t[1..], w, f, v);
        assert r[1..] == AddWord(t[1..], w, f);
      }
    }
  }

  lemma {:induction false} AddWordWords(t: Table, w: Symbols, f: nat)
    ensures WordsOf(AddWord(t, w, f)) == WordsOf(t) + {w}
    ensures TotalFreq(AddWord(t, w, f)) == TotalFreq(t) + f
  {
    if |t| > 0 {
      var r := AddWord(t, w, f);
      if t[0].word == w {
        assert r[1..] == t[1..];
      } else {
        AddWordWords(t[1..], w, f);
        assert r[1..] == AddWord(t[1..], w, f);
      }
    }
  }

  /** A word at index 0 of a distinct table is not among the later words. */
  lemma HeadNotInTail(t: Table)
    requires |t| > 0 && DistinctWords(t)
    ensures t[0].word !in WordsOf(t[1..])
  {
    WordsOfSpec(t[1..]);
    assert forall k :: 0 <= k < |t[1..]| ==> t[1..][k].word == t[k + 1].word != t[0].word;
  }

  /** A table whose head is not among the distinct later words is distinct. */
  lemma ConsDistinct(e: Entry, rest: Table)
    requires DistinctWords(rest) && e.word !in WordsOf(rest)
    ensures DistinctWords([e] + rest)
  {
    WordsOfSpec(rest);
    var r := [e] + rest;
    forall i, j | 0 <= i < j < |r|
      ensures r[i].word != r[j].word
    {
      assert r[j] == rest[j - 1];
      if i > 0 {
        assert r[i] == rest[i - 1];
      }
    }
  }

  lemma {:induction false} AddWordDistinct(t: Table, w: Symbols, f: nat)
    requires DistinctWords(t)
    ensures DistinctWords(AddWord(t, w, f))
  {
    if |t| > 0 {
      HeadNotInTail(t);
      assert DistinctWords(t[1..]);
      var r := AddWord(t, w, f);
      if t[0].word == w {
        assert r == [Entry(w, t[0].freq + f)] + t[1..];
        ConsDistinct(Entry(w, t[0].freq + f), t[1..]);
      } else {
        AddWordDistinct(t[1..], w, f);
        AddWordWords(t[1..], w, f);
        assert r == [t[0]] + AddWord(t[1..], w, f);
        ConsDistinct(t[0], AddWord(t[1..], w, f));
      }
    }
  }

  /** Adding to the table: only `w`'s frequency grows, by `f`; the keys stay distinct. */
  lemma AddWordSpec(t: Table, w: Symbols, f: nat)
    ensures forall v :: FreqOf(AddWord(t, w, f), v) == FreqOf(t, v) + (if v == w then f else 0)
    ensures WordsOf(AddWord(t, w, f)) == WordsOf(t) + {w}
    ensures TotalFreq(AddWord(t, w, f)) == TotalFreq(t) + f
    ensures DistinctWords(t) ==> DistinctWords(AddWord(t, w, f))
  {
    forall v
      ensures FreqOf(AddWord(t, w, f), v) == FreqOf(t, v) + (if v == w then f else 0)
    {
      AddWordFreq(t, w, f, v);
    }
    AddWordWords(t, w, f);
    if DistinctWords(t) {
      AddWordDistinct(t, w, f);
    }
  }

  /** The table the trainer builds, one `words[sym_seq] += 1` per pretoken. */
  function BuildFrom(t: Table, pretokens: seq<Bytes>, specialBytes: set<Bytes>): Table
    decreases |pretokens|
  {
    if |pretokens| == 0 then t
    else BuildFrom(AddWord(t, WordToSymbols(pretokens[0], specialBytes), 1), pretokens[1..], specialBytes)
  }

  function BuildTable(pretokens: seq<Bytes>, specialBytes: set<Bytes>): Table
  {
    BuildFrom([], pretokens, specialBytes)
  }

  /** How many pretokens start out as the symbol sequence `w`. */
  function CountWord(pretokens: seq<Bytes>, specialBytes: set<Bytes>, w: Symbols): nat
  {
    if |pretokens| == 0 then 0
    else (if WordToSymbols(pretokens[0], specialBytes) == w then 1 else 0)
         + CountWord(pretokens[1..], specialBytes, w)
  }

  lemma {:induction false} BuildFromFreq(t: Table, pretokens: seq<Bytes>, specialBytes: set<Bytes>, w: Symbols)
    ensures FreqOf(BuildFrom(t, pretokens, specialBytes), w) == FreqOf(t, w) + CountWord(pretokens, specialBytes, w)
    decreases |pretokens|
  {
    if |pretokens| > 0 {
      var w0 := WordToSymbols(pretokens[0], specialBytes);
      AddWordFreq(t, w0, 1, w);
      BuildFromFreq(AddWord(t, w0, 1), pretokens[1..], specialBytes, w);
    }
  }

  lemma {:induction false} BuildFromWords(t: Table, pretokens: seq<Bytes>, specialBytes: set<Bytes>)
    ensures TotalFreq(BuildFrom(t, pretokens, specialBytes)) == TotalFreq(t) + |pretokens|
    ensures WordsOf(BuildFrom(t, pretokens, specialBytes))
            == WordsOf(t) + set p | p in pretokens :: WordToSymbols(p, specialBytes)
    decreases |pretokens|
  {
    if |pretokens| > 0 {
      var w0 := WordToSymbols(pretokens[0], specialBytes);
      AddWordWords(t, w0, 1);
      BuildFromWords(AddWord(t, w0, 1), pretokens[1..], specialBytes);
      assert (set p | p in pretokens :: WordToSymbols(p, specialBytes))
             == {w0} + set p | p in pretokens[1..] :: WordToSymbols(p, specialBytes);
    }
  }

  lemma {:induction false} BuildFromDistinct(t: Table, pretokens: seq<Bytes>, specialBytes: set<Bytes>)
    requires DistinctWords(t)
    ensures DistinctWords(BuildFrom(t, pretokens, specialBytes))
    decreases |pretokens|
  {
    if |pretokens| > 0 {
      var w0 := WordToSymbols(pretokens[0], specialBytes);
      AddWordDistinct(t, w0, 1);
      BuildFromDistinct(AddWord(t, w0, 1), pretokens[1..], specialBytes);
    }
  }

  lemma BuildFromSpec(t: Table, pretokens: seq<Bytes>, specialBytes: set<Bytes>)
    ensures forall w :: FreqOf(BuildFrom(t, pretokens, specialBytes), w)
                        == FreqOf(t, w) + CountWord(pretokens, specialBytes, w)
    ensures TotalFreq(BuildFrom(t, pretokens, specialBytes)) == TotalFreq(t) + |pretokens|
    ensures WordsOf(BuildFrom(t, pretokens, specialBytes))
            == WordsOf(t) + set p | p in pretokens :: WordToSymbols(p, specialBytes)
    ensures DistinctWords(t) ==> DistinctWords(BuildFrom(t, pretokens, specialBytes))
  {
    forall w
      ensures FreqOf(BuildFrom(t, pretokens, specialBytes), w) == FreqOf(t, w) + CountWord(pretokens, specialBytes, w)
    {
      BuildFromFreq(t, pretokens, specialBytes, w);
    }
    BuildFromWords(t, pretokens, specialBytes);
    if DistinctWords(t) {
      BuildFromDistinct(t, pretokens, specialBytes);
    }
  }

  /** The word table aggregates pretokens by their initial symbols: every key is distinct,
      each key's frequency is the number of pretokens that start as it, and the keys are
      exactly the pretokens' initial symbol sequences. */
  lemma BuildTableSpec(pretokens: seq<Bytes>, specialBytes: set<Bytes>)
    ensures DistinctWords(BuildTable(pretokens, specialBytes))
    ensures forall w :: FreqOf(BuildTable(pretokens, specialBytes), w) == CountWord(pretokens, specialBytes, w)
    ensures TotalFreq(BuildTable(pretokens, specialBytes)) == |pretokens|
    ensures WordsOf(BuildTable(pretokens, specialBytes))
            == set p | p in pretokens :: WordToSymbols(p, specialBytes)
  {
    BuildFromSpec([], pretokens, specialBytes);
  }

  // ---------------------------------------------------------------------------------
  // Pair counts
  // ---------------------------------------------------------------------------------

  /** `pair_counts`: a counter from adjacent pair to weighted occurrence count. */
  type Counts = map<Pair, nat>

  function Get(m: Counts, p: Pair): nat
  {
    if p in m then m[p] else 0
  }

  /** `pair_counts[p] += f` */
  function Bump(m: Counts, p: Pair, f: nat): Counts
  {
    m[p := Get(m, p) + f]
  }

  /** `for j in range(len(w) - 1): pair_counts[(w[j], w[j+1])] += f`, from index `j`. */
  function AddWordPairs(m: Counts, w: Symbols, f: nat, j: nat): Counts
    decreases |w| - j
  {
    if j + 1 >= |w| then m else AddWordPairs(Bump(m, (w[j], w[j + 1]), f), w, f, j + 1)
  }

  /** The specification of a pair's count: the sum over words of frequency times the
      number of adjacent occurrences. */
  function PairCount(t: Table, p: Pair): nat
  {
    if |t| == 0 then 0 else t[0].freq * Occurrences(t[0].word, p) + PairCount(t[1..], p)
  }

  function PairsOfTable(t: Table): set<Pair>
  {
    if |t| == 0 then {} else PairsOfWord(t[0].word) + PairsOfTable(t[1..])
  }

  /** `_init_pair_counts`, folding over the table from counter `m`. */
  function CountPairsInto(m: Counts, t: Table): Counts
    decreases |t|
  {
    if |t| == 0 then m
    else if |t[0].word| < 2 then CountPairsInto(m, t[1..])
    else CountPairsInto(AddWordPairs(m, t[0].word, t[0].freq, 0), t[1..])
  }

  function InitPairCounts(t: Table): Counts
  {
    CountPairsInto(map[], t)
  }

  /** Dropping the first symbol of a suffix drops exactly its first adjacent pair. */
  lemma SuffixStep(w: Symbols, j: nat, p: Pair)
    requires j + 1 < |w|
    ensures Occurrences(w[j..], p) == (if (w[j], w[j + 1]) == p then 1 else 0) + Occurrences(w[j + 1..], p)
    ensures PairsOfWord(w[j..]) == {(w[j], w[j + 1])} + PairsOfWord(w[j + 1..])
  {
    assert w[j..][1..] == w[j + 1..];
    assert w[j..][0] == w[j] && w[j..][1] == w[j + 1];
  }

  lemma {:induction false} AddWordPairsGetAt(m: Counts, w: Symbols, f: nat, j: nat, p: Pair)
    requires j <= |w|
    ensures Get(AddWordPairs(m, w, f, j), p) == Get(m, p) + f * Occurrences(w[j..], p)
    decreases |w| - j
  {
    if j + 1 < |w| {
      var q := (w[j], w[j + 1]);
      var m' := Bump(m, q, f);
      assert AddWordPairs(m, w, f, j) == AddWordPairs(m', w, f, j + 1);
      AddWordPairsGetAt(m', w, f, j + 1, p);
      SuffixStep(w, j, p);
      var o := Occurrences(w[j + 1..], p);
      if q == p {
        assert Get(m', p) == Get(m, p) + f;
        assert f + f * o == f * (1 + o);
      } else {
        assert Get(m', p) == Get(m, p);
      }
    } else {
      assert |w[j..]| < 2;
    }
  }

  lemma AddWordPairsGet(m: Counts, w: Symbols, f: nat, j: nat)
    requires j <= |w|
    ensures forall p :: Get(AddWordPairs(m, w, f, j), p) == Get(m, p) + f * Occurrences(w[j..], p)
  {
    forall p
      ensures Get(AddWordPairs(m, w, f, j), p) == Get(m, p) + f * Occurrences(w[j..], p)
    {
      AddWordPairsGetAt(m, w, f, j, p);
    }
  }

  lemma {:induction false} AddWordPairsKeys(m: Counts, w: Symbols, f: nat, j: nat)
    requires j <= |w|
    ensures AddWordPairs(m, w, f, j).Keys == m.Keys + PairsOfWord(w[j..])
    decreases |w| - j
  {
    if j + 1 < |w| {
      var q := (w[j], w[j + 1]);
      AddWordPairsKeys(Bump(m, q, f), w, f, j + 1);
      SuffixStep(w, j, q);
    } else {
      assert |w[j..]| < 2;
    }
  }

  /** Counting one word's pairs from index `j` adds `f x occurrences` of each pair in the
      suffix and creates a key for exactly the suffix's pairs. */
  lemma AddWordPairsSpec(m: Counts, w: Symbols, f: nat, j: nat)
    requires j <= |w|
    ensures forall p :: Get(AddWordPairs(m, w, f, j), p) == Get(m, p) + f * Occurrences(w[j..], p)
    ensures AddWordPairs(m, w, f, j).Keys == m.Keys + PairsOfWord(w[j..])
  {
    AddWordPairsGet(m, w, f, j);
    AddWordPairsKeys(m, w, f, j);
  }

  lemma {:induction false} CountPairsIntoSpec(m: Counts, t: Table)
    ensures forall p :: Get(CountPairsInto(m, t), p) == Get(m, p) + PairCount(t, p)
    ensures CountPairsInto(m, t).Keys == m.Keys + PairsOfTable(t)
    decreases |t|
  {
    if |t| > 0 {
      var w := t[0].word;
      assert w[0..] == w;
      if |w| < 2 {
        CountPairsIntoSpec(m, t[1..]);
      } else {
        AddWordPairsSpec(m, w, t[0].freq, 0);
        CountPairsIntoSpec(AddWordPairs(m, w, t[0].freq, 0), t[1..]);
      }
    }
  }

  /** `_init_pair_counts` counts each pair `freq x occurrences`, summed over words, and
      holds a key for exactly the pairs that occur in some word. */
  lemma InitPairCountsSpec(t: Table)
    ensures forall p :: Get(InitPairCounts(t), p) == PairCount(t, p)
    ensures InitPairCounts(t).Keys == PairsOfTable(t)
  {
    CountPairsIntoSpec(map[], t);
  }

  lemma {:induction false} AddWordPairCount(t: Table, w: Symbols, f: nat)
    ensures forall p :: PairCount(AddWord(t, w, f), p) == PairCount(t, p) + f * Occurrences(w, p)
    ensures PairsOfTable(AddWord(t, w, f)) == PairsOfTable(t) + PairsOfWord(w)
  {
    if |t| > 0 {
      if t[0].word == w {
        assert AddWord(t, w, f)[1..] == t[1..];
        forall p
          ensures PairCount(AddWord(t, w, f), p) == PairCount(t, p) + f * Occurrences(w, p)
        {
          assert (t[0].freq + f) * Occurrences(w, p)
                 == t[0].freq * Occurrences(w, p) + f * Occurrences(w, p);
        }
      } else {
        AddWordPairCount(t[1..], w, f);
        assert AddWord(t, w, f)[1..] == AddWord(t[1..], w, f);
      }
    }
  }

  lemma CountsExt(m1: Counts, m2: Counts)
    requires m1.Keys == m2.Keys
    requires forall p :: Get(m1, p) == Get(m2, p)
    ensures m1 == m2
  {
    forall p | p in m1
      ensures m1[p] == m2[p]
    {
      assert Get(m1, p) == Get(m2, p);
    }
  }

  /** Counting a new word's pairs into the counter of a table gives the counter of the
      table with that word added. */
  lemma AddWordPairsCommutes(t: Table, w: Symbols, f: nat)
    ensures AddWordPairs(InitPairCounts(t), w, f, 0) == InitPairCounts(AddWord(t, w, f))
  {
    InitPairCountsSpec(t);
    InitPairCountsSpec(AddWord(t, w, f));
    AddWordPairsSpec(InitPairCounts(t), w, f, 0);
    AddWordPairCount(t, w, f);
    assert w[0..] == w;
    CountsExt(AddWordPairs(InitPairCounts(t), w, f, 0), InitPairCounts(AddWord(t, w, f)));
  }

  // ---------------------------------------------------------------------------------
  // One merge iteration
  // ---------------------------------------------------------------------------------

  /** `max(pair_counts.values())` */
  function MaxCount(m: Counts): (r: nat)
    requires m != map[]
    ensures exists p :: p in m && m[p] == r
    ensures forall p :: p in m ==> m[p] <= r
  {
    ValuesNonEmpty(m);
    ValuesContain(m);
    var r := IntMax(m.Values);
    var p := KeyOf(m, r);
    assert p in m && m[p] == r;
    r
  }

  /** `[p for p, c in pair_counts.items() if c == max_freq]` */
  function Candidates(m: Counts, maxFreq: nat): set<Pair>
  {
    set p | p in m && m[p] == maxFreq
  }

  /** The selection rule: the most frequent pair, ties broken in favour of the greatest
      `(bytes, bytes)` tuple. */
  function SelectPair(m: Counts): (best: Pair)
    requires m != map[]
    ensures best in m
    ensures forall p :: p in m ==> m[p] <= m[best]
    ensures forall p :: p in m && m[p] == m[best] && p != best ==> PairLt(p, best)
  {
    var maxFreq := MaxCount(m);
    var p :| p in m && m[p] == maxFreq;
    assert p in Candidates(m, maxFreq);
    PairMax(Candidates(m, maxFreq))
  }

  /** The rebuilt tables of one iteration. */
  datatype Rebuilt = Rebuilt(words: Table, counts: Counts)

  /** The rewrite over the whole table: each word's pass result is added to the new word
      table with the old frequency (colliding results are summed) and its pairs to the
      new counter. */
  function RewriteTable(t: Table, p: Pair, acc: Rebuilt): Rebuilt
  {
    if |t| == 0 then acc
    else
      var out := Rewrite(t[0].word, p);
      RewriteTable(t[1..], p, Rebuilt(AddWord(acc.words, out, t[0].freq),
                                      AddWordPairs(acc.counts, out, t[0].freq, 0)))
  }

  lemma {:induction false} RewriteTableCounts(t: Table, p: Pair, acc: Rebuilt)
    requires acc.counts == InitPairCounts(acc.words)
    ensures RewriteTable(t, p, acc).counts == InitPairCounts(RewriteTable(t, p, acc).words)
  {
    if |t| > 0 {
      var out := Rewrite(t[0].word, p);
      var next := Rebuilt(AddWord(acc.words, out, t[0].freq), AddWordPairs(acc.counts, out, t[0].freq, 0));
      AddWordPairsCommutes(acc.words, out, t[0].freq);
      RewriteTableCounts(t[1..], p, next);
    }
  }

  lemma {:induction false} RewriteTableWords(t: Table, p: Pair, acc: Rebuilt)
    ensures TotalFreq(RewriteTable(t, p, acc).words) == TotalFreq(acc.words) + TotalFreq(t)
    ensures WordsOf(RewriteTable(t, p, acc).words)
            == WordsOf(acc.words) + set w | w in WordsOf(t) :: Rewrite(w, p)
  {
    if |t| > 0 {
      var out := Rewrite(t[0].word, p);
      var next := Rebuilt(AddWord(acc.words, out, t[0].freq), AddWordPairs(acc.counts, out, t[0].freq, 0));
      AddWordWords(acc.words, out, t[0].freq);
      RewriteTableWords(t[1..], p, next);
      assert (set w | w in WordsOf(t) :: Rewrite(w, p))
             == {out} + set w | w in WordsOf(t[1..]) :: Rewrite(w, p);
    }
  }

  lemma {:induction false} RewriteTableDistinct(t: Table, p: Pair, acc: Rebuilt)
    requires DistinctWords(acc.words)
    ensures DistinctWords(RewriteTable(t, p, acc).words)
  {
    if |t| > 0 {
      var out := Rewrite(t[0].word, p);
      var next := Rebuilt(AddWord(acc.words, out, t[0].freq), AddWordPairs(acc.counts, out, t[0].freq, 0));
      AddWordDistinct(acc.words, out, t[0].freq);
      RewriteTableDistinct(t[1..], p, next);
    }
  }

  /** The summed frequency of the words of `t` whose pass result is `v`. */
  function RewrittenFreq(t: Table, p: Pair, v: Symbols): nat
  {
    if |t| == 0 then 0
    else (if Rewrite(t[0].word, p) == v then t[0].freq else 0) + RewrittenFreq(t[1..], p, v)
  }

  lemma {:induction false} RewriteTableFreq(t: Table, p: Pair, acc: Rebuilt, v: Symbols)
    ensures FreqOf(RewriteTable(t, p, acc).words, v) == FreqOf(acc.words, v) + RewrittenFreq(t, p, v)
  {
    if |t| > 0 {
      var out := Rewrite(t[0].word, p);
      var next := Rebuilt(AddWord(acc.words, out, t[0].freq), AddWordPairs(acc.counts, out, t[0].freq, 0));
      AddWordFreq(acc.words, out, t[0].freq, v);
      RewriteTableFreq(t[1..], p, next, v);
    }
  }

  /** The counter rebuilt alongside the rewrite equals `_init_pair_counts` of the
      rewritten table; each new word's frequency is the summed frequency of the old words
      that rewrite to it; every word's rewrite is a key of the new table; total frequency
      is kept even when rewritten words collide; keys stay distinct. */
  lemma RewriteTableSpec(t: Table, p: Pair, acc: Rebuilt)
    requires acc.counts == InitPairCounts(acc.words)
    ensures forall v :: FreqOf(RewriteTable(t, p, acc).words, v) == FreqOf(acc.words, v) + RewrittenFreq(t, p, v)
    ensures RewriteTable(t, p, acc).counts == InitPairCounts(RewriteTable(t, p, acc).words)
    ensures TotalFreq(RewriteTable(t, p, acc).words) == TotalFreq(acc.words) + TotalFreq(t)
    ensures WordsOf(RewriteTable(t, p, acc).words)
            == WordsOf(acc.words) + set w | w in WordsOf(t) :: Rewrite(w, p)
    ensures DistinctWords(acc.words) ==> DistinctWords(RewriteTable(t, p, acc).words)
  {
    forall v
      ensures FreqOf(RewriteTable(t, p, acc).words, v) == FreqOf(acc.words, v) + RewrittenFreq(t, p, v)
    {
      RewriteTableFreq(t, p, acc, v);
    }
    RewriteTableCounts(t, p, acc);
    RewriteTableWords(t, p, acc);
    if DistinctWords(acc.words) {
      RewriteTableDistinct(t, p, acc);
    }
  }

  // ---------------------------------------------------------------------------------
  // Vocabulary initialisation
  // ---------------------------------------------------------------------------------

  /** `{i: bytes([i]) for i in range(256)}` */
  function ByteVocab(): Vocab
  {
    RangeSpec(256);
    map k | k in Range(256) :: [k as Byte]
  }

  lemma ByteVocabKeys()
    ensures forall k :: k in ByteVocab() <==> 0 <= k < 256
    ensures forall k :: 0 <= k < 256 ==> ByteVocab()[k] == [k as Byte]
  {
    RangeSpec(256);
  }

  /** The byte vocabulary maps ids 0-255 to their own byte, and its values are exactly
      the single-byte strings. */
  lemma ByteVocabSpec()
    ensures forall k :: k in ByteVocab() <==> 0 <= k < 256
    ensures forall k :: 0 <= k < 256 ==> ByteVocab()[k] == [k as Byte]
    ensures forall t :: t in ByteVocab().Values <==> |t| == 1
  {
    ByteVocabKeys();
    var v := ByteVocab();
    forall t | |t| == 1
      ensures t in v.Values
    {
      var k := t[0] as int;
      assert k in v;
      assert v[k] == [t[0]] == t;
      ValuesContain(v);
    }
    forall t | t in v.Values
      ensures |t| == 1
    {
      var k := KeyOf(v, t);
      assert 0 <= k < 256;
    }
  }

  /** Keys are exactly `0 .. n-1`. */
  ghost predicate DenseIds(v: Vocab, n: int)
  {
    forall k :: k in v <==> 0 <= k < n
  }

  lemma DenseCard(v: Vocab, n: nat)
    requires DenseIds(v, n)
    ensures |v| == n
  {
    RangeSpec(n);
    forall k | k in v.Keys
      ensures k in Range(n)
    {
      assert k in v;
    }
    forall k | k in Range(n)
      ensures k in v.Keys
    {
      assert 0 <= k < n;
    }
    assert v.Keys == Range(n);
  }

  lemma AddFreshValue(v: Vocab, k: int, t: Bytes)
    requires k !in v
    ensures v[k := t].Values == v.Values + {t}
  {
    var u := v[k := t];
    forall x | x in v.Values
      ensures x in u.Values
    {
      var j := KeyOf(v, x);
      assert u[j] == x;
    }
    forall x | x in u.Values
      ensures x in v.Values + {t}
    {
      var j := KeyOf(u, x);
      if j != k {
        assert v[j] == x;
      }
    }
    assert u[k] == t;
  }

  /** The vocabulary being built and the next free id. */
  datatype Init = Init(vocab: Vocab, nextId: int)

  /** The special-token loop: each token whose bytes are not yet a value gets the next id. */
  function AddSpecials(acc: Init, toks: seq<Bytes>): Init
    decreases |toks|
  {
    if |toks| == 0 then acc
    else if toks[0] in acc.vocab.Values then AddSpecials(acc, toks[1..])
    else AddSpecials(Init(acc.vocab[acc.nextId := toks[0]], acc.nextId + 1), toks[1..])
  }

  function InitVocab(specialBytes: seq<Bytes>): Init
  {
    AddSpecials(Init(ByteVocab(), 256), specialBytes)
  }

  /** Reference for the tokens that receive an id: those not already seen, each once, in
      list order. */
  function FreshTokens(seen: set<Bytes>, toks: seq<Bytes>): seq<Bytes>
    decreases |toks|
  {
    if |toks| == 0 then []
    else if toks[0] in seen then FreshTokens(seen, toks[1..])
    else [toks[0]] + FreshTokens(seen + {toks[0]}, toks[1..])
  }

  /** The fresh tokens are distinct, and are exactly the listed tokens not already seen. */
  lemma {:induction false} FreshTokensSpec(seen: set<Bytes>, toks: seq<Bytes>)
    ensures forall t :: t in FreshTokens(seen, toks) <==> t in toks && t !in seen
    ensures forall i, j :: 0 <= i < j < |FreshTokens(seen, toks)| ==>
              FreshTokens(seen, toks)[i] != FreshTokens(seen, toks)[j]
    decreases |toks|
  {
    if |toks| > 0 {
      var t0 := toks[0];
      assert forall t :: t in toks <==> t == t0 || t in toks[1..];
      if t0 in seen {
        FreshTokensSpec(seen, toks[1..]);
      } else {
        var rest := FreshTokens(seen + {t0}, toks[1..]);
        FreshTokensSpec(seen + {t0}, toks[1..]);
        var r := FreshTokens(seen, toks);
        assert r == [t0] + rest;
        forall i, j | 0 <= i < j < |r|
          ensures r[i] != r[j]
        {
          assert r[j] == rest[j - 1];
          if i > 0 {
            assert r[i] == rest[i - 1];
          }
        }
      }
    }
  }

  /** The special-token loop keeps the ids dense, moves the next id past one id per
      fresh token, and changes no earlier id. */
  lemma {:induction false} AddSpecialsShape(acc: Init, toks: seq<Bytes>)
    requires acc.nextId >= 0 && DenseIds(acc.vocab, acc.nextId)
    ensures DenseIds(AddSpecials(acc, toks).vocab, AddSpecials(acc, toks).nextId)
    ensures AddSpecials(acc, toks).nextId == acc.nextId + |FreshTokens(acc.vocab.Values, toks)|
    ensures forall k :: 0 <= k < acc.nextId ==> AddSpecials(acc, toks).vocab[k] == acc.vocab[k]
    decreases |toks|
  {
    if |toks| > 0 {
      var t0 := toks[0];
      if t0 in acc.vocab.Values {
        AddSpecialsShape(acc, toks[1..]);
      } else {
        var next := Init(acc.vocab[acc.nextId := t0], acc.nextId + 1);
        AddFreshValue(acc.vocab, acc.nextId, t0);
        AddSpecialsShape(next, toks[1..]);
        assert FreshTokens(acc.vocab.Values, toks) == [t0] + FreshTokens(next.vocab.Values, toks[1..]);
      }
    }
  }

  /** The j-th fresh token gets id `nextId + j`. */
  lemma {:induction false} AddSpecialsFresh(acc: Init, toks: seq<Bytes>)
    requires acc.nextId >= 0 && DenseIds(acc.vocab, acc.nextId)
    ensures forall j :: 0 <= j < |FreshTokens(acc.vocab.Values, toks)| ==>
              acc.nextId + j in AddSpecials(acc, toks).vocab &&
              AddSpecials(acc, toks).vocab[acc.nextId + j] == FreshTokens(acc.vocab.Values, toks)[j]
    decreases |toks|
  {
    AddSpecialsShape(acc, toks);
    if |toks| > 0 {
      var t0 := toks[0];
      var r := AddSpecials(acc, toks);
      if t0 in acc.vocab.Values {
        AddSpecialsFresh(acc, toks[1..]);
      } else {
        var next := Init(acc.vocab[acc.nextId := t0], acc.nextId + 1);
        AddFreshValue(acc.vocab, acc.nextId, t0);
        AddSpecialsFresh(next, toks[1..]);
        AddSpecialsShape(next, toks[1..]);
        assert r == AddSpecials(next, toks[1..]);
        var added := FreshTokens(acc.vocab.Values, toks);
        var rest := FreshTokens(next.vocab.Values, toks[1..]);
        assert added == [t0] + rest;
        forall j | 0 <= j < |added|
          ensures r.vocab[acc.nextId + j] == added[j]
        {
          if j == 0 {
            assert r.vocab[acc.nextId] == next.vocab[acc.nextId];
          } else {
            assert added[j] == rest[j - 1];
            assert r.vocab[next.nextId + (j - 1)] == rest[j - 1];
          }
        }
      }
    }
  }

  /** Every special token's bytes end up a value of the vocabulary. */
  lemma {:induction false} AddSpecialsHolds(acc: Init, toks: seq<Bytes>)
    requires acc.nextId >= 0 && DenseIds(acc.vocab, acc.nextId)
    ensures forall t :: t in toks ==> t in AddSpecials(acc, toks).vocab.Values
    decreases |toks|
  {
    if |toks| > 0 {
      var t0 := toks[0];
      var r := AddSpecials(acc, toks);
      var next := if t0 in acc.vocab.Values then acc else Init(acc.vocab[acc.nextId := t0], acc.nextId + 1);
      if t0 !in acc.vocab.Values {
        AddFreshValue(acc.vocab, acc.nextId, t0);
      }
      assert t0 in next.vocab.Values;
      assert r == AddSpecials(next, toks[1..]);
      AddSpecialsShape(next, toks[1..]);
      AddSpecialsHolds(next, toks[1..]);
      var k := KeyOf(next.vocab, t0);
      assert r.vocab[k] == t0;
      ValuesContain(r.vocab);
      forall t | t in toks
        ensures t in r.vocab.Values
      {
        if t != t0 {
          assert t in toks[1..];
        }
      }
    }
  }

  lemma AddSpecialsSpec(acc: Init, toks: seq<Bytes>)
    requires acc.nextId >= 0 && DenseIds(acc.vocab, acc.nextId)
    ensures DenseIds(AddSpecials(acc, toks).vocab, AddSpecials(acc, toks).nextId)
    ensures AddSpecials(acc, toks).nextId == acc.nextId + |FreshTokens(acc.vocab.Values, toks)|
    ensures forall k :: 0 <= k < acc.nextId ==> AddSpecials(acc, toks).vocab[k] == acc.vocab[k]
    ensures forall j :: 0 <= j < |FreshTokens(acc.vocab.Values, toks)| ==>
              AddSpecials(acc, toks).vocab[acc.nextId + j] == FreshTokens(acc.vocab.Values, toks)[j]
    ensures forall t :: t in toks ==> t in AddSpecials(acc, toks).vocab.Values
  {
    AddSpecialsShape(acc, toks);
    AddSpecialsFresh(acc, toks);
    AddSpecialsHolds(acc, toks);
  }

  /** The size of the initial vocabulary: 256 plus the distinct special tokens that are
      not single bytes. */
  function InitialSize(specialBytes: seq<Bytes>): nat
  {
    256 + |FreshTokens(ByteVocab().Values, specialBytes)|
  }

  /** The initial vocabulary: ids 0-255 are the single bytes; the next ids are the
      distinct special tokens that are not single bytes, in list order; every special
      token's bytes are a value; the ids are exactly `0 .. size-1`. */
  lemma InitVocabSpec(specialBytes: seq<Bytes>)
    ensures DenseIds(InitVocab(specialBytes).vocab, InitialSize(specialBytes))
    ensures InitVocab(specialBytes).nextId == InitialSize(specialBytes)
    ensures |InitVocab(specialBytes).vocab| == InitialSize(specialBytes)
    ensures forall k :: 0 <= k < 256 ==> InitVocab(specialBytes).vocab[k] == [k as Byte]
    ensures forall j :: 0 <= j < InitialSize(specialBytes) - 256 ==>
              InitVocab(specialBytes).vocab[256 + j] == FreshTokens(ByteVocab().Values, specialBytes)[j]
    ensures forall t :: t in specialBytes ==> t in InitVocab(specialBytes).vocab.Values
  {
    ByteVocabSpec();
    AddSpecialsSpec(Init(ByteVocab(), 256), specialBytes);
    DenseCard(InitVocab(specialBytes).vocab, InitialSize(specialBytes));
  }

  // ---------------------------------------------------------------------------------
  // The merge loop
  // ---------------------------------------------------------------------------------

  /** The trainer's loop state. */
  datatype TrainState = TrainState(vocab: Vocab, nextId: int, merges: seq<Pair>, words: Table, counts: Counts)

  /** The loop condition together with its two early exits: the target size is not yet
      reached, some pair is left, and some pair occurs at least twice. */
  predicate Continues(st: TrainState, vocabSize: int)
  {
    |st.vocab| < vocabSize && st.counts != map[] && MaxCount(st.counts) >= 2
  }

  /** One iteration: select the pair, give its concatenation the next id, record the
      merge, and rebuild the word table and the counter. */
  function Step(st: TrainState): TrainState
    requires st.counts != map[]
  {
    var best := SelectPair(st.counts);
    var rebuilt := RewriteTable(st.words, best, Rebuilt([], map[]));
    TrainState(st.vocab[st.nextId := best.0 + best.1], st.nextId + 1, st.merges + [best],
               rebuilt.words, rebuilt.counts)
  }

  /** `while len(vocab) < vocab_size: ...` */
  function MergeLoop(st: TrainState, vocabSize: int): (r: TrainState)
    requires st.nextId >= 0 && DenseIds(st.vocab, st.nextId)
    ensures r.nextId >= st.nextId && DenseIds(r.vocab, r.nextId)
    ensures |r.merges| == |st.merges| + (r.nextId - st.nextId)
    ensures !Continues(r, vocabSize)
    decreases vocabSize - |st.vocab|
  {
    if Continues(st, vocabSize) then
      assert st.nextId !in st.vocab;
      MergeLoop(Step(st), vocabSize)
    else st
  }

  /** What one iteration adds: the next id holds the selected pair's concatenation and
      the pair is appended to the merges; nothing else in the vocabulary changes. */
  lemma StepSpec(st: TrainState)
    requires st.counts != map[]
    requires st.nextId >= 0 && DenseIds(st.vocab, st.nextId)
    ensures Step(st).merges == st.merges + [SelectPair(st.counts)]
    ensures Step(st).nextId == st.nextId + 1
    ensures Step(st).vocab[st.nextId] == SelectPair(st.counts).0 + SelectPair(st.counts).1
    ensures forall k :: 0 <= k < st.nextId ==> Step(st).vocab[k] == st.vocab[k]
    ensures |Step(st).vocab| == |st.vocab| + 1
  {
    assert st.nextId !in st.vocab;
  }

  /** What a later loop state keeps of an earlier one: its merges as a prefix and its
      vocabulary entries below its next id. */
  ghost predicate Extends(r: TrainState, st: TrainState)
  {
    && |st.merges| <= |r.merges|
    && r.merges[..|st.merges|] == st.merges
    && forall k :: 0 <= k < st.nextId && k in st.vocab ==> k in r.vocab && r.vocab[k] == st.vocab[k]
  }

  lemma ExtendsTrans(a: TrainState, b: TrainState, c: TrainState)
    requires Extends(b, a) && Extends(c, b) && a.nextId <= b.nextId
    ensures Extends(c, a)
  {
    assert c.merges[..|a.merges|] == c.merges[..|b.merges|][..|a.merges|];
  }

  lemma {:induction false} MergeLoopExtends(st: TrainState, vocabSize: int)
    requires st.nextId >= 0 && DenseIds(st.vocab, st.nextId)
    ensures Extends(MergeLoop(st, vocabSize), st)
    decreases vocabSize - |st.vocab|
  {
    if Continues(st, vocabSize) {
      StepSpec(st);
      var next := Step(st);
      assert next.merges[..|st.merges|] == st.merges;
      assert Extends(next, st);
      MergeLoopExtends(next, vocabSize);
      assert MergeLoop(st, vocabSize) == MergeLoop(next, vocabSize);
      ExtendsTrans(st, next, MergeLoop(st, vocabSize));
    } else {
      assert st.merges[..|st.merges|] == st.merges;
    }
  }

  /** The loop only appends: earlier merges and vocabulary entries are kept. */
  lemma MergeLoopKeeps(st: TrainState, vocabSize: int)
    requires st.nextId >= 0 && DenseIds(st.vocab, st.nextId)
    ensures MergeLoop(st, vocabSize).merges[..|st.merges|] == st.merges
    ensures forall k :: 0 <= k < st.nextId ==> MergeLoop(st, vocabSize).vocab[k] == st.vocab[k]
  {
    MergeLoopExtends(st, vocabSize);
  }

  /** The merges learned since a loop state with `firstMerge` merges and next id
      `firstId`: one id each, in order, holding the merge's concatenation. */
  ghost predicate LearnedSince(st: TrainState, firstId: int, firstMerge: nat)
  {
    && firstMerge <= |st.merges|
    && st.nextId - firstId == |st.merges| - firstMerge
    && HoldsMerges(st.vocab, st.merges[firstMerge..], firstId)
  }

  /** One iteration extends what was learned by its own merge and id. */
  lemma StepLearns(st: TrainState, firstId: int, firstMerge: nat)
    requires st.counts != map[]
    requires st.nextId >= 0 && DenseIds(st.vocab, st.nextId)
    requires 0 <= firstId <= st.nextId
    requires LearnedSince(st, firstId, firstMerge)
    ensures LearnedSince(Step(st), firstId, firstMerge)
  {
    StepSpec(st);
    var next := Step(st);
    var old_ := st.merges[firstMerge..];
    var new_ := next.merges[firstMerge..];
    assert new_ == old_ + [SelectPair(st.counts)];
    forall k | 0 <= k < |new_|
      ensures firstId + k in next.vocab && next.vocab[firstId + k] == new_[k].0 + new_[k].1
    {
      if k < |old_| {
        assert new_[k] == old_[k];
      }
    }
  }

  lemma {:induction false} MergeLoopLearns(st: TrainState, vocabSize: int, firstId: int, firstMerge: nat)
    requires st.nextId >= 0 && DenseIds(st.vocab, st.nextId)
    requires 0 <= firstId <= st.nextId
    requires LearnedSince(st, firstId, firstMerge)
    ensures LearnedSince(MergeLoop(st, vocabSize), firstId, firstMerge)
    decreases vocabSize - |st.vocab|
  {
    if Continues(st, vocabSize) {
      StepLearns(st, firstId, firstMerge);
      StepSpec(st);
      MergeLoopLearns(Step(st), vocabSize, firstId, firstMerge);
      assert MergeLoop(st, vocabSize) == MergeLoop(Step(st), vocabSize);
    }
  }

  /** The k-th id the loop adds holds the concatenation of the k-th merge it learns. */
  lemma MergeLoopAdds(st: TrainState, vocabSize: int)
    requires st.nextId >= 0 && DenseIds(st.vocab, st.nextId)
    ensures |st.merges| <= |MergeLoop(st, vocabSize).merges|
    ensures HoldsMerges(MergeLoop(st, vocabSize).vocab, MergeLoop(st, vocabSize).merges[|st.merges|..], st.nextId)
  {
    assert st.merges[|st.merges|..] == [];
    MergeLoopLearns(st, vocabSize, st.nextId, |st.merges|);
  }

  /** Starting within the target, the loop never grows the vocabulary past it. */
  lemma {:induction false} MergeLoopBound(st: TrainState, vocabSize: int)
    requires st.nextId >= 0 && DenseIds(st.vocab, st.nextId)
    requires |st.vocab| <= vocabSize
    ensures |MergeLoop(st, vocabSize).vocab| <= vocabSize
    decreases vocabSize - |st.vocab|
  {
    if Continues(st, vocabSize) {
      StepSpec(st);
      MergeLoopBound(Step(st), vocabSize);
    }
  }

  /** One iteration keeps the counter equal to `_init_pair_counts` of the new table, keeps
      the keys distinct and the total frequency, and moves every replayed word along. */
  lemma StepTables(st: TrainState)
    requires st.counts != map[]
    requires st.counts == InitPairCounts(st.words)
    ensures Step(st).counts == InitPairCounts(Step(st).words)
    ensures TotalFreq(Step(st).words) == TotalFreq(st.words)
    ensures DistinctWords(Step(st).words)
    ensures forall w :: ApplyMerges(st.merges, w) in WordsOf(st.words) ==>
              ApplyMerges(Step(st).merges, w) in WordsOf(Step(st).words)
  {
    var best := SelectPair(st.counts);
    assert InitPairCounts([]) == map[];
    RewriteTableSpec(st.words, best, Rebuilt([], map[]));
    var next := Step(st);
    forall w | ApplyMerges(st.merges, w) in WordsOf(st.words)
      ensures ApplyMerges(next.merges, w) in WordsOf(next.words)
    {
      ApplyMergesSnoc(st.merges, best, w);
      var u := ApplyMerges(st.merges, w);
      assert Rewrite(u, best) in set x | x in WordsOf(st.words) :: Rewrite(x, best);
    }
  }

  /** The loop's table invariant: the counter is `_init_pair_counts` of the table, and
      every initial word replayed through the merges so far is a key of the table. */
  ghost predicate Tracks(st: TrainState, initialWords: set<Symbols>)
  {
    && st.counts == InitPairCounts(st.words)
    && forall w :: w in initialWords ==> ApplyMerges(st.merges, w) in WordsOf(st.words)
  }

  lemma {:induction false} MergeLoopTracks(st: TrainState, vocabSize: int, initialWords: set<Symbols>)
    requires st.nextId >= 0 && DenseIds(st.vocab, st.nextId)
    requires Tracks(st, initialWords)
    ensures Tracks(MergeLoop(st, vocabSize), initialWords)
    ensures TotalFreq(MergeLoop(st, vocabSize).words) == TotalFreq(st.words)
    decreases vocabSize - |st.vocab|
  {
    if Continues(st, vocabSize) {
      assert st.nextId !in st.vocab;
      StepTables(st);
      MergeLoopTracks(Step(st), vocabSize, initialWords);
      assert MergeLoop(st, vocabSize) == MergeLoop(Step(st), vocabSize);
    }
  }

  /** Along the loop the rebuilt counter stays `_init_pair_counts` of the current table,
      every initial word replayed through the merges so far is a key of the current table,
      and the total frequency never changes. */
  lemma MergeLoopTables(st: TrainState, vocabSize: int, initialWords: set<Symbols>)
    requires st.nextId >= 0 && DenseIds(st.vocab, st.nextId)
    requires st.counts == InitPairCounts(st.words)
    requires forall w :: w in initialWords ==> ApplyMerges(st.merges, w) in WordsOf(st.words)
    ensures MergeLoop(st, vocabSize).counts == InitPairCounts(MergeLoop(st, vocabSize).words)
    ensures forall w :: w in initialWords ==>
              ApplyMerges(MergeLoop(st, vocabSize).merges, w) in WordsOf(MergeLoop(st, vocabSize).words)
    ensures TotalFreq(MergeLoop(st, vocabSize).words) == TotalFreq(st.words)
  {
    MergeLoopTracks(st, vocabSize, initialWords);
  }

  // ---------------------------------------------------------------------------------
  // Frequencies along the loop
  // ---------------------------------------------------------------------------------

  /** How many of the pretokens the merges so far turn into `v`. */
  function ReplayCount(pretokens: seq<Bytes>, specialBytes: set<Bytes>, merges: seq<Pair>, v: Symbols): nat
  {
    if |pretokens| == 0 then 0
    else (if ApplyMerges(merges, WordToSymbols(pretokens[0], specialBytes)) == v then 1 else 0)
         + ReplayCount(pretokens[1..], specialBytes, merges, v)
  }

  /** With no merges yet, the replay count is the initial count of the word. */
  lemma {:induction false} ReplayCountInitial(pretokens: seq<Bytes>, specialBytes: set<Bytes>, v: Symbols)
    ensures ReplayCount(pretokens, specialBytes, [], v) == CountWord(pretokens, specialBytes, v)
  {
    if |pretokens| > 0 {
      ReplayCountInitial(pretokens[1..], specialBytes, v);
    }
  }

  /** Every pretoken is counted for its own replay. */
  lemma {:induction false} ReplayCountPositive(pretokens: seq<Bytes>, specialBytes: set<Bytes>, merges: seq<Pair>, i: nat)
    requires i < |pretokens|
    ensures ReplayCount(pretokens, specialBytes, merges, ApplyMerges(merges, WordToSymbols(pretokens[i], specialBytes))) > 0
  {
    if i > 0 {
      assert pretokens[1..][i - 1] == pretokens[i];
      ReplayCountPositive(pretokens[1..], specialBytes, merges, i - 1);
    }
  }

  lemma {:induction false} FreqOfAbsent(t: Table, w: Symbols)
    requires w !in WordsOf(t)
    ensures FreqOf(t, w) == 0
  {
    if |t| > 0 {
      FreqOfAbsent(t[1..], w);
    }
  }

  /** In a distinct table, a key's frequency is its entry's. */
  lemma {:induction false} FreqOfKey(t: Table, i: nat)
    requires DistinctWords(t) && i < |t|
    ensures FreqOf(t, t[i].word) == t[i].freq
  {
    HeadNotInTail(t);
    if i == 0 {
      FreqOfAbsent(t[1..], t[0].word);
    } else {
      assert DistinctWords(t[1..]);
      assert t[1..][i - 1] == t[i];
      assert t[0].word != t[i].word;
      FreqOfKey(t[1..], i - 1);
    }
  }

  /** Over the words of `t` whose pass result is `v`, the sum of their replay counts. */
  function SumCounts(t: Table, p: Pair, v: Symbols, pretokens: seq<Bytes>, specialBytes: set<Bytes>,
                     merges: seq<Pair>): nat
  {
    if |t| == 0 then 0
    else (if Rewrite(t[0].word, p) == v then ReplayCount(pretokens, specialBytes, merges, t[0].word) else 0)
         + SumCounts(t[1..], p, v, pretokens, specialBytes, merges)
  }

  lemma {:induction false} RewrittenFreqAsCounts(t: Table, p: Pair, v: Symbols, pretokens: seq<Bytes>,
                                                 specialBytes: set<Bytes>, merges: seq<Pair>)
    requires forall i :: 0 <= i < |t| ==> t[i].freq == ReplayCount(pretokens, specialBytes, merges, t[i].word)
    ensures RewrittenFreq(t, p, v) == SumCounts(t, p, v, pretokens, specialBytes, merges)
  {
    if |t| > 0 {
      assert forall i :: 0 <= i < |t[1..]| ==> t[1..][i] == t[i + 1];
      RewrittenFreqAsCounts(t[1..], p, v, pretokens, specialBytes, merges);
    }
  }

  lemma {:induction false} SumCountsNone(t: Table, p: Pair, v: Symbols, specialBytes: set<Bytes>, merges: seq<Pair>)
    ensures SumCounts(t, p, v, [], specialBytes, merges) == 0
  {
    if |t| > 0 {
      SumCountsNone(t[1..], p, v, specialBytes, merges);
    }
  }

  /** Peeling one pretoken off: it adds one exactly when its replay is a key of the table
      whose pass result is `v`. */
  lemma {:induction false} SumCountsCons(t: Table, p: Pair, v: Symbols, pretokens: seq<Bytes>,
                                         specialBytes: set<Bytes>, merges: seq<Pair>)
    requires |pretokens| > 0 && DistinctWords(t)
    ensures var u := ApplyMerges(merges, WordToSymbols(pretokens[0], specialBytes));
            SumCounts(t, p, v, pretokens, specialBytes, merges)
            == (if u in WordsOf(t) && Rewrite(u, p) == v then 1 else 0)
               + SumCounts(t, p, v, pretokens[1..], specialBytes, merges)
  {
    if |t| > 0 {
      HeadNotInTail(t);
      assert DistinctWords(t[1..]);
      SumCountsCons(t[1..], p, v, pretokens, specialBytes, merges);
    }
  }

  /** Summing the replay counts of the words that rewrite to `v` counts the pretokens
      whose replay, one merge further, is `v`. */
  lemma {:induction false} SumCountsReplay(t: Table, p: Pair, v: Symbols, pretokens: seq<Bytes>,
                                           specialBytes: set<Bytes>, merges: seq<Pair>)
    requires DistinctWords(t)
    requires forall i :: 0 <= i < |pretokens| ==>
               ApplyMerges(merges, WordToSymbols(pretokens[i], specialBytes)) in WordsOf(t)
    ensures SumCounts(t, p, v, pretokens, specialBytes, merges) == ReplayCount(pretokens, specialBytes, merges + [p], v)
  {
    if |pretokens| == 0 {
      SumCountsNone(t, p, v, specialBytes, merges);
    } else {
      var w0 := WordToSymbols(pretokens[0], specialBytes);
      SumCountsCons(t, p, v, pretokens, specialBytes, merges);
      assert forall i :: 0 <= i < |pretokens[1..]| ==> pretokens[1..][i] == pretokens[i + 1];
      SumCountsReplay(t, p, v, pretokens[1..], specialBytes, merges);
      ApplyMergesSnoc(merges, p, w0);
    }
  }

  /** The loop's frequency invariant: the table's keys are distinct and each word's
      frequency is the number of pretokens that the merges so far turn into it. */
  ghost predicate CountsReplays(st: TrainState, pretokens: seq<Bytes>, specialBytes: set<Bytes>)
  {
    && DistinctWords(st.words)
    && forall v :: FreqOf(st.words, v) == ReplayCount(pretokens, specialBytes, st.merges, v)
  }

  /** One iteration keeps the frequency invariant: after the merge, each word's frequency
      is the number of pretokens whose replay, one merge further, is that word. */
  lemma StepFreqs(st: TrainState, pretokens: seq<Bytes>, specialBytes: set<Bytes>)
    requires st.counts != map[]
    requires CountsReplays(st, pretokens, specialBytes)
    ensures CountsReplays(Step(st), pretokens, specialBytes)
  {
    var best := SelectPair(st.counts);
    var t := st.words;
    var m := st.merges;
    var acc := Rebuilt([], map[]);
    RewriteTableDistinct(t, best, acc);
    forall i | 0 <= i < |t|
      ensures t[i].freq == ReplayCount(pretokens, specialBytes, m, t[i].word)
    {
      FreqOfKey(t, i);
    }
    forall i | 0 <= i < |pretokens|
      ensures ApplyMerges(m, WordToSymbols(pretokens[i], specialBytes)) in WordsOf(t)
    {
      var u := ApplyMerges(m, WordToSymbols(pretokens[i], specialBytes));
      ReplayCountPositive(pretokens, specialBytes, m, i);
      if u !in WordsOf(t) {
        FreqOfAbsent(t, u);
        assert false;
      }
    }
    var next := Step(st);
    assert next.words == RewriteTable(t, best, acc).words && next.merges == m + [best];
    forall v
      ensures FreqOf(next.words, v) == ReplayCount(pretokens, specialBytes, next.merges, v)
    {
      RewriteTableFreq(t, best, acc, v);
      RewrittenFreqAsCounts(t, best, v, pretokens, specialBytes, m);
      SumCountsReplay(t, best, v, pretokens, specialBytes, m);
    }
  }

  /** Across the whole loop, each word's frequency is the number of pretokens that the
      learned merges turn into it. */
  lemma {:induction false} MergeLoopFreqs(st: TrainState, vocabSize: int, pretokens: seq<Bytes>,
                                          specialBytes: set<Bytes>)
    requires st.nextId >= 0 && DenseIds(st.vocab, st.nextId)
    requires CountsReplays(st, pretokens, specialBytes)
    ensures CountsReplays(MergeLoop(st, vocabSize), pretokens, specialBytes)
    decreases vocabSize - |st.vocab|
  {
    if Continues(st, vocabSize) {
      assert st.nextId !in st.vocab;
      StepFreqs(st, pretokens, specialBytes);
      MergeLoopFreqs(Step(st), vocabSize, pretokens, specialBytes);
      assert MergeLoop(st, vocabSize) == MergeLoop(Step(st), vocabSize);
    }
  }

  // ---------------------------------------------------------------------------------
  // Entry points
  // ---------------------------------------------------------------------------------

  /** Training errors (`ValueError` in the source). */
  datatype TrainError = NonPositiveVocabSize | VocabSizeBelowInitial(vocabSize: int, initialSize: nat)

  /** The loop's starting state for a pretoken stream. */
  function StartState(pretokens: seq<Bytes>, specialBytes: seq<Bytes>): TrainState
  {
    var init := InitVocab(specialBytes);
    var words := BuildTable(pretokens, set t | t in specialBytes);
    TrainState(init.vocab, init.nextId, [], words, InitPairCounts(words))
  }

  /** `train_bpe` from the pretoken stream, exposing the final loop state. */
  function TrainOnPretokens(pretokens: seq<Bytes>, vocabSize: int, specialBytes: seq<Bytes>)
    : Result<TrainState, TrainError>
  {
    if vocabSize <= 0 then Err(NonPositiveVocabSize)
    else
      var init := InitVocab(specialBytes);
      if vocabSize < |init.vocab| then Err(VocabSizeBelowInitial(vocabSize, |init.vocab|))
      else
        InitVocabSpec(specialBytes);
        Ok(MergeLoop(StartState(pretokens, specialBytes), vocabSize))
  }

  /** `train_bpe` on an in-memory text: `(vocab, merges)` or the configuration error. */
  function TrainBpe(cm: Pretokenizer.CharModel, text: string, vocabSize: int, specials: seq<string>)
    : Result<(Vocab, seq<Pair>), TrainError>
    requires Pretokenizer.NonEmptyTokens(specials)
  {
    match TrainOnPretokens(Pretokenizer.Pretokens(cm, specials, text), vocabSize,
                           Pretokenizer.Utf8Each(cm, specials))
    case Ok(st) => Ok((st.vocab, st.merges))
    case Err(e) => Err(e)
  }

  /** The two configuration checks, in the source's order, and nothing else fails. */
  lemma TrainErrors(pretokens: seq<Bytes>, vocabSize: int, specialBytes: seq<Bytes>)
    ensures TrainOnPretokens(pretokens, vocabSize, specialBytes) == Err(NonPositiveVocabSize)
            <==> vocabSize <= 0
    ensures TrainOnPretokens(pretokens, vocabSize, specialBytes)
            == Err(VocabSizeBelowInitial(vocabSize, InitialSize(specialBytes)))
            <==> 0 < vocabSize < InitialSize(specialBytes)
    ensures TrainOnPretokens(pretokens, vocabSize, specialBytes).Ok?
            <==> InitialSize(specialBytes) <= vocabSize
  {
    InitVocabSpec(specialBytes);
  }

  /** The size of a trained vocabulary: at most `vocab_size` entries with ids exactly
      `0 .. len-1`, one merge per id past the initial ones, and the loop ended for one
      of its three reasons. */
  lemma TrainShape(pretokens: seq<Bytes>, vocabSize: int, specialBytes: seq<Bytes>)
    requires InitialSize(specialBytes) <= vocabSize
    ensures TrainOnPretokens(pretokens, vocabSize, specialBytes).Ok?
    ensures var st := TrainOnPretokens(pretokens, vocabSize, specialBytes).value;
            |st.vocab| <= vocabSize && DenseIds(st.vocab, |st.vocab|)
    ensures var st := TrainOnPretokens(pretokens, vocabSize, specialBytes).value;
            |st.merges| == |st.vocab| - InitialSize(specialBytes)
    ensures var st := TrainOnPretokens(pretokens, vocabSize, specialBytes).value;
            !Continues(st, vocabSize)
  {
    InitVocabSpec(specialBytes);
    var st0 := StartState(pretokens, specialBytes);
    MergeLoopBound(st0, vocabSize);
    var st := MergeLoop(st0, vocabSize);
    assert TrainOnPretokens(pretokens, vocabSize, specialBytes).value == st;
    DenseCard(st.vocab, st.nextId);
  }

  /** Ids 0-255 hold their own byte. */
  ghost predicate HoldsBytes(vocab: Vocab)
  {
    forall k :: 0 <= k < 256 ==> k in vocab && vocab[k] == [k as Byte]
  }

  /** Id `first + k` holds the concatenation of merge `k`. */
  ghost predicate HoldsMerges(vocab: Vocab, merges: seq<Pair>, first: int)
  {
    forall k :: 0 <= k < |merges| ==> first + k in vocab && vocab[first + k] == merges[k].0 + merges[k].1
  }

  /** A trained vocabulary starts with the initial one: ids 0-255 are the single bytes,
      the next ids the fresh special tokens in list order, and every special token's
      bytes are a value. */
  lemma TrainKeepsInitial(pretokens: seq<Bytes>, vocabSize: int, specialBytes: seq<Bytes>)
    requires InitialSize(specialBytes) <= vocabSize
    ensures TrainOnPretokens(pretokens, vocabSize, specialBytes).Ok?
    ensures HoldsBytes(TrainOnPretokens(pretokens, vocabSize, specialBytes).value.vocab)
    ensures var st := TrainOnPretokens(pretokens, vocabSize, specialBytes).value;
            forall j :: 0 <= j < InitialSize(specialBytes) - 256 ==>
              256 + j in st.vocab && st.vocab[256 + j] == FreshTokens(ByteVocab().Values, specialBytes)[j]
    ensures var st := TrainOnPretokens(pretokens, vocabSize, specialBytes).value;
            forall t :: t in specialBytes ==> t in st.vocab.Values
  {
    InitVocabSpec(specialBytes);
    var init := InitVocab(specialBytes);
    var st0 := StartState(pretokens, specialBytes);
    MergeLoopKeeps(st0, vocabSize);
    var st := MergeLoop(st0, vocabSize);
    assert TrainOnPretokens(pretokens, vocabSize, specialBytes).value == st;
    forall t | t in specialBytes
      ensures t in st.vocab.Values
    {
      var k := KeyOf(init.vocab, t);
      assert st.vocab[k] == t;
      ValuesContain(st.vocab);
    }
  }

  /** Each learned merge owns one id past the initial ones, in order, holding the
      merge's concatenation. */
  lemma TrainAddsMerges(pretokens: seq<Bytes>, vocabSize: int, specialBytes: seq<Bytes>)
    requires InitialSize(specialBytes) <= vocabSize
    ensures TrainOnPretokens(pretokens, vocabSize, specialBytes).Ok?
    ensures var st := TrainOnPretokens(pretokens, vocabSize, specialBytes).value;
            HoldsMerges(st.vocab, st.merges, InitialSize(specialBytes))
  {
    InitVocabSpec(specialBytes);
    var st0 := StartState(pretokens, specialBytes);
    MergeLoopAdds(st0, vocabSize);
    var st := MergeLoop(st0, vocabSize);
    assert st.merges[|st0.merges|..] == st.merges;
    assert TrainOnPretokens(pretokens, vocabSize, specialBytes).value == st;
  }

  /** A target equal to the initial size runs no iteration: no merge is learned. */
  lemma TrainAtInitialSizeHasNoMerges(pretokens: seq<Bytes>, specialBytes: seq<Bytes>)
    ensures TrainOnPretokens(pretokens, InitialSize(specialBytes), specialBytes).Ok?
    ensures TrainOnPretokens(pretokens, InitialSize(specialBytes), specialBytes).value.merges == []
  {
    TrainErrors(pretokens, InitialSize(specialBytes), specialBytes);
    TrainShape(pretokens, InitialSize(specialBytes), specialBytes);
  }

  /** Replaying the learned merges on a corpus pretoken's initial symbols gives that
      word's final symbol sequence in the trainer's table; the final counter is the
      counter of the final table; no frequency is lost. */
  lemma TrainReplayAgrees(pretokens: seq<Bytes>, vocabSize: int, specialBytes: seq<Bytes>)
    requires InitialSize(specialBytes) <= vocabSize
    ensures TrainOnPretokens(pretokens, vocabSize, specialBytes).Ok?
    ensures var st := TrainOnPretokens(pretokens, vocabSize, specialBytes).value;
            forall p :: p in pretokens ==>
              ApplyMerges(st.merges, WordToSymbols(p, set t | t in specialBytes)) in WordsOf(st.words)
    ensures var st := TrainOnPretokens(pretokens, vocabSize, specialBytes).value;
            st.counts == InitPairCounts(st.words)
    ensures var st := TrainOnPretokens(pretokens, vocabSize, specialBytes).value;
            TotalFreq(st.words) == |pretokens|
    ensures var st := TrainOnPretokens(pretokens, vocabSize, specialBytes).value;
            forall v :: FreqOf(st.words, v) == ReplayCount(pretokens, (set t | t in specialBytes), st.merges, v)
  {
    var sb := set t | t in specialBytes;
    InitVocabSpec(specialBytes);
    BuildTableSpec(pretokens, sb);
    var initialWords := set p | p in pretokens :: WordToSymbols(p, sb);
    var st0 := StartState(pretokens, specialBytes);
    MergeLoopTables(st0, vocabSize, initialWords);
    forall v
      ensures FreqOf(st0.words, v) == ReplayCount(pretokens, sb, st0.merges, v)
    {
      ReplayCountInitial(pretokens, sb, v);
    }
    MergeLoopFreqs(st0, vocabSize, pretokens, sb);
    assert TrainOnPretokens(pretokens, vocabSize, specialBytes).value == MergeLoop(st0, vocabSize);
    forall p | p in pretokens
      ensures WordToSymbols(p, sb) in initialWords
    {
    }
  }
}
