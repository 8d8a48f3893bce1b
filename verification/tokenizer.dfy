/** The `Tokenizer` object: the reverse vocabulary, `_apply_bpe`, `encode`,
    `encode_iterable` and the byte-level part of `decode`. */
module Tokenizer {
  import opened Common
  import opened Merge
  import Pretokenizer
  import Trainer
  import Serializer

  // ---------------------------------------------------------------------------------
  // Construction
  // ---------------------------------------------------------------------------------

  /** The ids under which a vocabulary holds `t`. */
  function IdsOf(vocab: Vocab, t: Bytes): set<int>
  {
    set k | k in vocab && vocab[k] == t
  }

  lemma IdsOfValues(vocab: Vocab)
    ensures forall t :: t in vocab.Values ==> IdsOf(vocab, t) != {}
    ensures forall k :: k in vocab ==> k in IdsOf(vocab, vocab[k])
  {
    forall t | t in vocab.Values
      ensures IdsOf(vocab, t) != {}
    {
      var k := KeyOf(vocab, t);
      assert k in IdsOf(vocab, t);
    }
  }

  /** `bytes_to_id = {v: k for k, v in vocab.items()}`. A token held under several ids
      keeps the one inserted last. The trainer inserts ids in ascending order, and so does
      loading a document written by `Save`, so there that is the greatest id, which is the
      one kept here. */
  function ReverseVocab(vocab: Vocab): (btoi: map<Bytes, int>)
    ensures btoi.Keys == vocab.Values
    ensures forall t :: t in btoi ==> btoi[t] in vocab && vocab[btoi[t]] == t
    ensures forall k :: k in vocab ==> vocab[k] in btoi && k <= btoi[vocab[k]]
  {
    IdsOfValues(vocab);
    ValuesContain(vocab);
    map t | t in vocab.Values :: IntMax(IdsOf(vocab, t))
  }

  /** The fields `Tokenizer.__init__` sets. */
  datatype BpeTokenizer = BpeTokenizer(
    vocab: Vocab,
    merges: seq<Pair>,
    specials: seq<string>,
    bytesToId: map<Bytes, int>,
    specialBytes: set<Bytes>)

  /** `Tokenizer(vocab, merges, special_tokens)` */
  function NewTokenizer(cm: Pretokenizer.CharModel, vocab: Vocab, merges: seq<Pair>, specials: seq<string>)
    : BpeTokenizer
  {
    BpeTokenizer(vocab, merges, specials, ReverseVocab(vocab), set t | t in Pretokenizer.Utf8Each(cm, specials))
  }

  /** `Tokenizer.from_files`, from the parsed documents: load, then construct. */
  function FromSaved(cm: Pretokenizer.CharModel, saved: Serializer.Saved, specials: seq<string>)
    : Result<BpeTokenizer, Serializer.LoadError>
  {
    match Serializer.Load(saved)
    case Err(e) => Err(e)
    case Ok((vocab, merges)) => Ok(NewTokenizer(cm, vocab, merges, specials))
  }

  /** A saved tokenizer loads back as the tokenizer built from the same vocabulary and
      merges; a document that does not load gives the load error. */
  lemma FromSavedSpec(cm: Pretokenizer.CharModel, vocab: Vocab, merges: seq<Pair>, specials: seq<string>,
                      other: Serializer.Saved)
    ensures FromSaved(cm, Serializer.Save(vocab, merges), specials) == Ok(NewTokenizer(cm, vocab, merges, specials))
    ensures Serializer.Load(other).Err? ==> FromSaved(cm, other, specials) == Err(Serializer.Load(other).error)
  {
    Serializer.SaveLoadRoundTrip(vocab, merges);
  }

  /** The reverse map is the one `__init__` derives from the vocabulary. */
  predicate Consistent(tk: BpeTokenizer)
  {
    tk.bytesToId == ReverseVocab(tk.vocab)
  }

  // ---------------------------------------------------------------------------------
  // _apply_bpe
  // ---------------------------------------------------------------------------------

  /** `_apply_bpe`: a special pretoken stays whole; any other starts as its bytes and goes
      through one full pass per merge rule, in training order. */
  function ApplyBpe(tk: BpeTokenizer, pretoken: Bytes): Symbols
  {
    if pretoken in tk.specialBytes then [pretoken] else ApplyMerges(tk.merges, ByteSymbols(pretoken))
  }

  /** A special pretoken comes back as itself; the symbols always spell the pretoken; an
      ordinary pretoken never gains symbols; and every symbol is the special pretoken, a
      single byte, or the concatenation of some merge rule. */
  lemma ApplyBpeSpec(tk: BpeTokenizer, pretoken: Bytes)
    ensures pretoken in tk.specialBytes ==> ApplyBpe(tk, pretoken) == [pretoken]
    ensures Concat(ApplyBpe(tk, pretoken)) == pretoken
    ensures pretoken !in tk.specialBytes ==> |ApplyBpe(tk, pretoken)| <= |pretoken|
    ensures forall s :: s in ApplyBpe(tk, pretoken) ==>
              (s == pretoken && pretoken in tk.specialBytes) || |s| == 1 ||
              exists k :: 0 <= k < |tk.merges| && s == tk.merges[k].0 + tk.merges[k].1
  {
    if pretoken in tk.specialBytes {
      ConcatSingle(pretoken);
    } else {
      var w := ByteSymbols(pretoken);
      ByteSymbolsConcat(pretoken);
      ApplyMergesConcat(tk.merges, w);
      ApplyMergesSymbols(tk.merges, w);
      forall s | s in ApplyBpe(tk, pretoken)
        ensures |s| == 1 || exists k :: 0 <= k < |tk.merges| && s == tk.merges[k].0 + tk.merges[k].1
      {
        assert Derived(s, w, tk.merges);
      }
    }
  }

  /** The source's nested loops: the outer one over the rules, the inner one a rewrite
      pass. */
  method ApplyBpeLoop(tk: BpeTokenizer, pretoken: Bytes) returns (symbols: Symbols)
    ensures symbols == ApplyBpe(tk, pretoken)
    ensures Concat(symbols) == pretoken
  {
    ApplyBpeSpec(tk, pretoken);
    if pretoken in tk.specialBytes {
      return [pretoken];
    }
    symbols := ByteSymbols(pretoken);
    var m := 0;
    while m < |tk.merges|
      invariant 0 <= m <= |tk.merges|
      invariant symbols == ApplyMerges(tk.merges[..m], ByteSymbols(pretoken))
    {
      var (a, b) := tk.merges[m];
      ApplyMergesSnoc(tk.merges[..m], tk.merges[m], ByteSymbols(pretoken));
      assert tk.merges[..m + 1] == tk.merges[..m] + [tk.merges[m]];
      symbols := RewriteLoop(symbols, a, b);
      m := m + 1;
    }
    assert tk.merges[..m] == tk.merges;
  }

  /** With the trainer's special set, `_apply_bpe` is the trainer's replay of the merges
      on `_word_to_symbols`: a special token is one symbol, which no pass can change. */
  lemma ApplyBpeIsReplay(tk: BpeTokenizer, pretoken: Bytes)
    ensures ApplyBpe(tk, pretoken) == ApplyMerges(tk.merges, Trainer.WordToSymbols(pretoken, tk.specialBytes))
  {
    if pretoken in tk.specialBytes {
      ApplyMergesSingle(tk.merges, pretoken);
    }
  }

  lemma {:induction false} ApplyMergesSingle(merges: seq<Pair>, s: Bytes)
    ensures ApplyMerges(merges, [s]) == [s]
  {
    if |merges| > 0 {
      assert Rewrite([s], merges[0]) == [s];
      ApplyMergesSingle(merges[1..], s);
    }
  }

  // ---------------------------------------------------------------------------------
  // encode
  // ---------------------------------------------------------------------------------

  /** `encode`'s `KeyError`: a symbol with no id. */
  datatype EncodeError = UnknownSymbol(symbol: Bytes)

  /** `token_ids.append(self.bytes_to_id[sym])` over a symbol list, failing at the first
      symbol missing from the reverse map. */
  function LookupIds(btoi: map<Bytes, int>, syms: seq<Bytes>): (r: Result<seq<int>, EncodeError>)
    ensures r.Ok? <==> forall i :: 0 <= i < |syms| ==> syms[i] in btoi
    ensures r.Ok? ==> |r.value| == |syms| && forall i :: 0 <= i < |syms| ==> r.value[i] == btoi[syms[i]]
    ensures r.Err? ==> exists i :: 0 <= i < |syms| && syms[i] !in btoi && r.error == UnknownSymbol(syms[i])
                                   && forall j :: 0 <= j < i ==> syms[j] in btoi
  {
    if |syms| == 0 then Ok([])
    else if syms[0] !in btoi then Err(UnknownSymbol(syms[0]))
    else
      match LookupIds(btoi, syms[1..])
      case Ok(rest) => Ok([btoi[syms[0]]] + rest)
      case Err(e) =>
        assert forall j :: 0 <= j < |syms| - 1 ==> syms[1..][j] == syms[j + 1];
        Err(e)
  }

  /** The symbols `encode` looks up, in order: each pretoken's `_apply_bpe` output. */
  function EncodedSymbols(tk: BpeTokenizer, pretokens: seq<Bytes>): seq<Bytes>
  {
    if |pretokens| == 0 then [] else ApplyBpe(tk, pretokens[0]) + EncodedSymbols(tk, pretokens[1..])
  }

  /** `encode(text)` */
  function Encode(cm: Pretokenizer.CharModel, tk: BpeTokenizer, text: string): Result<seq<int>, EncodeError>
    requires Pretokenizer.NonEmptyTokens(tk.specials)
  {
    LookupIds(tk.bytesToId, EncodedSymbols(tk, Pretokenizer.Pretokens(cm, tk.specials, text)))
  }

  /** The looked-up symbols spell the pretokens, in order. */
  lemma {:induction false} EncodedSymbolsConcat(tk: BpeTokenizer, pretokens: seq<Bytes>)
    ensures Concat(EncodedSymbols(tk, pretokens)) == Concat(pretokens)
  {
    if |pretokens| > 0 {
      ApplyBpeSpec(tk, pretokens[0]);
      EncodedSymbolsConcat(tk, pretokens[1..]);
      ConcatAppend(ApplyBpe(tk, pretokens[0]), EncodedSymbols(tk, pretokens[1..]));
    }
  }

  /** The vocabulary holds every token `_apply_bpe` can output: each single byte, each
      special token's bytes, and each merge's concatenation. */
  ghost predicate Covers(tk: BpeTokenizer)
  {
    && (forall s: Bytes :: |s| == 1 ==> s in tk.vocab.Values)
    && (forall t :: t in tk.specialBytes ==> t in tk.vocab.Values)
    && (forall k :: 0 <= k < |tk.merges| ==> tk.merges[k].0 + tk.merges[k].1 in tk.vocab.Values)
  }

  lemma {:induction false} EncodedSymbolsCovered(tk: BpeTokenizer, pretokens: seq<Bytes>)
    requires Covers(tk)
    ensures forall s :: s in EncodedSymbols(tk, pretokens) ==> s in tk.vocab.Values
  {
    if |pretokens| > 0 {
      ApplyBpeSpec(tk, pretokens[0]);
      EncodedSymbolsCovered(tk, pretokens[1..]);
    }
  }

  /** When the vocabulary covers what `_apply_bpe` can output, `encode` never meets a
      missing key, whatever the text. */
  lemma EncodeTotal(cm: Pretokenizer.CharModel, tk: BpeTokenizer, text: string)
    requires Consistent(tk) && Pretokenizer.NonEmptyTokens(tk.specials)
    requires Covers(tk)
    ensures Encode(cm, tk, text).Ok?
  {
    var syms := EncodedSymbols(tk, Pretokenizer.Pretokens(cm, tk.specials, text));
    EncodedSymbolsCovered(tk, Pretokenizer.Pretokens(cm, tk.specials, text));
    assert forall i :: 0 <= i < |syms| ==> syms[i] in syms;
  }

  /** Sequencing two encodings: the first error wins, otherwise the ids are joined. */
  function Then(x: Result<seq<int>, EncodeError>, y: Result<seq<int>, EncodeError>): Result<seq<int>, EncodeError>
  {
    if x.Err? then x else if y.Err? then y else Ok(x.value + y.value)
  }

  /** The encodings of a list of texts, sequenced in order. */
  function JoinIds(rs: seq<Result<seq<int>, EncodeError>>): Result<seq<int>, EncodeError>
  {
    if |rs| == 0 then Ok([]) else Then(rs[0], JoinIds(rs[1..]))
  }

  /** `encode_iterable`: the ids of every text in order, flattened. The source yields
      them lazily; a missing key ends the stream with that error. */
  function EncodeIterable(cm: Pretokenizer.CharModel, tk: BpeTokenizer, texts: seq<string>)
    : Result<seq<int>, EncodeError>
    requires Pretokenizer.NonEmptyTokens(tk.specials)
  {
    JoinIds(EncodeEach(cm, tk, texts))
  }

  /** The per-text results, in order. */
  function EncodeEach(cm: Pretokenizer.CharModel, tk: BpeTokenizer, texts: seq<string>)
    : (rs: seq<Result<seq<int>, EncodeError>>)
    requires Pretokenizer.NonEmptyTokens(tk.specials)
    ensures |rs| == |texts|
  {
    if |texts| == 0 then [] else [Encode(cm, tk, texts[0])] + EncodeEach(cm, tk, texts[1..])
  }

  lemma {:induction false} EncodeEachAppend(cm: Pretokenizer.CharModel, tk: BpeTokenizer, a: seq<string>, b: seq<string>)
    requires Pretokenizer.NonEmptyTokens(tk.specials)
    ensures EncodeEach(cm, tk, a + b) == EncodeEach(cm, tk, a) + EncodeEach(cm, tk, b)
  {
    if |a| > 0 {
      assert (a + b)[0] == a[0];
      assert (a + b)[1..] == a[1..] + b;
      EncodeEachAppend(cm, tk, a[1..], b);
      var head := [Encode(cm, tk, a[0])];
      assert EncodeEach(cm, tk, a + b) == head + EncodeEach(cm, tk, a[1..] + b);
      assert EncodeEach(cm, tk, a) == head + EncodeEach(cm, tk, a[1..]);
    } else {
      assert a + b == b;
    }
  }

  /** Sequencing is associative, with `Ok([])` as its unit on the left. */
  lemma {:induction false} JoinIdsAppend(x: seq<Result<seq<int>, EncodeError>>, y: seq<Result<seq<int>, EncodeError>>)
    ensures JoinIds(x + y) == Then(JoinIds(x), JoinIds(y))
  {
    if |x| == 0 {
      assert x + y == y;
      var r := JoinIds(y);
      if r.Ok? {
        assert [] + r.value == r.value;
      }
    } else {
      assert (x + y)[0] == x[0] && (x + y)[1..] == x[1..] + y;
      JoinIdsAppend(x[1..], y);
      var e := x[0];
      var p := JoinIds(x[1..]);
      var q := JoinIds(y);
      if e.Ok? && p.Ok? && q.Ok? {
        assert e.value + (p.value + q.value) == (e.value + p.value) + q.value;
      }
    }
  }

  /** `encode_iterable` of no texts yields nothing, and of one text yields exactly
      `encode(text)`. */
  lemma EncodeIterableSingle(cm: Pretokenizer.CharModel, tk: BpeTokenizer, text: string)
    requires Pretokenizer.NonEmptyTokens(tk.specials)
    ensures EncodeIterable(cm, tk, []) == Ok([])
    ensures EncodeIterable(cm, tk, [text]) == Encode(cm, tk, text)
  {
    assert [text][1..] == [];
    assert EncodeEach(cm, tk, [text]) == [Encode(cm, tk, text)];
    var e := Encode(cm, tk, text);
    if e.Ok? {
      assert e.value + [] == e.value;
    }
  }

  /** `encode_iterable` encodes each text on its own: a split anywhere in the list joins
      the two halves' ids, so no token spans two texts. */
  lemma EncodeIterableAppend(cm: Pretokenizer.CharModel, tk: BpeTokenizer, a: seq<string>, b: seq<string>)
    requires Pretokenizer.NonEmptyTokens(tk.specials)
    ensures EncodeIterable(cm, tk, a + b) == Then(EncodeIterable(cm, tk, a), EncodeIterable(cm, tk, b))
  {
    var ra := EncodeEach(cm, tk, a);
    var rb := EncodeEach(cm, tk, b);
    EncodeEachAppend(cm, tk, a, b);
    JoinIdsAppend(ra, rb);
  }

  // ---------------------------------------------------------------------------------
  // decode
  // ---------------------------------------------------------------------------------

  /** `decode`'s `KeyError`: an id outside the vocabulary. */
  datatype DecodeError = UnknownId(id: int)

  /** `b"".join(self.vocab[token_id] for token_id in token_ids)`, failing at the first
      unknown id. The final `errors="replace"` text conversion is not modelled. */
  function Decode(tk: BpeTokenizer, ids: seq<int>): (r: Result<Bytes, DecodeError>)
    ensures r.Ok? <==> forall i :: 0 <= i < |ids| ==> ids[i] in tk.vocab
    ensures r.Err? ==> exists i :: 0 <= i < |ids| && ids[i] !in tk.vocab && r.error == UnknownId(ids[i])
                                   && forall j :: 0 <= j < i ==> ids[j] in tk.vocab
  {
    if |ids| == 0 then Ok([])
    else if ids[0] !in tk.vocab then Err(UnknownId(ids[0]))
    else
      match Decode(tk, ids[1..])
      case Ok(rest) => Ok(tk.vocab[ids[0]] + rest)
      case Err(e) =>
        assert forall j :: 0 <= j < |ids| - 1 ==> ids[1..][j] == ids[j + 1];
        Err(e)
  }

  /** Decoding is a homomorphism: one id gives its token, and a split anywhere in the id
      list joins the two halves' bytes. */
  lemma {:induction false} DecodeSpec(tk: BpeTokenizer, a: seq<int>, b: seq<int>)
    ensures |a| == 1 && a[0] in tk.vocab ==> Decode(tk, a) == Ok(tk.vocab[a[0]])
    ensures Decode(tk, a).Ok? && Decode(tk, b).Ok? ==>
              Decode(tk, a + b) == Ok(Decode(tk, a).value + Decode(tk, b).value)
  {
    if |a| == 1 && a[0] in tk.vocab {
      assert a[1..] == [];
      assert tk.vocab[a[0]] + [] == tk.vocab[a[0]];
    }
    if |a| == 0 {
      assert a + b == b;
      var y := Decode(tk, b);
      if y.Ok? {
        assert [] + y.value == y.value;
      }
    } else if Decode(tk, a).Ok? && Decode(tk, b).Ok? {
      assert (a + b)[0] == a[0] && (a + b)[1..] == a[1..] + b;
      DecodeSpec(tk, a[1..], b);
      var t := tk.vocab[a[0]];
      var x := Decode(tk, a[1..]).value;
      var y := Decode(tk, b).value;
      assert t + (x + y) == (t + x) + y;
    }
  }

  lemma {:induction false} DecodeLookedUp(tk: BpeTokenizer, syms: seq<Bytes>)
    requires Consistent(tk)
    requires LookupIds(tk.bytesToId, syms).Ok?
    ensures Decode(tk, LookupIds(tk.bytesToId, syms).value) == Ok(Concat(syms))
  {
    if |syms| > 0 {
      var ids := LookupIds(tk.bytesToId, syms).value;
      DecodeLookedUp(tk, syms[1..]);
      assert ids[1..] == LookupIds(tk.bytesToId, syms[1..]).value;
    }
  }

  /** Byte-level round trip: whenever `encode` succeeds, decoding its ids gives back the
      UTF-8 bytes of the text, even when the vocabulary holds a token under two ids. */
  lemma EncodeDecodeRoundTrip(cm: Pretokenizer.CharModel, tk: BpeTokenizer, text: string)
    requires Consistent(tk) && Pretokenizer.NonEmptyTokens(tk.specials)
    requires Encode(cm, tk, text).Ok?
    ensures Decode(tk, Encode(cm, tk, text).value) == Ok(Pretokenizer.Utf8(cm, text))
  {
    var pretokens := Pretokenizer.Pretokens(cm, tk.specials, text);
    DecodeLookedUp(tk, EncodedSymbols(tk, pretokens));
    EncodedSymbolsConcat(tk, pretokens);
    Pretokenizer.PretokensSpec(cm, tk.specials, text);
  }

  // ---------------------------------------------------------------------------------
  // Trained tokenizers
  // ---------------------------------------------------------------------------------

  lemma BytesCovered(v: Vocab)
    requires Trainer.HoldsBytes(v)
    ensures forall s: Bytes :: |s| == 1 ==> s in v.Values
  {
    ValuesContain(v);
    forall s: Bytes | |s| == 1
      ensures s in v.Values
    {
      var k := s[0] as int;
      assert v[k] == [k as Byte] == s;
    }
  }

  lemma MergesCovered(v: Vocab, merges: seq<Pair>, n: int)
    requires Trainer.HoldsMerges(v, merges, n)
    ensures forall k :: 0 <= k < |merges| ==> merges[k].0 + merges[k].1 in v.Values
  {
    ValuesContain(v);
    forall k | 0 <= k < |merges|
      ensures merges[k].0 + merges[k].1 in v.Values
    {
      var m := merges[k];
      assert n + k in v && v[n + k] == m.0 + m.1;
    }
  }

  /** A vocabulary that starts with the byte tokens, holds every special token and holds
      each merge's concatenation covers what the tokenizer built from it can output. */
  lemma CoversWhen(cm: Pretokenizer.CharModel, vocab: Vocab, merges: seq<Pair>, specials: seq<string>, n: int)
    requires Trainer.HoldsBytes(vocab)
    requires forall t :: t in Pretokenizer.Utf8Each(cm, specials) ==> t in vocab.Values
    requires Trainer.HoldsMerges(vocab, merges, n)
    ensures Covers(NewTokenizer(cm, vocab, merges, specials))
  {
    BytesCovered(vocab);
    MergesCovered(vocab, merges, n);
  }

  /** A tokenizer built from a training run's output covers everything it can output. */
  lemma TrainedCovers(pretokens: seq<Bytes>, vocabSize: int, cm: Pretokenizer.CharModel, specials: seq<string>)
    requires Trainer.InitialSize(Pretokenizer.Utf8Each(cm, specials)) <= vocabSize
    ensures Trainer.TrainOnPretokens(pretokens, vocabSize, Pretokenizer.Utf8Each(cm, specials)).Ok?
    ensures var st := Trainer.TrainOnPretokens(pretokens, vocabSize, Pretokenizer.Utf8Each(cm, specials)).value;
            Covers(NewTokenizer(cm, st.vocab, st.merges, specials))
  {
    var sb := Pretokenizer.Utf8Each(cm, specials);
    Trainer.TrainKeepsInitial(pretokens, vocabSize, sb);
    Trainer.TrainAddsMerges(pretokens, vocabSize, sb);
    var st := Trainer.TrainOnPretokens(pretokens, vocabSize, sb).value;
    CoversWhen(cm, st.vocab, st.merges, specials, Trainer.InitialSize(sb));
  }

  /** A tokenizer built from `train_bpe`'s output encodes every text without error. */
  lemma TrainedEncodeTotal(cm: Pretokenizer.CharModel, corpus: string, vocabSize: int, specials: seq<string>,
                           text: string)
    requires Pretokenizer.NonEmptyTokens(specials)
    requires Trainer.InitialSize(Pretokenizer.Utf8Each(cm, specials)) <= vocabSize
    ensures Trainer.TrainBpe(cm, corpus, vocabSize, specials).Ok?
    ensures var (vocab, merges) := Trainer.TrainBpe(cm, corpus, vocabSize, specials).value;
            Encode(cm, NewTokenizer(cm, vocab, merges, specials), text).Ok?
  {
    var pretokens := Pretokenizer.Pretokens(cm, specials, corpus);
    TrainedCovers(pretokens, vocabSize, cm, specials);
    var (vocab, merges) := Trainer.TrainBpe(cm, corpus, vocabSize, specials).value;
    EncodeTotal(cm, NewTokenizer(cm, vocab, merges, specials), text);
  }

  /** `_apply_bpe` with the learned merges reproduces, for every corpus pretoken, that
      word's final symbol sequence in the trainer's table. */
  lemma TrainedReplay(pretokens: seq<Bytes>, vocabSize: int, cm: Pretokenizer.CharModel, specials: seq<string>)
    requires Trainer.InitialSize(Pretokenizer.Utf8Each(cm, specials)) <= vocabSize
    ensures Trainer.TrainOnPretokens(pretokens, vocabSize, Pretokenizer.Utf8Each(cm, specials)).Ok?
    ensures var st := Trainer.TrainOnPretokens(pretokens, vocabSize, Pretokenizer.Utf8Each(cm, specials)).value;
            forall p :: p in pretokens ==>
              ApplyBpe(NewTokenizer(cm, st.vocab, st.merges, specials), p) in Trainer.WordsOf(st.words)
  {
    var sb := Pretokenizer.Utf8Each(cm, specials);
    Trainer.TrainReplayAgrees(pretokens, vocabSize, sb);
    var st := Trainer.TrainOnPretokens(pretokens, vocabSize, sb).value;
    var tk := NewTokenizer(cm, st.vocab, st.merges, specials);
    forall p | p in pretokens
      ensures ApplyBpe(tk, p) in Trainer.WordsOf(st.words)
    {
      ApplyBpeIsReplay(tk, p);
    }
  }
}
