# Byte-level BPE tokenizer, modelled in Dafny

This project models the tokenizer core of `cs336_basics`: the pretokenizer, the BPE trainer, the
encoder/decoder, and the JSON serializer of a trained vocabulary. Everything is written as pure
functions over immutable values:

- byte strings are `seq<Byte>`;
- a vocabulary is `map<int, seq<Byte>>`;
- the trainer's word table is an insertion-ordered list of `(symbols, frequency)` entries;
- pair counts are `map<Pair, nat>`.

The modules follow the source files:

| module | file | source |
|---|---|---|
| `Common` | `common.dfy` | Shared vocabulary: bytes, `Option`/`Result`, `Concat`, Python's ordering of `bytes` and of `(bytes, bytes)` tuples, the maximum of a finite set. |
| `Pretokenizer` | `pretokenizer.dfy` | `pretokenizer.py`. The split on special tokens, and an explicit left-to-right scanner for the six-branch GPT-2 pattern. Unicode classes and UTF-8 are abstract fields of a `CharModel`. |
| `Merge` | `merge.dfy` | The merge pass shared by `bpe_train.py` and `tokenizer.py`: greedy, non-overlapping, left to right. |
| `Trainer` | `bpe_train.dfy` | `bpe_train.py`: `_word_to_symbols`, `_init_pair_counts`, and `train_bpe`. `train_bpe` covers vocabulary initialisation, both configuration errors, the word table, and the merge loop with its tie-break and rebuild. |
| `Tokenizer` | `tokenizer.dfy` | The reverse map, `from_files`, `_apply_bpe`, `encode`, `encode_iterable`, and `decode` up to its byte string. |
| `Serializer` | `io.dfy` | `save_vocab_and_merges` and `load_vocab_and_merges`, as functions to and from abstract JSON values. Token bytes become Latin-1 text, and ids become decimal keys. |

Errors become values. Each `ValueError` of `train_bpe` is a `TrainError`. A missing key in `encode` is an `EncodeError`, and in `decode` a `DecodeError`. A failing `int()`/`encode("latin1")`, or a merge entry that is not a pair, is a `LoadError`.

The vocabulary is not assumed to be injective. Merges `(a, bc)` and `(ab, c)` both produce `abc`, and a merged token can equal a special token's bytes. So the reverse map is proved sound (`vocab[bytes_to_id[t]] == t`), not bijective.

## Model

| member | source | states |
|---|---|---|
| Pretokenizer.FirstTokenAt | cs336_basics/tokenizer/pretokenizer.py:26-27 | at one position, the alternation picks the earliest-listed special token that occurs there; no earlier-listed token occurs there; none is found only if no listed token occurs there |
| Pretokenizer.LeftmostHit | cs336_basics/tokenizer/pretokenizer.py:26-27 | the split finds the leftmost position where any special token occurs, with the earliest-listed token at that position; no special token starts between the search start and that position |
| Pretokenizer.SplitOnSpecials | cs336_basics/tokenizer/pretokenizer.py:21-22 | with no special tokens, the split is exactly one non-special segment holding the whole text, the empty text included |
| Pretokenizer.RawSplit | cs336_basics/tokenizer/pretokenizer.py:26-27 | `re.split` with a capturing group: text, token, text, ..., text at the leftmost earliest-listed hits; its contract is stated by `Pretokenizer.RawSplitExact`, `Pretokenizer.SplitOnSpecialsExact` and `Pretokenizer.SplitOnSpecialsSpec` |
| Pretokenizer.Classify | cs336_basics/tokenizer/pretokenizer.py:29-37 | the loop that drops empty parts and flags the parts equal to a special token; its contract is stated by `Pretokenizer.SplitOnSpecialsSpec` |
| Pretokenizer.SplitOnSpecialsSpec | cs336_basics/tokenizer/pretokenizer.py:26-36 | the segments concatenate back to the text; with special tokens, no segment is empty; a segment is flagged special iff its text is one of the special tokens; a non-special segment contains no special token |
| Pretokenizer.RawSplitExact | cs336_basics/tokenizer/pretokenizer.py:26-37 | the classified parts of the split are a decomposition `SplitOf`: a special segment is the earliest-listed token occurring at its start; a non-special segment is non-empty, holds no occurrence of any token at any of its offsets, and is followed by a special segment or ends the text |
| Pretokenizer.SplitOfUnique | cs336_basics/tokenizer/pretokenizer.py:26-37 | a text has at most one such decomposition, so the conditions above determine the cuts |
| Pretokenizer.SplitOnSpecialsExact | cs336_basics/tokenizer/pretokenizer.py:21-37 | with special tokens, the split is that decomposition and the only one: it cuts exactly at the leftmost, earliest-listed occurrences |
| Pretokenizer.SplitOnSpecialsPrefixToken | cs336_basics/tokenizer/pretokenizer.py:26-27 | an earlier-listed token that is a prefix of a later one wins: specials `["a", "ab"]` split `"ab"` into the token `"a"` and the plain text `"b"` |
| Pretokenizer.RunLength | cs336_basics/tokenizer/pretokenizer.py:8 | a `X+` run is maximal: every character in it is in the class, and it ends at the end of the text or at a character outside the class |
| Pretokenizer.Contraction | cs336_basics/tokenizer/pretokenizer.py:8 | the first branch `'(?:[sdmt]|ll|ve|re)`; its own contract states only that a match lies within the text, and `Pretokenizer.ContractionSpec` states what it matches |
| Pretokenizer.ContractionSpec | cs336_basics/tokenizer/pretokenizer.py:8 | the first branch matches exactly a contraction written at the position, and matches nothing iff none of the seven contractions is written there |
| Pretokenizer.OptionalSpaceRun | cs336_basics/tokenizer/pretokenizer.py:8 | ` ?X+` matches iff the character is in the class, or is a space followed by one; the match is a space or class character followed by class characters only, and it is maximal |
| Pretokenizer.TrailingSpace | cs336_basics/tokenizer/pretokenizer.py:8 | `\s+(?!\S)` with backtracking: the match is the longest whitespace run after which the text ends or more whitespace follows, and there is no match exactly when no such run exists |
| Pretokenizer.SpaceRun | cs336_basics/tokenizer/pretokenizer.py:8 | `\s+` matches iff the character is whitespace; the match is whitespace only and maximal |
| Pretokenizer.MatchAt | cs336_basics/tokenizer/pretokenizer.py:8 | the six branches tried in order; its own contract states only that a match is non-empty and within the text; what each branch matches is stated by the rows above, and `Pretokenizer.MatchAtTotal` states that some branch always matches |
| Pretokenizer.FindAll | cs336_basics/tokenizer/pretokenizer.py:54 | `re.finditer` from a position, moving on one character where nothing matches; its contract is stated by `Pretokenizer.FindAllCovers` |
| Pretokenizer.MatchAtTotal | cs336_basics/tokenizer/pretokenizer.py:8 | the six branches together match at every position of every segment |
| Pretokenizer.FindAllCovers | cs336_basics/tokenizer/pretokenizer.py:54-57 | the pattern's matches in a segment are non-empty and tile the segment: their concatenation is the segment |
| Pretokenizer.SegmentPretokensSpec | cs336_basics/tokenizer/pretokenizer.py:48-57 | a special segment yields exactly one pretoken, its UTF-8 bytes, without being scanned; a segment's pretokens concatenate to its UTF-8 encoding; none is empty |
| Pretokenizer.PretokensBySegment | cs336_basics/tokenizer/pretokenizer.py:48-57 | the pretoken stream is the concatenation of per-segment groups, and each group spells exactly its own segment, so no pretoken straddles a segment boundary |
| Pretokenizer.Pretokens | cs336_basics/tokenizer/pretokenizer.py:40-57 | `iter_pretokens`, collected; its contract is stated by `Pretokenizer.PretokensSpec` and `Pretokenizer.PretokensBySegment` |
| Pretokenizer.PretokensSpec | cs336_basics/tokenizer/pretokenizer.py:40-57 | the pretokens of a text concatenate to the text's UTF-8 encoding, and none is empty |
| Common.BytesLtTotal | cs336_basics/tokenizer/bpe_train.py:125 | Python's byte-string order (lexicographic, proper prefix smaller) is total, so `max` on pairs is well defined; it is irreflexive, asymmetric and transitive by the neighbouring lemmas |
| Common.PairMax | cs336_basics/tokenizer/bpe_train.py:125 | `max(candidates)` returns a member of the candidates that is greater, in tuple order, than every other candidate |
| Merge.PairsOfWordSpec | cs336_basics/tokenizer/bpe_train.py:43-46 | a pair is counted for a word iff it occurs adjacently at some index, iff its occurrence count in that word is positive |
| Merge.Rewrite | cs336_basics/tokenizer/bpe_train.py:137-148 | the greedy, non-overlapping, left-to-right merge pass; its contract is stated by `Merge.RewriteConcat`, `Merge.RewriteLength` and `Merge.RewriteLoop` |
| Merge.RewriteConcat | cs336_basics/tokenizer/bpe_train.py:137-148 | a merge pass never changes the bytes a word spells |
| Merge.RewriteLength | cs336_basics/tokenizer/bpe_train.py:137-148 | a merge pass never lengthens a word, and strictly shortens every word in which the pair occurs |
| Merge.RewriteLoop | cs336_basics/tokenizer/bpe_train.py:138-148 | the index loop computes the greedy, non-overlapping, left-to-right pass; the result spells the same bytes and is no longer |
| Merge.ApplyMerges | cs336_basics/tokenizer/tokenizer.py:126-140 | one pass per rule in training order; its contract is stated by `Merge.ApplyMergesConcat` and `Merge.ApplyMergesSymbols` |
| Merge.ApplyMergesConcat | cs336_basics/tokenizer/tokenizer.py:126-140 | replaying a whole merge list keeps the pretoken's bytes and never adds symbols |
| Merge.ApplyMergesSymbols | cs336_basics/tokenizer/tokenizer.py:126-140 | every symbol left after replay was an input symbol or is `a + b` for some rule `(a, b)` |
| Trainer.WordToSymbolsSpec | cs336_basics/tokenizer/bpe_train.py:25-27 | a special pretoken is one atomic symbol; any other pretoken becomes one single-byte symbol per byte; either way the symbols spell the pretoken |
| Trainer.AddWordSpec | cs336_basics/tokenizer/bpe_train.py:104-105 | adding a word to the table raises only that word's frequency, by the given amount; the word set gains the word, the total frequency grows by the amount, and keys stay distinct |
| Trainer.BuildTable | cs336_basics/tokenizer/bpe_train.py:98-105 | `words[sym_seq] += 1` per pretoken; its contract is stated by `Trainer.BuildTableSpec` |
| Trainer.BuildTableSpec | cs336_basics/tokenizer/bpe_train.py:98-105 | the word table has distinct keys; each word's frequency is the number of pretokens that turn into it; frequencies sum to the number of pretokens; the words are exactly the pretokens' symbol sequences |
| Trainer.InitPairCounts | cs336_basics/tokenizer/bpe_train.py:41-47 | `_init_pair_counts`; its contract is stated by `Trainer.InitPairCountsSpec` |
| Trainer.InitPairCountsSpec | cs336_basics/tokenizer/bpe_train.py:41-47 | every pair's count is the sum over words of frequency times adjacent occurrences; the counted pairs are exactly those occurring in some word, so words shorter than 2 add nothing |
| Trainer.AddWordPairsCommutes | cs336_basics/tokenizer/bpe_train.py:149-152 | adding one word's pairs to the counts of a table equals counting the table with that word added |
| Trainer.MaxCount | cs336_basics/tokenizer/bpe_train.py:117 | `max(pair_counts.values())` is attained by some pair and bounds every count |
| Trainer.SelectPair | cs336_basics/tokenizer/bpe_train.py:124-125 | the selected pair is counted, has the maximal count, and is greater in tuple order than every other pair with that count |
| Trainer.RewriteTable | cs336_basics/tokenizer/bpe_train.py:134-152 | the rebuild of the word table and counter; its contract is stated by `Trainer.RewriteTableSpec` |
| Trainer.RewriteTableSpec | cs336_basics/tokenizer/bpe_train.py:134-152 | each new word's frequency is the summed frequency of the old words whose pass gives it; the rebuilt counter equals counting the rebuilt table from scratch; total frequency is preserved even when rewritten words collide; the new words are the old words after the pass; keys stay distinct |
| Trainer.ByteVocabSpec | cs336_basics/tokenizer/bpe_train.py:80 | the byte vocabulary has ids exactly 0..255, id `i` holds the byte `i`, and its values are exactly the one-byte strings |
| Trainer.FreshTokensSpec | cs336_basics/tokenizer/bpe_train.py:84-88 | the special tokens that get an id are exactly those not already present, each once, in list order |
| Trainer.AddSpecials | cs336_basics/tokenizer/bpe_train.py:83-88 | the special-token loop; its contract is stated by `Trainer.AddSpecialsSpec` |
| Trainer.AddSpecialsSpec | cs336_basics/tokenizer/bpe_train.py:83-88 | adding special tokens keeps ids dense and earlier ids unchanged; the j-th fresh token gets id `next_id + j`; every special token ends up in the vocabulary |
| Trainer.InitVocabSpec | cs336_basics/tokenizer/bpe_train.py:80-88 | the initial vocabulary has dense ids `0 .. initial-1`, bytes at 0..255, the fresh special tokens at 256 onwards, and holds every special token |
| Trainer.MergeLoop | cs336_basics/tokenizer/bpe_train.py:113-122 | the loop terminates; ids stay dense; one merge is recorded per id added; on exit the size limit is reached, or no pair is left, or no pair occurs twice |
| Trainer.StepSpec | cs336_basics/tokenizer/bpe_train.py:127-132 | one iteration appends the selected pair to the merges, gives its concatenation the next id, and changes no earlier id |
| Trainer.Step | cs336_basics/tokenizer/bpe_train.py:117-155 | one loop iteration; its contract is stated by `Trainer.StepSpec`, `Trainer.StepTables` and `Trainer.StepFreqs` |
| Trainer.MergeLoopKeeps | cs336_basics/tokenizer/bpe_train.py:113-132 | the loop only appends: earlier merges and earlier ids are unchanged |
| Trainer.MergeLoopAdds | cs336_basics/tokenizer/bpe_train.py:127-132 | each merge recorded by the loop has its concatenation at the matching new id |
| Trainer.MergeLoopBound | cs336_basics/tokenizer/bpe_train.py:113 | the loop never grows the vocabulary past `vocab_size` |
| Trainer.StepTables | cs336_basics/tokenizer/bpe_train.py:134-155 | after an iteration, the counter equals counting the new table from scratch, total frequency is unchanged, keys stay distinct, and replaying the merges including the new one keeps landing on table words |
| Trainer.MergeLoopTables | cs336_basics/tokenizer/bpe_train.py:113-155 | across the whole loop, the counter always matches the table, total frequency is preserved, and each initial word replayed through the final merges is a final table word |
| Trainer.StepFreqs | cs336_basics/tokenizer/bpe_train.py:134-155 | if each word's frequency is the number of pretokens the merges so far turn into it, that still holds after one more merge |
| Trainer.MergeLoopFreqs | cs336_basics/tokenizer/bpe_train.py:103-155 | across the whole loop, each table word's frequency is the number of pretokens that the learned merges turn into it |
| Trainer.TrainErrors | cs336_basics/tokenizer/bpe_train.py:68-93 | training fails with the non-positive-size error iff `vocab_size <= 0`, fails with the below-initial error iff `0 < vocab_size < initial size`, and succeeds otherwise |
| Trainer.TrainBpe | cs336_basics/tokenizer/bpe_train.py:50-159 | `train_bpe` on an in-memory text; its contract is stated by `Trainer.TrainErrors`, `Trainer.TrainShape`, `Trainer.TrainKeepsInitial`, `Trainer.TrainAddsMerges` and `Trainer.TrainReplayAgrees` |
| Trainer.TrainOnPretokens | cs336_basics/tokenizer/bpe_train.py:68-159 | `train_bpe` from the pretoken stream; its contract is stated by the same lemmas |
| Trainer.TrainShape | cs336_basics/tokenizer/bpe_train.py:110-159 | when `vocab_size` is at least the initial size, training succeeds, and the vocabulary has at most `vocab_size` entries with ids exactly `0 .. len-1`; the number of merges is `len(vocab) - initial size`; the loop stopped for one of its reasons |
| Trainer.TrainKeepsInitial | cs336_basics/tokenizer/bpe_train.py:80-88 | a trained vocabulary still holds the 256 bytes at ids 0..255 and the fresh special tokens at 256 onwards, and contains every special token |
| Trainer.TrainAddsMerges | cs336_basics/tokenizer/bpe_train.py:127-132 | in a trained vocabulary, id `initial + k` holds `merges[k].0 + merges[k].1` |
| Trainer.TrainAtInitialSizeHasNoMerges | cs336_basics/tokenizer/bpe_train.py:113-122 | with `vocab_size` equal to the initial size, training succeeds and learns no merge |
| Trainer.TrainReplayAgrees | cs336_basics/tokenizer/bpe_train.py:103-155 | replaying the learned merges on any corpus pretoken's symbols gives a word of the final table; each final word's frequency is the number of corpus pretokens whose replay is that word; the final counter matches the final table; total frequency is the number of pretokens |
| Tokenizer.ReverseVocab | cs336_basics/tokenizer/tokenizer.py:29 | the reverse map's keys are exactly the vocabulary's values, and `vocab[bytes_to_id[t]] == t` for every `t`, even when values repeat |
| Tokenizer.NewTokenizer | cs336_basics/tokenizer/tokenizer.py:25-38 | `Tokenizer.__init__`; its contract is stated by `Tokenizer.ReverseVocab` and the encoding lemmas below |
| Tokenizer.FromSaved | cs336_basics/tokenizer/tokenizer.py:45-60 | `from_files` on the parsed documents; its contract is stated by `Tokenizer.FromSavedSpec` |
| Tokenizer.ApplyBpe | cs336_basics/tokenizer/tokenizer.py:110-140 | `_apply_bpe`; its contract is stated by `Tokenizer.ApplyBpeSpec`, `Tokenizer.ApplyBpeLoop` and `Tokenizer.ApplyBpeIsReplay` |
| Tokenizer.Encode | cs336_basics/tokenizer/tokenizer.py:66-79 | `encode`; its contract is stated by `Tokenizer.LookupIds`, `Tokenizer.EncodeTotal` and `Tokenizer.EncodeDecodeRoundTrip` |
| Tokenizer.EncodeIterable | cs336_basics/tokenizer/tokenizer.py:81-90 | `encode_iterable`, flattened; its contract is stated by `Tokenizer.EncodeIterableSingle` and `Tokenizer.EncodeIterableAppend` |
| Tokenizer.FromSavedSpec | cs336_basics/tokenizer/tokenizer.py:45-60 | loading saved files gives the tokenizer built from the original vocabulary and merges; a load error is passed through |
| Tokenizer.ApplyBpeSpec | cs336_basics/tokenizer/tokenizer.py:110-140 | a special pretoken stays one symbol; otherwise the symbols spell the pretoken and are no more than its bytes; every symbol is the special token, a single byte, or `a + b` for a merge |
| Tokenizer.ApplyBpeLoop | cs336_basics/tokenizer/tokenizer.py:124-140 | the nested loops compute one full left-to-right pass per rule in training order, and the result spells the pretoken |
| Tokenizer.ApplyBpeIsReplay | cs336_basics/tokenizer/tokenizer.py:120-140 | encoding a pretoken is the trainer's replay: its initial symbols, then every merge in order |
| Tokenizer.LookupIds | cs336_basics/tokenizer/tokenizer.py:77-78 | lookup succeeds iff every symbol is in the reverse map, giving their ids in order; otherwise it fails naming a missing symbol |
| Tokenizer.EncodedSymbolsConcat | cs336_basics/tokenizer/tokenizer.py:75-77 | the symbols of all pretokens together spell the pretokens' bytes |
| Tokenizer.EncodeTotal | cs336_basics/tokenizer/tokenizer.py:75-78 | if the vocabulary holds every byte, every special token and every merge result, `encode` never hits a missing key |
| Tokenizer.JoinIdsAppend | cs336_basics/tokenizer/tokenizer.py:88-90 | sequencing encodings is associative: joining two lists of results joins their ids, and the first error wins |
| Tokenizer.EncodeIterableSingle | cs336_basics/tokenizer/tokenizer.py:88-90 | `encode_iterable` of no texts yields nothing, and of one text yields exactly `encode(text)` |
| Tokenizer.EncodeIterableAppend | cs336_basics/tokenizer/tokenizer.py:88-90 | `encode_iterable` of two lists joined is the two results joined, so every text is encoded on its own with no merging across texts |
| Tokenizer.Decode | cs336_basics/tokenizer/tokenizer.py:102-103 | decoding succeeds iff every id is in the vocabulary, and otherwise fails naming an unknown id |
| Tokenizer.DecodeSpec | cs336_basics/tokenizer/tokenizer.py:102-103 | decoding one id gives its token's bytes, and decoding a concatenation of id lists concatenates their byte strings |
| Tokenizer.DecodeLookedUp | cs336_basics/tokenizer/tokenizer.py:102-103 | decoding the ids looked up for some symbols gives back those symbols' bytes |
| Tokenizer.EncodeDecodeRoundTrip | cs336_basics/tokenizer/tokenizer.py:66-103 | whenever `encode(text)` succeeds, decoding its ids gives exactly the UTF-8 bytes of `text` |
| Tokenizer.CoversWhen | cs336_basics/tokenizer/tokenizer.py:78 | a vocabulary with every byte, every special token and every merge result covers every symbol encoding can produce |
| Tokenizer.TrainedCovers | cs336_basics/tokenizer/tokenizer.py:78 | when `vocab_size` is at least the initial size, training succeeds and its vocabulary covers every symbol that encoding with its merges can produce |
| Tokenizer.TrainedEncodeTotal | cs336_basics/tokenizer/tokenizer.py:75-78 | when `vocab_size` is at least the initial size, training succeeds and a tokenizer built from its output encodes every text without a missing key |
| Tokenizer.TrainedReplay | cs336_basics/tokenizer/tokenizer.py:126-140 | encoding a corpus pretoken with the trained merges reproduces that word's final symbols in the trainer's table |
| Serializer.Latin1Decode | cs336_basics/tokenizer/io.py:15 | Latin-1 decoding maps each byte to the character with the same code, one for one |
| Serializer.Latin1Encode | cs336_basics/tokenizer/io.py:35 | Latin-1 encoding succeeds iff every character is below 256, mapping each to its byte |
| Serializer.DecimalString | cs336_basics/tokenizer/io.py:15 | `str(k)`; its contract is stated by `Serializer.DecimalRoundTrip` and `Serializer.DecimalInjective` |
| Serializer.ParseDecimal | cs336_basics/tokenizer/io.py:35 | `int(k)` on decimal text; its contract is stated by `Serializer.DecimalRoundTrip` |
| Serializer.Latin1RoundTrip | cs336_basics/tokenizer/io.py:15-36 | decoded characters are below 256; encoding inverts decoding for every byte string; decoding inverts every successful encoding |
| Serializer.DecimalRoundTrip | cs336_basics/tokenizer/io.py:15-35 | `int(str(k)) == k` for every id, negative ids included; CPython's own limit of 4300 digits on both conversions is not modelled (see Left out) |
| Serializer.DecimalInjective | cs336_basics/tokenizer/io.py:15 | distinct ids get distinct decimal keys |
| Serializer.SortedIds | cs336_basics/tokenizer/io.py:15 | the saved key order lists every id of the vocabulary once, in ascending order |
| Serializer.SaveVocab | cs336_basics/tokenizer/io.py:15 | the vocabulary object, in ascending id order; its contract is stated by `Serializer.SaveVocabKeys` |
| Serializer.SaveMerges | cs336_basics/tokenizer/io.py:16 | the merges list; its contract is stated by `Serializer.LoadSavedMerges` |
| Serializer.Save | cs336_basics/tokenizer/io.py:8-22 | the two documents `save_vocab_and_merges` writes; its contract is stated by `Serializer.SaveLoadRoundTrip` |
| Serializer.SaveVocabKeys | cs336_basics/tokenizer/io.py:15 | the saved vocabulary object has one entry per id, distinct keys, and each key parses back to an id of the vocabulary |
| Serializer.PutSpec | cs336_basics/tokenizer/io.py:30 | storing a key in the object being parsed adds it to the keys, keeps keys distinct, overwrites the item already holding the key in place, or appends a new item |
| Serializer.JsonDict | cs336_basics/tokenizer/io.py:30 | the object `json.load` returns for a document's items; its contract is stated by `Serializer.JsonDictSpec` and `Serializer.JsonDictOfDistinct` |
| Serializer.JsonDictSpec | cs336_basics/tokenizer/io.py:30 | the loaded object has each key of the document exactly once, in the order of the key's first item, holding the value of its last item |
| Serializer.JsonDictOfDistinct | cs336_basics/tokenizer/io.py:30 | a document without a repeated key loads as written |
| Serializer.LoadVocabInto | cs336_basics/tokenizer/io.py:35 | the vocabulary comprehension, item by item; its contract is stated by `Serializer.LoadVocabErrors` and `Serializer.LoadVocabValues` |
| Serializer.LoadVocabErrors | cs336_basics/tokenizer/io.py:35 | loading the vocabulary succeeds iff every item has a decimal key and a value below U+0100; otherwise it fails with the first bad item's error, naming the key if the key is bad and the value otherwise |
| Serializer.LoadVocabValues | cs336_basics/tokenizer/io.py:35 | when every item is good, the ids are exactly the parsed keys, an id holds the Latin-1 bytes of the last item whose key parses to it, and nothing else changes |
| Serializer.LoadMerges | cs336_basics/tokenizer/io.py:36 | the merges comprehension; its contract is stated by `Serializer.LoadMergesErrors`, `Serializer.LoadMergesValues` and `Serializer.LoadSavedMerges` |
| Serializer.Load | cs336_basics/tokenizer/io.py:25-37 | `load_vocab_and_merges` on the parsed documents; its contract is stated by `Serializer.LoadErrors`, `Serializer.LoadDuplicateKey` and `Serializer.SaveLoadRoundTrip` |
| Serializer.LoadMergesErrors | cs336_basics/tokenizer/io.py:36 | loading the merges succeeds iff every entry has exactly two strings, both below U+0100; otherwise it fails with the first bad entry's error: `BadMergeEntry` for a wrong length, else `NotLatin1` naming the first string if it is bad and the second otherwise |
| Serializer.LoadMergesValues | cs336_basics/tokenizer/io.py:36 | a successful load keeps the number and order of the entries, and each pair is the Latin-1 bytes of its entry's two strings |
| Serializer.LoadErrors | cs336_basics/tokenizer/io.py:29-37 | loading succeeds iff every item of the loaded vocabulary object and every merge entry is good; the first bad item's error wins whatever the merges hold, since the vocabulary is converted first; when every item is good, the first bad merge entry's error is the result |
| Serializer.LoadDuplicateKey | cs336_basics/tokenizer/io.py:30-35 | with a key given twice, an overwritten bad value is never converted, and a bad last value is reported at the key's first position, before a later bad key |
| Serializer.LoadSavedMerges | cs336_basics/tokenizer/io.py:16-36 | loading saved merges gives back the same merges, in order |
| Serializer.SaveLoadRoundTrip | cs336_basics/scripts/train_save_bpe.py:74-75 | loading what was saved gives back exactly the original vocabulary and merges, for arbitrary bytes including invalid UTF-8 |

## Left out

- File I/O is not modelled. Reading the corpus (`bpe_train.py:100-101`), opening and writing the JSON files, and `json.dump`/`json.load` are absent. Training takes the text in memory, and the serializer works on abstract JSON values: a vocabulary document is a list of key/value string pairs in document order, which `Serializer.JsonDict` turns into the object `json.load` returns, and the merges are a list of string lists.
- Unicode character classes (`\p{L}`, `\p{N}`, `\s`) and the UTF-8 encoding of a code point are fields of `Pretokenizer.CharModel`. Tables and encoding are not spelled out. The proofs assume only what `CharModel.Valid` states: the classes are pairwise disjoint, U+0020 is whitespace, and every code point encodes to at least one byte.
- The pattern is scanned by an explicit scanner. The `regex` module itself is not modelled. That includes zero-width matches, which cannot arise here because every branch consumes at least one character.
- An empty special-token string is excluded by the `Pretokenizer.NonEmptyTokens` precondition. With it, the source's split pattern has an empty alternative, and the `regex` module's zero-width split semantics would apply.
- `special_tokens=None` defaulting to `[]` is not modelled. The model always takes a list.
- `decode`'s final `bytes.decode("utf-8", errors="replace")` is not modelled. `Tokenizer.Decode` returns the joined byte string.
- The unused `merge_map` (`tokenizer.py:32`) and the `Counter`/`defaultdict` machinery are not modelled; plain maps replace them.
- `encode_iterable` yields lazily in the source, so ids of earlier texts are emitted before a later text's missing key raises. `Tokenizer.EncodeIterable` returns either all ids or the first error; the partial output is not modelled.
- Tokenizer.ReverseVocab: for a repeated vocabulary value, it keeps the greatest id. Python's dict comprehension keeps the id inserted last. The two agree for trained vocabularies and for documents written by `Save`, which list ids in ascending order. They can differ for a document listing ids out of order: loading `{"1": "a", "0": "a"}` maps `b"a"` to 0 in `from_files` and to 1 in the model. The same holds for a hand-built dict inserted out of order.
- Serializer.SaveVocab: writes ids in ascending order, not the dict's insertion order. These orders coincide for trained vocabularies. A map has no insertion order, and the round trip does not depend on it.
- Serializer.ParseDecimal accepts only what `str(int)` produces, plus a leading `+`, leading zeros and a leading `-`. Python's `int()` also accepts surrounding whitespace, `_` separators and non-ASCII digits. On such keys the model reports `BadTokenId` where Python would load the entry. CPython's `int()` also raises `ValueError` on more than 4300 digits (`sys.int_info.default_max_str_digits`, adjustable at run time); the model parses keys of any length.
- Serializer.DecimalString: `str(k)` in CPython raises `ValueError` for an id of more than 4300 decimal digits; the model writes the digits of every id. So `Serializer.DecimalRoundTrip` and `Serializer.SaveLoadRoundTrip` hold in CPython only for ids of at most 4300 digits; for larger ids `save_vocab_and_merges` raises instead.
- Serializer.LoadMerges: a merges entry is a list of strings. A document whose entry is a two-character string, which Python unpacks into two one-character strings, or holds a non-string, is outside the model.
- `cs336_basics/training/dataloader.py` is not part of this model. It covers tensor batching, random sampling and device transfer.
- `scripts/train_save_bpe.py` is not part of this model, apart from its round-trip assertion. The rest is argument parsing, directory creation and printing.
