/** `save_vocab_and_merges` / `load_vocab_and_merges` as pure functions to and from the
    parsed JSON documents: the vocabulary object as its items in document order, and the
    merge list as a list of string lists. */
module Serializer {
  import opened Common

  // ---------------------------------------------------------------------------------
  // Latin-1
  // ---------------------------------------------------------------------------------

  /** The Latin-1 character of a byte: the code point with the byte's value. */
  function ByteChar(b: Byte): char
  {
    (b as int) as char
  }

  /** The Latin-1 byte of a code point below 256. */
  function CharByte(c: char): Byte
    requires c as int < 256
  {
    (c as int) as Byte
  }

  /** A byte's character is below 256 and encodes back to the byte. */
  lemma ByteCharBack(b: Byte)
    ensures ByteChar(b) as int < 256 && CharByte(ByteChar(b)) == b
  {
    assert ((b as int) as char) as int == b as int;
  }

  /** A character below 256 decodes back from its byte. */
  lemma CharByteBack(c: char)
    requires c as int < 256
    ensures ByteChar(CharByte(c)) == c
  {
    assert ((c as int) as Byte) as int == c as int;
  }

  /** The two per-character maps are inverse to each other. */
  lemma ByteCharInverse(b: Byte, c: char)
    ensures ByteChar(b) as int < 256 && CharByte(ByteChar(b)) == b
    ensures c as int < 256 ==> ByteChar(CharByte(c)) == c
  {
    ByteCharBack(b);
    if c as int < 256 {
      CharByteBack(c);
    }
  }

  /** `bytes.decode("latin1")`: byte `b` becomes the code point `b`. */
  function Latin1Decode(b: Bytes): (s: string)
    ensures |s| == |b|
    ensures forall i :: 0 <= i < |b| ==> s[i] == ByteChar(b[i])
  {
    if |b| == 0 then [] else [ByteChar(b[0])] + Latin1Decode(b[1..])
  }

  /** `str.encode("latin1")`: code point `c` becomes the byte `c`; a code point above 255
      has no encoding (`UnicodeEncodeError`). */
  function Latin1Encode(s: string): (r: Option<Bytes>)
    ensures r.Some? <==> forall i :: 0 <= i < |s| ==> s[i] as int < 256
    ensures r.Some? ==> |r.value| == |s| && forall i :: 0 <= i < |s| ==> r.value[i] == CharByte(s[i])
  {
    if |s| == 0 then Some([])
    else if s[0] as int >= 256 then None
    else
      var tail := s[1..];
      assert forall i :: 0 <= i < |tail| ==> tail[i] == s[i + 1];
      match Latin1Encode(tail)
      case None => None
      case Some(rest) => Some([CharByte(s[0])] + rest)
  }

  /** Latin-1 is a bijection between byte strings and strings of code points below 256:
      every decoded character is below 256, encoding inverts decoding, and decoding
      inverts every successful encoding. */
  lemma Latin1RoundTrip(b: Bytes, s: string)
    ensures forall i :: 0 <= i < |b| ==> Latin1Decode(b)[i] as int < 256
    ensures Latin1Encode(Latin1Decode(b)) == Some(b)
    ensures Latin1Encode(s).Some? ==> Latin1Decode(Latin1Encode(s).value) == s
  {
    var t := Latin1Decode(b);
    forall i | 0 <= i < |b|
      ensures t[i] as int < 256 && CharByte(t[i]) == b[i]
    {
      ByteCharInverse(b[i], t[i]);
    }
    var e := Latin1Encode(t).value;
    assert e == b;
    if Latin1Encode(s).Some? {
      var e := Latin1Encode(s).value;
      var d := Latin1Decode(e);
      forall i | 0 <= i < |s|
        ensures d[i] == s[i]
      {
        ByteCharInverse(e[i], s[i]);
      }
    }
  }

  // ---------------------------------------------------------------------------------
  // Decimal keys
  // ---------------------------------------------------------------------------------

  predicate IsDigit(c: char)
  {
    '0' <= c <= '9'
  }

  predicate AllDigits(s: string)
  {
    forall i :: 0 <= i < |s| ==> IsDigit(s[i])
  }

  function DigitChar(d: int): char
    requires 0 <= d < 10
  {
    ('0' as int + d) as char
  }

  /** The decimal digits of a natural number, most significant first, no leading zero. */
  function Digits(n: nat): string
  {
    if n < 10 then [DigitChar(n)] else Digits(n / 10) + [DigitChar(n % 10)]
  }

  /** `str(k)` for an integer. */
  function DecimalString(k: int): string
  {
    if k < 0 then "-" + Digits(-k) else Digits(k)
  }

  /** The value of a run of ASCII digits; leading zeros are allowed. */
  function DigitsValue(s: string): nat
    requires AllDigits(s)
  {
    if |s| == 0 then 0
    else DigitsValue(s[..|s| - 1]) * 10 + (s[|s| - 1] as int - '0' as int)
  }

  /** `int(s)` on an optional sign followed by at least one ASCII digit; anything else
      is rejected (`ValueError`). */
  function ParseDecimal(s: string): Option<int>
  {
    if |s| > 0 && (s[0] == '-' || s[0] == '+') then
      if |s| > 1 && AllDigits(s[1..]) then
        var v: int := DigitsValue(s[1..]);
        Some(if s[0] == '-' then -v else v)
      else None
    else if |s| > 0 && AllDigits(s) then Some(DigitsValue(s))
    else None
  }

  lemma {:induction false} DigitsSpec(n: nat)
    ensures |Digits(n)| > 0 && AllDigits(Digits(n))
    ensures DigitsValue(Digits(n)) == n
  {
    if n >= 10 {
      DigitsSpec(n / 10);
      var d := Digits(n);
      assert d[..|d| - 1] == Digits(n / 10);
    }
  }

  /** Token ids survive the decimal key: `int(str(k)) == k`, negative ids included. */
  lemma DecimalRoundTrip(k: int)
    ensures ParseDecimal(DecimalString(k)) == Some(k)
  {
    if k < 0 {
      DigitsSpec(-k);
      assert DecimalString(k)[1..] == Digits(-k);
    } else {
      DigitsSpec(k);
      assert IsDigit(Digits(k)[0]);
    }
  }

  /** Distinct ids never share a key. */
  lemma DecimalInjective()
    ensures forall k1, k2 :: DecimalString(k1) == DecimalString(k2) ==> k1 == k2
  {
    forall k1, k2 | DecimalString(k1) == DecimalString(k2)
      ensures k1 == k2
    {
      DecimalRoundTrip(k1);
      DecimalRoundTrip(k2);
    }
  }

  // ---------------------------------------------------------------------------------
  // Saving
  // ---------------------------------------------------------------------------------

  /** The items of a JSON object, in document order. */
  type JsonObject = seq<(string, string)>

  predicate DistinctKeys(o: JsonObject)
  {
    forall i, j :: 0 <= i < j < |o| ==> o[i].0 != o[j].0
  }

  /** The ids of a vocabulary in ascending order: the order in which every vocabulary
      here is built, and so the order `vocab.items()` lists them. */
  function SortedIds(s: set<int>): (r: seq<int>)
    ensures forall k :: k in r <==> k in s
    ensures forall i, j :: 0 <= i < j < |r| ==> r[i] < r[j]
    decreases |s|
  {
    if s == {} then []
    else
      var m := IntMax(s);
      var rest := SortedIds(s - {m});
      AppendMax(rest, m, s);
      rest + [m]
  }

  /** Appending the greatest member to an ascending listing of the others lists the
      whole set in ascending order. */
  lemma AppendMax(rest: seq<int>, m: int, s: set<int>)
    requires m in s && forall x :: x in s ==> x <= m
    requires forall k :: k in rest <==> k in s - {m}
    requires forall i, j :: 0 <= i < j < |rest| ==> rest[i] < rest[j]
    ensures forall k :: k in rest + [m] <==> k in s
    ensures forall i, j :: 0 <= i < j < |rest + [m]| ==> (rest + [m])[i] < (rest + [m])[j]
  {
    var r := rest + [m];
    forall i, j | 0 <= i < j < |r|
      ensures r[i] < r[j]
    {
      assert r[i] == rest[i] && rest[i] in rest;
      if j < |rest| {
        assert r[j] == rest[j];
      }
    }
  }

  /** The vocabulary items for the given ids, in their order. */
  function SaveItems(vocab: Vocab, ids: seq<int>): JsonObject
    requires forall k :: k in ids ==> k in vocab
  {
    if |ids| == 0 then []
    else [(DecimalString(ids[0]), Latin1Decode(vocab[ids[0]]))] + SaveItems(vocab, ids[1..])
  }

  /** `vocab_json = {str(k): v.decode("latin1") for k, v in vocab.items()}` */
  function SaveVocab(vocab: Vocab): JsonObject
  {
    SaveItems(vocab, SortedIds(vocab.Keys))
  }

  /** `merges_json = [[a.decode("latin1"), b.decode("latin1")] for a, b in merges]` */
  function SaveMerges(merges: seq<Pair>): seq<seq<string>>
  {
    if |merges| == 0 then []
    else [[Latin1Decode(merges[0].0), Latin1Decode(merges[0].1)]] + SaveMerges(merges[1..])
  }

  /** The two documents `save_vocab_and_merges` writes. */
  datatype Saved = Saved(vocabJson: JsonObject, mergesJson: seq<seq<string>>)

  function Save(vocab: Vocab, merges: seq<Pair>): Saved
  {
    Saved(SaveVocab(vocab), SaveMerges(merges))
  }

  lemma {:induction false} SaveItemsKeys(vocab: Vocab, ids: seq<int>)
    requires forall k :: k in ids ==> k in vocab
    requires forall i, j :: 0 <= i < j < |ids| ==> ids[i] != ids[j]
    ensures |SaveItems(vocab, ids)| == |ids|
    ensures forall i :: 0 <= i < |ids| ==> SaveItems(vocab, ids)[i].0 == DecimalString(ids[i])
    ensures DistinctKeys(SaveItems(vocab, ids))
  {
    DecimalInjective();
    if |ids| > 0 {
      SaveItemsKeys(vocab, ids[1..]);
      var o := SaveItems(vocab, ids);
      forall i | 0 <= i < |ids|
        ensures o[i].0 == DecimalString(ids[i])
      {
        if i > 0 {
          assert o[i] == SaveItems(vocab, ids[1..])[i - 1];
        }
      }
    }
  }

  /** Every saved key parses back to its id. */
  lemma SaveItemsParse(vocab: Vocab, ids: seq<int>)
    requires forall k :: k in ids ==> k in vocab
    requires forall i, j :: 0 <= i < j < |ids| ==> ids[i] != ids[j]
    ensures |SaveItems(vocab, ids)| == |ids|
    ensures forall i :: 0 <= i < |ids| ==> ParseDecimal(SaveItems(vocab, ids)[i].0) == Some(ids[i])
  {
    SaveItemsKeys(vocab, ids);
    forall i | 0 <= i < |ids|
      ensures ParseDecimal(SaveItems(vocab, ids)[i].0) == Some(ids[i])
    {
      DecimalRoundTrip(ids[i]);
    }
  }

  /** The saved vocabulary is a well-formed JSON object: one item per id, no key twice. */
  lemma SaveVocabKeys(vocab: Vocab)
    ensures |SaveVocab(vocab)| == |vocab|
    ensures DistinctKeys(SaveVocab(vocab))
    ensures forall i :: 0 <= i < |SaveVocab(vocab)| ==>
              ParseDecimal(SaveVocab(vocab)[i].0).Some? && ParseDecimal(SaveVocab(vocab)[i].0).value in vocab
  {
    var ids := SortedIds(vocab.Keys);
    var o := SaveItems(vocab, ids);
    assert SaveVocab(vocab) == o;
    SaveItemsKeys(vocab, ids);
    SaveItemsParse(vocab, ids);
    DistinctCard(ids, vocab.Keys);
    forall i | 0 <= i < |o|
      ensures ParseDecimal(o[i].0).Some? && ParseDecimal(o[i].0).value in vocab
    {
      assert ids[i] in ids;
    }
  }

  /** A duplicate-free list holding exactly the members of a set has its size. */
  lemma {:induction false} DistinctCard(r: seq<int>, s: set<int>)
    requires forall k :: k in r <==> k in s
    requires forall i, j :: 0 <= i < j < |r| ==> r[i] < r[j]
    ensures |r| == |s|
  {
    if |r| > 0 {
      var last := r[|r| - 1];
      var front := r[..|r| - 1];
      assert forall i :: 0 <= i < |front| ==> front[i] == r[i];
      assert last !in front;
      assert forall k :: k in front <==> k in s - {last};
      DistinctCard(front, s - {last});
    } else {
      forall k | k in s
        ensures k in r
      {
      }
    }
  }

  // ---------------------------------------------------------------------------------
  // The object `json.load` returns
  // ---------------------------------------------------------------------------------

  /** The keys of a JSON object. */
  function KeysOf(o: JsonObject): set<string>
  {
    set i | 0 <= i < |o| :: o[i].0
  }

  /** The value of the last item with key `k`, if any. */
  function LastValue(items: JsonObject, k: string): Option<string>
  {
    if |items| == 0 then None
    else if items[|items| - 1].0 == k then Some(items[|items| - 1].1)
    else LastValue(items[..|items| - 1], k)
  }

  /** The index of the first item with key `k`; `|items|` when there is none. */
  function FirstIndex(items: JsonObject, k: string): (r: nat)
    ensures r <= |items|
    ensures r < |items| ==> items[r].0 == k
    ensures forall j :: 0 <= j < r ==> items[j].0 != k
  {
    if |items| == 0 then 0
    else if items[0].0 == k then 0
    else
      var r := 1 + FirstIndex(items[1..], k);
      assert forall j :: 1 <= j < r ==> items[j] == items[1..][j - 1];
      r
  }

  /** `d[k] = v` while the parser builds an object: a key already present keeps its
      position and takes the new value; a new key goes last. */
  function Put(o: JsonObject, k: string, v: string): JsonObject
  {
    if |o| == 0 then [(k, v)]
    else if o[0].0 == k then [(k, v)] + o[1..]
    else [o[0]] + Put(o[1..], k, v)
  }

  /** The object `json.load` returns for a document's items, in document order: a key
      given twice keeps its first position and its last value. */
  function JsonDict(items: JsonObject): JsonObject
  {
    if |items| == 0 then []
    else Put(JsonDict(items[..|items| - 1]), items[|items| - 1].0, items[|items| - 1].1)
  }

  lemma KeysOfSnoc(o: JsonObject, k: string, v: string)
    ensures KeysOf(o + [(k, v)]) == KeysOf(o) + {k}
  {
    var r := o + [(k, v)];
    assert r[|o|].0 == k;
    forall x | x in KeysOf(o)
      ensures x in KeysOf(r)
    {
      var i :| 0 <= i < |o| && o[i].0 == x;
      assert r[i] == o[i];
    }
  }

  lemma {:induction false} PutShape(o: JsonObject, k: string, v: string)
    ensures k in KeysOf(o) ==> Put(o, k, v) == o[FirstIndex(o, k) := (k, v)]
    ensures k !in KeysOf(o) ==> Put(o, k, v) == o + [(k, v)]
  {
    if |o| > 0 {
      var tail := o[1..];
      if o[0].0 != k {
        PutShape(tail, k, v);
        var r := Put(o, k, v);
        assert r == [o[0]] + Put(tail, k, v);
        if k in KeysOf(o) {
          var i :| 0 <= i < |o| && o[i].0 == k;
          assert tail[i - 1].0 == k;
          assert FirstIndex(o, k) == 1 + FirstIndex(tail, k);
          assert r == o[FirstIndex(o, k) := (k, v)];
        } else {
          forall x | x in KeysOf(tail)
            ensures x in KeysOf(o)
          {
            var i :| 0 <= i < |tail| && tail[i].0 == x;
            assert o[i + 1] == tail[i];
          }
        }
      } else {
        assert o[0].0 in KeysOf(o);
      }
    }
  }

  /** `d[k] = v` adds `k` to the keys, keeps them distinct, and changes only the item
      holding `k`, or appends one. */
  lemma PutSpec(o: JsonObject, k: string, v: string)
    ensures KeysOf(Put(o, k, v)) == KeysOf(o) + {k}
    ensures DistinctKeys(o) ==> DistinctKeys(Put(o, k, v))
    ensures k in KeysOf(o) ==> Put(o, k, v) == o[FirstIndex(o, k) := (k, v)]
    ensures k !in KeysOf(o) ==> Put(o, k, v) == o + [(k, v)]
  {
    PutShape(o, k, v);
    var r := Put(o, k, v);
    if k in KeysOf(o) {
      FirstIndexPresent(o, k);
      assert forall i :: 0 <= i < |r| ==> r[i].0 == o[i].0;
      forall x | x in KeysOf(r)
        ensures x in KeysOf(o)
      {
        var i :| 0 <= i < |r| && r[i].0 == x;
      }
      forall x | x in KeysOf(o)
        ensures x in KeysOf(r)
      {
        var i :| 0 <= i < |o| && o[i].0 == x;
        assert r[i].0 == x;
      }
    } else {
      KeysOfSnoc(o, k, v);
      if DistinctKeys(o) {
        forall i, j | 0 <= i < j < |r|
          ensures r[i].0 != r[j].0
        {
          if j == |o| {
            assert o[i].0 in KeysOf(o);
          }
        }
      }
    }
  }

  /** The first index of a key in a document with one more item. */
  lemma FirstIndexSnoc(items: JsonObject, k: string, v: string, x: string)
    ensures FirstIndex(items, x) < |items| ==> FirstIndex(items + [(k, v)], x) == FirstIndex(items, x)
    ensures FirstIndex(items, x) == |items| && x == k ==> FirstIndex(items + [(k, v)], x) == |items|
  {
    var r := items + [(k, v)];
    var a := FirstIndex(items, x);
    var b := FirstIndex(r, x);
    if a < |items| {
      assert r[a].0 == x;
    } else if x == k {
      assert r[|items|].0 == x;
    }
  }

  lemma FirstIndexPresent(items: JsonObject, x: string)
    ensures x in KeysOf(items) <==> FirstIndex(items, x) < |items|
  {
    if x in KeysOf(items) {
      var i :| 0 <= i < |items| && items[i].0 == x;
    }
  }

  /** The last value of a key in a document with one more item. */
  lemma LastValueSnoc(items: JsonObject, k: string, v: string, x: string)
    ensures LastValue(items + [(k, v)], x) == if x == k then Some(v) else LastValue(items, x)
  {
    assert (items + [(k, v)])[..|items|] == items;
  }

  /** The object `json.load` builds: its keys are the document's keys, each once; each
      key holds the value of its last item; and keys appear in the order of their first
      item. */
  lemma {:induction false} JsonDictSpec(items: JsonObject)
    ensures DistinctKeys(JsonDict(items))
    ensures KeysOf(JsonDict(items)) == KeysOf(items)
    ensures forall i :: 0 <= i < |JsonDict(items)| ==> LastValue(items, JsonDict(items)[i].0) == Some(JsonDict(items)[i].1)
    ensures forall i, j :: 0 <= i < j < |JsonDict(items)| ==>
              FirstIndex(items, JsonDict(items)[i].0) < FirstIndex(items, JsonDict(items)[j].0)
  {
    JsonDictKeys(items);
    JsonDictValues(items);
    JsonDictOrder(items);
  }

  lemma {:induction false} JsonDictKeys(items: JsonObject)
    ensures DistinctKeys(JsonDict(items))
    ensures KeysOf(JsonDict(items)) == KeysOf(items)
  {
    if |items| > 0 {
      var n := |items|;
      var pre := items[..n - 1];
      var k := items[n - 1].0;
      var v := items[n - 1].1;
      assert items == pre + [(k, v)];
      JsonDictKeys(pre);
      assert JsonDict(items) == Put(JsonDict(pre), k, v);
      PutSpec(JsonDict(pre), k, v);
      KeysOfSnoc(pre, k, v);
    }
  }

  lemma {:induction false} JsonDictValues(items: JsonObject)
    ensures forall i :: 0 <= i < |JsonDict(items)| ==> LastValue(items, JsonDict(items)[i].0) == Some(JsonDict(items)[i].1)
  {
    if |items| > 0 {
      var n := |items|;
      var pre := items[..n - 1];
      var k := items[n - 1].0;
      var v := items[n - 1].1;
      assert items == pre + [(k, v)];
      JsonDictKeys(pre);
      JsonDictValues(pre);
      var d := JsonDict(pre);
      var r := Put(d, k, v);
      assert JsonDict(items) == r;
      PutSpec(d, k, v);
      forall i | 0 <= i < |r|
        ensures LastValue(items, r[i].0) == Some(r[i].1)
      {
        LastValueSnoc(pre, k, v, r[i].0);
        if r[i].0 != k {
          assert i < |d| && r[i] == d[i];
        }
      }
    }
  }

  lemma {:induction false} JsonDictOrder(items: JsonObject)
    ensures forall i, j :: 0 <= i < j < |JsonDict(items)| ==>
              FirstIndex(items, JsonDict(items)[i].0) < FirstIndex(items, JsonDict(items)[j].0)
  {
    if |items| > 0 {
      var n := |items|;
      var pre := items[..n - 1];
      var k := items[n - 1].0;
      var v := items[n - 1].1;
      assert items == pre + [(k, v)];
      JsonDictKeys(pre);
      JsonDictOrder(pre);
      var d := JsonDict(pre);
      var r := Put(d, k, v);
      assert JsonDict(items) == r;
      PutSpec(d, k, v);
      forall i | 0 <= i < |d|
        ensures FirstIndex(items, d[i].0) == FirstIndex(pre, d[i].0) < n - 1
      {
        assert d[i].0 in KeysOf(d);
        FirstIndexPresent(pre, d[i].0);
        FirstIndexSnoc(pre, k, v, d[i].0);
      }
      if k !in KeysOf(d) {
        FirstIndexPresent(pre, k);
        FirstIndexSnoc(pre, k, v, k);
        assert FirstIndex(items, k) == n - 1;
      }
      forall i, j | 0 <= i < j < |r|
        ensures FirstIndex(items, r[i].0) < FirstIndex(items, r[j].0)
      {
        if j < |d| {
          assert r[i].0 == d[i].0 && r[j].0 == d[j].0;
        } else {
          assert r[i].0 == d[i].0 && r[j].0 == k;
        }
      }
    }
  }

  /** A document without repeated keys is returned as written. */
  lemma {:induction false} JsonDictOfDistinct(items: JsonObject)
    requires DistinctKeys(items)
    ensures JsonDict(items) == items
  {
    if |items| > 0 {
      var n := |items|;
      var pre := items[..n - 1];
      var k := items[n - 1].0;
      var v := items[n - 1].1;
      assert items == pre + [(k, v)];
      assert DistinctKeys(pre);
      JsonDictOfDistinct(pre);
      assert k !in KeysOf(pre);
      PutSpec(pre, k, v);
    }
  }

  // ---------------------------------------------------------------------------------
  // Loading
  // ---------------------------------------------------------------------------------

  /** What `load_vocab_and_merges` raises on a document it cannot read back. */
  datatype LoadError =
    | BadTokenId(key: string)            // `int(k)` raises `ValueError`
    | NotLatin1(text: string)            // `encode("latin1")` raises `UnicodeEncodeError`
    | BadMergeEntry(entry: seq<string>)  // `for a, b in ...` cannot unpack the entry

  /** `{int(k): v.encode("latin1") for k, v in vocab_json.items()}` from `acc`, item by item:
      the first bad key or value raises; a later item for the same id overwrites. */
  function LoadVocabInto(acc: Vocab, items: JsonObject): Result<Vocab, LoadError>
    decreases |items|
  {
    if |items| == 0 then Ok(acc)
    else
      match ParseDecimal(items[0].0)
      case None => Err(BadTokenId(items[0].0))
      case Some(id) =>
        match Latin1Encode(items[0].1)
        case None => Err(NotLatin1(items[0].1))
        case Some(b) => LoadVocabInto(acc[id := b], items[1..])
  }

  /** `[(a.encode("latin1"), b.encode("latin1")) for a, b in merges_json]` */
  function LoadMerges(entries: seq<seq<string>>): Result<seq<Pair>, LoadError>
  {
    if |entries| == 0 then Ok([])
    else if |entries[0]| != 2 then Err(BadMergeEntry(entries[0]))
    else
      match Latin1Encode(entries[0][0])
      case None => Err(NotLatin1(entries[0][0]))
      case Some(a) =>
        match Latin1Encode(entries[0][1])
        case None => Err(NotLatin1(entries[0][1]))
        case Some(b) =>
          match LoadMerges(entries[1..])
          case Err(e) => Err(e)
          case Ok(rest) => Ok([(a, b)] + rest)
  }

  /** `load_vocab_and_merges`: the vocabulary object `json.load` returns first, then the
      merges. */
  function Load(saved: Saved): Result<(Vocab, seq<Pair>), LoadError>
  {
    match LoadVocabInto(map[], JsonDict(saved.vocabJson))
    case Err(e) => Err(e)
    case Ok(vocab) =>
      match LoadMerges(saved.mergesJson)
      case Err(e) => Err(e)
      case Ok(merges) => Ok((vocab, merges))
  }

  /** An item both `int(k)` and `v.encode("latin1")` accept. */
  predicate GoodItem(item: (string, string))
  {
    ParseDecimal(item.0).Some? && Latin1Encode(item.1).Some?
  }

  /** What a bad item raises: the key is converted before the value. */
  function ItemError(item: (string, string)): LoadError
    requires !GoodItem(item)
  {
    if ParseDecimal(item.0).None? then BadTokenId(item.0) else NotLatin1(item.1)
  }

  /** Loading the vocabulary fails exactly when some item is bad, and then with the
      error of the first bad item. */
  lemma {:induction false} LoadVocabErrors(acc: Vocab, items: JsonObject)
    ensures LoadVocabInto(acc, items).Ok? <==> forall i :: 0 <= i < |items| ==> GoodItem(items[i])
    ensures forall i :: 0 <= i < |items| && !GoodItem(items[i]) && (forall j :: 0 <= j < i ==> GoodItem(items[j])) ==>
              LoadVocabInto(acc, items) == Err(ItemError(items[i]))
    decreases |items|
  {
    if |items| > 0 {
      var tail := items[1..];
      assert forall i :: 1 <= i < |items| ==> items[i] == tail[i - 1];
      if GoodItem(items[0]) {
        var id := ParseDecimal(items[0].0).value;
        var b := Latin1Encode(items[0].1).value;
        LoadVocabErrors(acc[id := b], tail);
        assert LoadVocabInto(acc, items) == LoadVocabInto(acc[id := b], tail);
        forall i | 0 <= i < |items| && !GoodItem(items[i]) && (forall j :: 0 <= j < i ==> GoodItem(items[j]))
          ensures LoadVocabInto(acc, items) == Err(ItemError(items[i]))
        {
          assert i > 0;
          assert forall j :: 0 <= j < i - 1 ==> GoodItem(tail[j]) by {
            forall j | 0 <= j < i - 1
              ensures GoodItem(tail[j])
            {
              assert GoodItem(items[j + 1]);
            }
          }
        }
      }
    }
  }

  /** When every item is good, loading succeeds and its ids are `acc`'s and the parsed keys. */
  lemma {:induction false} LoadVocabKeys(acc: Vocab, items: JsonObject)
    requires forall i :: 0 <= i < |items| ==> GoodItem(items[i])
    ensures LoadVocabInto(acc, items).Ok?
    ensures forall k :: k in LoadVocabInto(acc, items).value <==>
              k in acc || exists i :: 0 <= i < |items| && ParseDecimal(items[i].0) == Some(k)
    decreases |items|
  {
    if |items| > 0 {
      var tail := items[1..];
      assert forall i :: 1 <= i < |items| ==> items[i] == tail[i - 1];
      assert GoodItem(items[0]);
      var id := ParseDecimal(items[0].0).value;
      var b := Latin1Encode(items[0].1).value;
      LoadVocabKeys(acc[id := b], tail);
      var r := LoadVocabInto(acc[id := b], tail).value;
      assert LoadVocabInto(acc, items) == Ok(r);
      forall k
        ensures k in r <==> k in acc || exists i :: 0 <= i < |items| && ParseDecimal(items[i].0) == Some(k)
      {
        if exists i :: 0 <= i < |items| && ParseDecimal(items[i].0) == Some(k) {
          var i :| 0 <= i < |items| && ParseDecimal(items[i].0) == Some(k);
          if i > 0 {
            assert ParseDecimal(tail[i - 1].0) == Some(k);
          }
        }
        if exists i :: 0 <= i < |tail| && ParseDecimal(tail[i].0) == Some(k) {
          var i :| 0 <= i < |tail| && ParseDecimal(tail[i].0) == Some(k);
          assert ParseDecimal(items[i + 1].0) == Some(k);
        }
      }
    }
  }

  /** An id of `acc` that no item's key parses to keeps its value. */
  lemma {:induction false} LoadVocabFrame(acc: Vocab, items: JsonObject, k: int)
    requires forall i :: 0 <= i < |items| ==> GoodItem(items[i])
    requires k in acc && forall i :: 0 <= i < |items| ==> ParseDecimal(items[i].0) != Some(k)
    ensures LoadVocabInto(acc, items).Ok? && k in LoadVocabInto(acc, items).value
    ensures LoadVocabInto(acc, items).value[k] == acc[k]
    decreases |items|
  {
    if |items| > 0 {
      var tail := items[1..];
      assert forall i :: 1 <= i < |items| ==> items[i] == tail[i - 1];
      assert GoodItem(items[0]);
      var id := ParseDecimal(items[0].0).value;
      var b := Latin1Encode(items[0].1).value;
      assert id != k;
      LoadVocabFrame(acc[id := b], tail, k);
      assert LoadVocabInto(acc, items) == LoadVocabInto(acc[id := b], tail);
    }
  }

  /** The id of an item no later item overwrites holds that item's bytes. */
  lemma {:induction false} LoadVocabLast(acc: Vocab, items: JsonObject, i: nat)
    requires forall i :: 0 <= i < |items| ==> GoodItem(items[i])
    requires i < |items| && GoodItem(items[i])
    requires forall j :: i < j < |items| ==> ParseDecimal(items[j].0) != ParseDecimal(items[i].0)
    ensures LoadVocabInto(acc, items).Ok? && ParseDecimal(items[i].0).value in LoadVocabInto(acc, items).value
    ensures LoadVocabInto(acc, items).value[ParseDecimal(items[i].0).value] == Latin1Encode(items[i].1).value
    decreases |items|
  {
    var tail := items[1..];
    assert forall i :: 1 <= i < |items| ==> items[i] == tail[i - 1];
    assert GoodItem(items[0]);
    var id := ParseDecimal(items[0].0).value;
    var b := Latin1Encode(items[0].1).value;
    assert LoadVocabInto(acc, items) == LoadVocabInto(acc[id := b], tail);
    if i > 0 {
      LoadVocabLast(acc[id := b], tail, i - 1);
    } else {
      LoadVocabFrame(acc[id := b], tail, id);
    }
  }

  /** When every item is good, loading succeeds; the ids are the parsed keys, an id holds
      the value of the last item whose key parses to it, and the other ids of `acc` keep
      their values. */
  lemma LoadVocabValues(acc: Vocab, items: JsonObject)
    requires forall i :: 0 <= i < |items| ==> GoodItem(items[i])
    ensures LoadVocabInto(acc, items).Ok?
    ensures forall k :: k in LoadVocabInto(acc, items).value <==>
              k in acc || exists i :: 0 <= i < |items| && ParseDecimal(items[i].0) == Some(k)
    ensures forall i :: 0 <= i < |items| && GoodItem(items[i]) &&
                        (forall j :: i < j < |items| ==> ParseDecimal(items[j].0) != ParseDecimal(items[i].0)) ==>
              LoadVocabInto(acc, items).value[ParseDecimal(items[i].0).value] == Latin1Encode(items[i].1).value
    ensures forall k :: k in acc && (forall i :: 0 <= i < |items| ==> ParseDecimal(items[i].0) != Some(k)) ==>
              LoadVocabInto(acc, items).value[k] == acc[k]
  {
    LoadVocabKeys(acc, items);
    forall i | 0 <= i < |items| && GoodItem(items[i]) &&
               (forall j :: i < j < |items| ==> ParseDecimal(items[j].0) != ParseDecimal(items[i].0))
      ensures LoadVocabInto(acc, items).value[ParseDecimal(items[i].0).value] == Latin1Encode(items[i].1).value
    {
      LoadVocabLast(acc, items, i);
    }
    forall k | k in acc && (forall i :: 0 <= i < |items| ==> ParseDecimal(items[i].0) != Some(k))
      ensures LoadVocabInto(acc, items).value[k] == acc[k]
    {
      LoadVocabFrame(acc, items, k);
    }
  }

  /** A merge entry the unpacking `a, b` and both `encode("latin1")` calls accept. */
  predicate GoodEntry(entry: seq<string>)
  {
    |entry| == 2 && Latin1Encode(entry[0]).Some? && Latin1Encode(entry[1]).Some?
  }

  /** What a bad merge entry raises: the unpacking first, then the first string's
      encoding, then the second's. */
  function EntryError(entry: seq<string>): LoadError
    requires !GoodEntry(entry)
  {
    if |entry| != 2 then BadMergeEntry(entry)
    else if Latin1Encode(entry[0]).None? then NotLatin1(entry[0])
    else NotLatin1(entry[1])
  }

  /** Loading the merges succeeds exactly when every entry is good. */
  lemma {:induction false} LoadMergesOk(entries: seq<seq<string>>)
    ensures LoadMerges(entries).Ok? <==> forall i :: 0 <= i < |entries| ==> GoodEntry(entries[i])
    decreases |entries|
  {
    if |entries| > 0 {
      var tail := entries[1..];
      assert forall i :: 1 <= i < |entries| ==> entries[i] == tail[i - 1];
      if GoodEntry(entries[0]) {
        LoadMergesOk(tail);
        assert LoadMerges(entries).Ok? <==> LoadMerges(tail).Ok?;
      }
    }
  }

  /** The first bad entry is the error of loading the merges. */
  lemma {:induction false} LoadMergesFirstBad(entries: seq<seq<string>>, i: nat)
    requires i < |entries| && !GoodEntry(entries[i])
    requires forall j :: 0 <= j < i ==> GoodEntry(entries[j])
    ensures LoadMerges(entries) == Err(EntryError(entries[i]))
    decreases i
  {
    if i > 0 {
      var tail := entries[1..];
      assert GoodEntry(entries[0]);
      assert forall j :: 0 <= j < i - 1 ==> GoodEntry(tail[j]) by {
        forall j | 0 <= j < i - 1
          ensures GoodEntry(tail[j])
        {
          assert GoodEntry(entries[j + 1]);
        }
      }
      LoadMergesFirstBad(tail, i - 1);
      assert LoadMerges(entries) == LoadMerges(tail);
    }
  }

  /** Loading the merges fails exactly when some entry is bad, and then with the error of
      the first bad entry. */
  lemma {:induction false} LoadMergesErrors(entries: seq<seq<string>>)
    ensures LoadMerges(entries).Ok? <==> forall i :: 0 <= i < |entries| ==> GoodEntry(entries[i])
    ensures forall i :: 0 <= i < |entries| && !GoodEntry(entries[i]) && (forall j :: 0 <= j < i ==> GoodEntry(entries[j])) ==>
              LoadMerges(entries) == Err(EntryError(entries[i]))
  {
    LoadMergesOk(entries);
    forall i | 0 <= i < |entries| && !GoodEntry(entries[i]) && (forall j :: 0 <= j < i ==> GoodEntry(entries[j]))
      ensures LoadMerges(entries) == Err(EntryError(entries[i]))
    {
      LoadMergesFirstBad(entries, i);
    }
  }

  /** A successful load of the merges keeps their number and order, and each pair is the
      Latin-1 encoding of its entry's two strings. */
  lemma {:induction false} LoadMergesValues(entries: seq<seq<string>>)
    requires LoadMerges(entries).Ok?
    ensures |LoadMerges(entries).value| == |entries|
    ensures forall i :: 0 <= i < |entries| ==>
              GoodEntry(entries[i]) &&
              LoadMerges(entries).value[i] == (Latin1Encode(entries[i][0]).value, Latin1Encode(entries[i][1]).value)
    decreases |entries|
  {
    if |entries| > 0 {
      var tail := entries[1..];
      assert forall i :: 1 <= i < |entries| ==> entries[i] == tail[i - 1];
      LoadMergesValues(tail);
    }
  }

  /** Loading fails exactly when some vocabulary item or some merge entry is bad. The
      vocabulary is converted first, so its first bad item is the error whatever the
      merges hold; only when every item is good does the first bad merge entry decide. */
  lemma LoadErrors(saved: Saved)
    ensures var items := JsonDict(saved.vocabJson);
            Load(saved).Ok? <==>
              (forall i :: 0 <= i < |items| ==> GoodItem(items[i])) &&
              (forall i :: 0 <= i < |saved.mergesJson| ==> GoodEntry(saved.mergesJson[i]))
    ensures var items := JsonDict(saved.vocabJson);
            forall i :: 0 <= i < |items| && !GoodItem(items[i]) && (forall j :: 0 <= j < i ==> GoodItem(items[j])) ==>
              Load(saved) == Err(ItemError(items[i]))
    ensures var items := JsonDict(saved.vocabJson);
            var entries := saved.mergesJson;
            (forall i :: 0 <= i < |items| ==> GoodItem(items[i])) ==>
              forall i :: 0 <= i < |entries| && !GoodEntry(entries[i]) && (forall j :: 0 <= j < i ==> GoodEntry(entries[j])) ==>
                Load(saved) == Err(EntryError(entries[i]))
  {
    var items := JsonDict(saved.vocabJson);
    var entries := saved.mergesJson;
    var v := LoadVocabInto(map[], items);
    var m := LoadMerges(entries);
    LoadVocabErrors(map[], items);
    LoadMergesErrors(entries);
    assert Load(saved) == if v.Err? then Err(v.error) else if m.Err? then Err(m.error) else Ok((v.value, m.value));
    assert Load(saved).Ok? <==> v.Ok? && m.Ok?;
    forall i | 0 <= i < |items| && !GoodItem(items[i]) && (forall j :: 0 <= j < i ==> GoodItem(items[j]))
      ensures Load(saved) == Err(ItemError(items[i]))
    {
      assert v == Err(ItemError(items[i]));
    }
    if forall i :: 0 <= i < |items| ==> GoodItem(items[i]) {
      assert v.Ok?;
      forall i | 0 <= i < |entries| && !GoodEntry(entries[i]) && (forall j :: 0 <= j < i ==> GoodEntry(entries[j]))
        ensures Load(saved) == Err(EntryError(entries[i]))
      {
        assert m == Err(EntryError(entries[i]));
      }
    }
  }

  /** A key given twice holds its last value at its first position, so an overwritten
      value is never converted and a later bad value is reported before the items that
      follow the key's first position. */
  lemma LoadDuplicateKey()
    ensures Load(Saved([("1", "\U{100}"), ("1", "a")], [])) == Ok((map[1 := [97 as Byte]], []))
    ensures Load(Saved([("1", "a"), ("x", "b"), ("1", "\U{100}")], [])) == Err(NotLatin1("\U{100}"))
  {
    var d1 := [("1", "\U{100}"), ("1", "a")];
    assert d1[..1] == [("1", "\U{100}")];
    assert JsonDict(d1[..1]) == [("1", "\U{100}")];
    assert JsonDict(d1) == [("1", "a")];
    assert ParseDecimal("1") == Some(1);
    assert "a"[1..] == "";
    assert Latin1Encode("") == Some([]);
    assert CharByte('a') == 97 as Byte;
    assert [CharByte('a')] + [] == [97 as Byte];
    assert Latin1Encode("a") == Some([97 as Byte]);
    var d2 := [("1", "a"), ("x", "b"), ("1", "\U{100}")];
    assert d2[..2][..1] == [("1", "a")];
    assert d2[..2][..1][..0] == [];
    assert JsonDict(d2[..2][..1]) == [("1", "a")];
    assert [("1", "a")][1..] == [];
    assert Put([("1", "a")], "x", "b") == [("1", "a"), ("x", "b")];
    assert JsonDict(d2[..2]) == [("1", "a"), ("x", "b")];
    assert JsonDict(d2) == [("1", "\U{100}"), ("x", "b")];
    assert Latin1Encode("\U{100}") == None;
  }

  lemma {:induction false} LoadSavedItems(acc: Vocab, vocab: Vocab, ids: seq<int>)
    requires forall k :: k in ids ==> k in vocab
    ensures LoadVocabInto(acc, SaveItems(vocab, ids)).Ok?
    ensures var r := LoadVocabInto(acc, SaveItems(vocab, ids)).value;
            (forall k :: k in r <==> k in acc || k in ids) &&
            (forall k :: k in ids ==> r[k] == vocab[k]) &&
            (forall k :: k in acc && k !in ids ==> r[k] == acc[k])
    decreases |ids|
  {
    if |ids| > 0 {
      var k0 := ids[0];
      DecimalRoundTrip(k0);
      Latin1RoundTrip(vocab[k0], "");
      assert SaveItems(vocab, ids)[1..] == SaveItems(vocab, ids[1..]);
      assert forall k :: k in ids[1..] ==> k in ids;
      LoadSavedItems(acc[k0 := vocab[k0]], vocab, ids[1..]);
      assert forall k :: k in ids <==> k == k0 || k in ids[1..];
    }
  }

  lemma {:induction false} LoadSavedMerges(merges: seq<Pair>)
    ensures LoadMerges(SaveMerges(merges)) == Ok(merges)
  {
    if |merges| > 0 {
      Latin1RoundTrip(merges[0].0, "");
      Latin1RoundTrip(merges[0].1, "");
      LoadSavedMerges(merges[1..]);
      assert SaveMerges(merges)[1..] == SaveMerges(merges[1..]);
      assert [merges[0]] + merges[1..] == merges;
    }
  }

  /** The saved vocabulary object loads back to the vocabulary. */
  lemma LoadSavedVocab(vocab: Vocab)
    ensures LoadVocabInto(map[], SaveVocab(vocab)) == Ok(vocab)
  {
    var ids := SortedIds(vocab.Keys);
    LoadSavedItems(map[], vocab, ids);
    var r := LoadVocabInto(map[], SaveItems(vocab, ids)).value;
    forall k
      ensures k in r <==> k in vocab
    {
      assert k in ids <==> k in vocab.Keys;
    }
    assert r.Keys == vocab.Keys;
    forall k | k in r
      ensures r[k] == vocab[k]
    {
      assert k in ids;
    }
    assert r == vocab;
  }

  /** `load(save(vocab, merges)) == (vocab, merges)` for any byte content, invalid UTF-8
      included, and any ids: merge order and length are kept. */
  lemma SaveLoadRoundTrip(vocab: Vocab, merges: seq<Pair>)
    ensures Load(Save(vocab, merges)) == Ok((vocab, merges))
  {
    SaveVocabKeys(vocab);
    JsonDictOfDistinct(SaveVocab(vocab));
    LoadSavedVocab(vocab);
    LoadSavedMerges(merges);
  }
}
