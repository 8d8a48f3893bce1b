/** The pretokenizer: splits text on literal special-token occurrences, then scans every
    other segment with the six-branch GPT-2 pattern, yielding UTF-8 byte strings. */
module Pretokenizer {
  import opened Common

  /** The character facts the scanner depends on, left abstract: membership in the Unicode
      classes `\p{L}`, `\p{N}` and `\s`, and the UTF-8 encoding of one code point. */
  datatype CharModel = CharModel(
    isLetter: char -> bool,
    isNumber: char -> bool,
    isSpace: char -> bool,
    utf8: char -> Bytes)
  {
    /** What Unicode guarantees and the proofs use: the three classes are pairwise
        disjoint, U+0020 is whitespace, and every code point encodes to at least one byte. */
    predicate Valid()
    {
      && (forall c :: !(isLetter(c) && isNumber(c)))
      && (forall c :: !(isLetter(c) && isSpace(c)))
      && (forall c :: !(isNumber(c) && isSpace(c)))
      && isSpace(' ')
      && (forall c :: |utf8(c)| > 0)
    }

    /** `[^\s\p{L}\p{N}]` */
    predicate IsOther(c: char)
    {
      !isSpace(c) && !isLetter(c) && !isNumber(c)
    }
  }

  /** `str.encode("utf-8")`: the per-code-point encodings, concatenated. */
  function Utf8(cm: CharModel, s: string): Bytes
  {
    if |s| == 0 then [] else cm.utf8(s[0]) + Utf8(cm, s[1..])
  }

  lemma {:induction false} Utf8Append(cm: CharModel, a: string, b: string)
    ensures Utf8(cm, a + b) == Utf8(cm, a) + Utf8(cm, b)
  {
    if |a| > 0 {
      assert (a + b)[0] == a[0];
      assert (a + b)[1..] == a[1..] + b;
      Utf8Append(cm, a[1..], b);
    } else {
      assert a + b == b;
    }
  }

  lemma {:induction false} Utf8NonEmpty(cm: CharModel, s: string)
    requires cm.Valid()
    requires |s| > 0
    ensures |Utf8(cm, s)| > 0
  {
    assert |cm.utf8(s[0])| > 0;
  }

  /** Each part encoded separately, in order. */
  function Utf8Each(cm: CharModel, parts: seq<string>): (r: seq<Bytes>)
    ensures |r| == |parts|
  {
    if |parts| == 0 then [] else [Utf8(cm, parts[0])] + Utf8Each(cm, parts[1..])
  }

  /** Encoding is a monoid homomorphism: encoding the parts and joining the bytes equals
      joining the parts and encoding the text. */
  lemma {:induction false} Utf8Concat(cm: CharModel, parts: seq<string>)
    ensures Concat(Utf8Each(cm, parts)) == Utf8(cm, Concat(parts))
  {
    if |parts| > 0 {
      Utf8Concat(cm, parts[1..]);
      Utf8Append(cm, parts[0], Concat(parts[1..]));
    }
  }

  // ---------------------------------------------------------------------------------
  // Splitting on special tokens
  // ---------------------------------------------------------------------------------

  /** One text segment, flagged when it is a special token. */
  datatype Segment = Segment(text: string, special: bool)

  /** `t` occurs literally in `s` starting at index `i`. */
  predicate OccursAt(t: string, s: string, i: nat)
  {
    i + |t| <= |s| && s[i..i + |t|] == t
  }

  predicate NonEmptyTokens(specials: seq<string>)
  {
    forall k :: 0 <= k < |specials| ==> |specials[k]| > 0
  }

  /** No special token occurs anywhere inside `s`. */
  predicate Clean(specials: seq<string>, s: string)
  {
    forall j, q :: 0 <= j < |specials| && 0 <= q <= |s| ==> !OccursAt(specials[j], s, q)
  }

  /** The alternation `tok_k | tok_k+1 | ...` tried at index `i`: the first listed token
      found there. */
  function FirstTokenAt(specials: seq<string>, s: string, i: nat, k: nat): (r: Option<nat>)
    requires k <= |specials|
    ensures r.Some? ==> k <= r.value < |specials| && OccursAt(specials[r.value], s, i)
    ensures r.Some? ==> forall j :: k <= j < r.value ==> !OccursAt(specials[j], s, i)
    ensures r.None? ==> forall j :: k <= j < |specials| ==> !OccursAt(specials[j], s, i)
    decreases |specials| - k
  {
    if k == |specials| then None
    else if OccursAt(specials[k], s, i) then Some(k)
    else FirstTokenAt(specials, s, i, k + 1)
  }

  /** A match of the special-token pattern: where, and which listed token. */
  datatype Hit = Hit(pos: nat, index: nat)

  /** The leftmost match at or after `i`; at one position the earlier-listed token wins. */
  function LeftmostHit(specials: seq<string>, s: string, i: nat): (r: Option<Hit>)
    requires i <= |s|
    ensures r.Some? ==> i <= r.value.pos < |s| && r.value.index < |specials|
    ensures r.Some? ==> OccursAt(specials[r.value.index], s, r.value.pos)
    ensures r.Some? ==> forall j :: 0 <= j < r.value.index ==> !OccursAt(specials[j], s, r.value.pos)
    ensures r.Some? ==> forall j, q :: 0 <= j < |specials| && i <= q < r.value.pos ==> !OccursAt(specials[j], s, q)
    ensures r.None? ==> forall j, q :: 0 <= j < |specials| && i <= q < |s| ==> !OccursAt(specials[j], s, q)
    decreases |s| - i
  {
    if i == |s| then None
    else match FirstTokenAt(specials, s, i, 0)
      case Some(k) => Some(Hit(i, k))
      case None => LeftmostHit(specials, s, i + 1)
  }

  /** `regex.split("(tok_1|...|tok_n)", s)`: text, token, text, token, ..., text. */
  function RawSplit(specials: seq<string>, s: string): seq<string>
    requires NonEmptyTokens(specials)
    decreases |s|
  {
    match LeftmostHit(specials, s, 0)
    case None => [s]
    case Some(h) =>
      var t := specials[h.index];
      [s[..h.pos], t] + RawSplit(specials, s[h.pos + |t|..])
  }

  /** The loop over the split parts: drop empty parts, flag the ones equal to a token. */
  function Classify(specials: seq<string>, parts: seq<string>): seq<Segment>
  {
    if |parts| == 0 then []
    else
      (if parts[0] == "" then [] else [Segment(parts[0], parts[0] in specials)])
      + Classify(specials, parts[1..])
  }

  /** `_split_on_special_tokens` */
  function SplitOnSpecials(specials: seq<string>, text: string): (segs: seq<Segment>)
    requires NonEmptyTokens(specials)
    ensures |specials| == 0 ==> segs == [Segment(text, false)]
  {
    if |specials| == 0 then [Segment(text, false)]
    else Classify(specials, RawSplit(specials, text))
  }

  function Texts(segs: seq<Segment>): (r: seq<string>)
    ensures |r| == |segs|
    ensures forall k :: 0 <= k < |segs| ==> r[k] == segs[k].text
  {
    if |segs| == 0 then [] else [segs[0].text] + Texts(segs[1..])
  }

  /** The text before the leftmost hit contains no token. */
  lemma PrefixBeforeHitClean(specials: seq<string>, s: string, pos: nat)
    requires NonEmptyTokens(specials)
    requires pos <= |s|
    requires forall j, q :: 0 <= j < |specials| && 0 <= q < pos ==> !OccursAt(specials[j], s, q)
    ensures Clean(specials, s[..pos])
  {
    var pre := s[..pos];
    forall j, q | 0 <= j < |specials| && 0 <= q <= |pre|
      ensures !OccursAt(specials[j], pre, q)
    {
      if OccursAt(specials[j], pre, q) {
        assert pre[q..q + |specials[j]|] == s[q..q + |specials[j]|];
        assert OccursAt(specials[j], s, q);
      }
    }
  }

  lemma {:induction false} RawSplitSpec(specials: seq<string>, s: string)
    requires NonEmptyTokens(specials)
    ensures Concat(RawSplit(specials, s)) == s
    ensures forall p :: p in RawSplit(specials, s) ==> p in specials || Clean(specials, p)
    decreases |s|
  {
    match LeftmostHit(specials, s, 0)
    case None =>
      ConcatSingle(s);
      PrefixBeforeHitClean(specials, s, |s|);
      assert s[..|s|] == s;
    case Some(h) =>
      var t := specials[h.index];
      var pre := s[..h.pos];
      var rest := s[h.pos + |t|..];
      RawSplitSpec(specials, rest);
      var tail := RawSplit(specials, rest);
      assert RawSplit(specials, s) == [pre, t] + tail;
      ConcatAppend([pre, t], tail);
      assert Concat([pre, t]) == pre + t by {
        assert [pre, t][1..] == [t];
        ConcatSingle(t);
      }
      assert s == pre + t + rest by {
        assert s[h.pos..h.pos + |t|] == t;
        assert s == s[..h.pos] + s[h.pos..h.pos + |t|] + s[h.pos + |t|..];
      }
      PrefixBeforeHitClean(specials, s, h.pos);
  }

  /** A segment as the split emits it: non-empty, flagged special exactly when it is a
      configured token, and free of tokens when not flagged. */
  ghost predicate ProperSegment(specials: seq<string>, g: Segment)
  {
    && g.text != ""
    && (g.special <==> g.text in specials)
    && (!g.special ==> Clean(specials, g.text))
  }

  lemma {:induction false} ClassifyConcat(specials: seq<string>, parts: seq<string>)
    ensures Concat(Texts(Classify(specials, parts))) == Concat(parts)
  {
    if |parts| > 0 {
      ClassifyConcat(specials, parts[1..]);
      var head := if parts[0] == "" then [] else [Segment(parts[0], parts[0] in specials)];
      var tail := Classify(specials, parts[1..]);
      assert Classify(specials, parts) == head + tail;
      assert Texts(head + tail) == Texts(head) + Texts(tail);
      ConcatAppend(Texts(head), Texts(tail));
      if parts[0] == "" {
        assert Texts(head) == [];
      } else {
        assert Texts(head) == [parts[0]];
        ConcatSingle(parts[0]);
      }
    }
  }

  lemma {:induction false} ClassifySegments(specials: seq<string>, parts: seq<string>)
    requires forall p :: p in parts ==> p in specials || Clean(specials, p)
    ensures forall g :: g in Classify(specials, parts) ==> ProperSegment(specials, g)
  {
    if |parts| > 0 {
      assert forall p :: p in parts[1..] ==> p in parts;
      ClassifySegments(specials, parts[1..]);
      var head := if parts[0] == "" then [] else [Segment(parts[0], parts[0] in specials)];
      assert Classify(specials, parts) == head + Classify(specials, parts[1..]);
      assert parts[0] in parts;
    }
  }

  lemma ClassifySpec(specials: seq<string>, parts: seq<string>)
    requires forall p :: p in parts ==> p in specials || Clean(specials, p)
    ensures Concat(Texts(Classify(specials, parts))) == Concat(parts)
    ensures forall g :: g in Classify(specials, parts) ==> g.text != ""
    ensures forall g :: g in Classify(specials, parts) ==> (g.special <==> g.text in specials)
    ensures forall g :: g in Classify(specials, parts) && !g.special ==> Clean(specials, g.text)
  {
    ClassifyConcat(specials, parts);
    ClassifySegments(specials, parts);
  }

  /** What the split promises: the segments rebuild the text, nothing but empty parts is
      dropped, and a segment is flagged special exactly when it is a configured token,
      while an unflagged segment contains no token at all. */
  lemma SplitOnSpecialsSpec(specials: seq<string>, text: string)
    requires NonEmptyTokens(specials)
    ensures Concat(Texts(SplitOnSpecials(specials, text))) == text
    ensures |specials| > 0 ==> forall g :: g in SplitOnSpecials(specials, text) ==> g.text != ""
    ensures forall g :: g in SplitOnSpecials(specials, text) ==> (g.special <==> g.text in specials)
    ensures forall g :: g in SplitOnSpecials(specials, text) && !g.special ==> Clean(specials, g.text)
  {
    if |specials| == 0 {
      assert Texts([Segment(text, false)]) == [text];
      ConcatSingle(text);
    } else {
      RawSplitSpec(specials, text);
      ClassifySpec(specials, RawSplit(specials, text));
    }
  }

  /** The decomposition the split produces, read off `s` from the left: each segment is
      non-empty and spells the next part of `s`; a special segment is the earliest-listed
      token occurring where it starts; a plain segment has no token starting anywhere
      inside it, and is followed by a special segment or by the end of the text. */
  ghost predicate SplitOf(specials: seq<string>, s: string, segs: seq<Segment>)
    decreases |segs|
  {
    if |segs| == 0 then s == ""
    else
      var g := segs[0];
      var n := |g.text|;
      && 0 < n <= |s|
      && s[..n] == g.text
      && (g.special ==>
            FirstTokenAt(specials, s, 0, 0).Some? && g.text == specials[FirstTokenAt(specials, s, 0, 0).value])
      && (!g.special ==>
            (forall j, q :: 0 <= j < |specials| && 0 <= q < n ==> !OccursAt(specials[j], s, q))
            && (|segs| > 1 ==> segs[1].special))
      && SplitOf(specials, s[n..], segs[1..])
  }

  /** An occurrence in a suffix is an occurrence in the whole text, shifted. */
  lemma OccursInSuffix(t: string, s: string, p: nat, q: nat)
    requires p <= |s|
    ensures OccursAt(t, s[p..], q) <==> OccursAt(t, s, p + q)
  {
    if p + q + |t| <= |s| {
      assert s[p..][q..q + |t|] == s[p + q..p + q + |t|];
    }
  }

  lemma OccursAtSuffixStart(t: string, s: string, p: nat)
    requires p <= |s|
    ensures OccursAt(t, s[p..], 0) <==> OccursAt(t, s, p)
  {
    OccursInSuffix(t, s, p, 0);
  }

  /** The first listed token occurring at `p` is the one the leftmost hit names. */
  lemma FirstTokenAtHit(specials: seq<string>, s: string, p: nat, k: nat)
    requires p <= |s| && k < |specials| && OccursAt(specials[k], s, p)
    requires forall j :: 0 <= j < k ==> !OccursAt(specials[j], s, p)
    ensures FirstTokenAt(specials, s[p..], 0, 0) == Some(k)
  {
    var r := FirstTokenAt(specials, s[p..], 0, 0);
    OccursAtSuffixStart(specials[k], s, p);
    if r.None? {
      assert false;
    } else if r.value < k {
      OccursAtSuffixStart(specials[r.value], s, p);
      assert false;
    }
  }

  /** A non-empty text free of tokens is not itself a token. */
  lemma CleanNotToken(specials: seq<string>, x: string)
    requires x != "" && Clean(specials, x)
    ensures x !in specials
  {
    forall j | 0 <= j < |specials|
      ensures specials[j] != x
    {
      assert x[0..|x|] == x;
      assert !OccursAt(specials[j], x, 0);
    }
  }

  lemma ClassifyCons(specials: seq<string>, x: string, rest: seq<string>)
    ensures Classify(specials, [x] + rest)
            == (if x == "" then [] else [Segment(x, x in specials)]) + Classify(specials, rest)
  {
    assert ([x] + rest)[1..] == rest;
  }

  /** A special segment at `p`, for the leftmost hit's token, extends a decomposition of
      the text after it. */
  lemma SplitOfSpecialHead(specials: seq<string>, s: string, p: nat, k: nat, segs: seq<Segment>)
    requires p <= |s| && k < |specials| && specials[k] != "" && OccursAt(specials[k], s, p)
    requires forall j :: 0 <= j < k ==> !OccursAt(specials[j], s, p)
    requires SplitOf(specials, s[p + |specials[k]|..], segs)
    ensures SplitOf(specials, s[p..], [Segment(specials[k], true)] + segs)
  {
    var t := specials[k];
    var u := s[p..];
    assert u[..|t|] == t;
    assert u[|t|..] == s[p + |t|..];
    FirstTokenAtHit(specials, s, p, k);
    assert ([Segment(t, true)] + segs)[1..] == segs;
  }

  /** A token-free prefix followed by a special segment extends a decomposition. */
  lemma SplitOfPlainHead(specials: seq<string>, s: string, p: nat, segs: seq<Segment>)
    requires 0 < p <= |s|
    requires forall j, q :: 0 <= j < |specials| && 0 <= q < p ==> !OccursAt(specials[j], s, q)
    requires |segs| > 0 && segs[0].special && SplitOf(specials, s[p..], segs)
    ensures SplitOf(specials, s, [Segment(s[..p], false)] + segs)
  {
    var all := [Segment(s[..p], false)] + segs;
    assert all[1..] == segs;
  }

  /** The text left after the last token, when it contains no token. */
  lemma SplitOfPlainOnly(specials: seq<string>, s: string)
    requires s != ""
    requires forall j, q :: 0 <= j < |specials| && 0 <= q < |s| ==> !OccursAt(specials[j], s, q)
    ensures SplitOf(specials, s, [Segment(s, false)])
  {
    assert s[..|s|] == s;
    assert s[|s|..] == "";
    assert [Segment(s, false)][1..] == [];
  }

  /** With no hit, the whole text is one plain segment, or nothing when it is empty. */
  lemma RawSplitNoHit(specials: seq<string>, s: string)
    requires NonEmptyTokens(specials)
    requires LeftmostHit(specials, s, 0).None?
    ensures SplitOf(specials, s, Classify(specials, RawSplit(specials, s)))
  {
    assert RawSplit(specials, s) == [s];
    ClassifyCons(specials, s, []);
    if s != "" {
      PrefixBeforeHitClean(specials, s, |s|);
      assert s[..|s|] == s;
      CleanNotToken(specials, s);
      SplitOfPlainOnly(specials, s);
    }
  }

  lemma RawSplitUnfold(specials: seq<string>, s: string, h: Hit)
    requires NonEmptyTokens(specials)
    requires LeftmostHit(specials, s, 0) == Some(h)
    ensures RawSplit(specials, s)
            == [s[..h.pos], specials[h.index]] + RawSplit(specials, s[h.pos + |specials[h.index]|..])
  {
  }

  lemma ClassifyHit(specials: seq<string>, pre: string, t: string, tail: seq<string>)
    requires t != "" && t in specials
    requires pre == "" || pre !in specials
    ensures Classify(specials, [pre, t] + tail)
            == (if |pre| == 0 then [] else [Segment(pre, false)]) + ([Segment(t, true)] + Classify(specials, tail))
  {
    assert [pre, t] + tail == [pre] + ([t] + tail);
    ClassifyCons(specials, pre, [t] + tail);
    ClassifyCons(specials, t, tail);
  }

  /** The token-free text before a hit (when not empty) and the hit's token lead a
      decomposition of the text after the hit. */
  lemma SplitOfHit(specials: seq<string>, s: string, p: nat, k: nat, later: seq<Segment>)
    requires p <= |s| && k < |specials| && specials[k] != "" && OccursAt(specials[k], s, p)
    requires forall j :: 0 <= j < k ==> !OccursAt(specials[j], s, p)
    requires forall j, q :: 0 <= j < |specials| && 0 <= q < p ==> !OccursAt(specials[j], s, q)
    requires SplitOf(specials, s[p + |specials[k]|..], later)
    ensures SplitOf(specials, s, (if |s[..p]| == 0 then [] else [Segment(s[..p], false)])
                                 + ([Segment(specials[k], true)] + later))
  {
    SplitOfSpecialHead(specials, s, p, k, later);
    var after := [Segment(specials[k], true)] + later;
    if p == 0 {
      assert s[0..] == s;
      assert [] + after == after;
    } else {
      SplitOfPlainHead(specials, s, p, after);
    }
  }

  /** The hit's parts, with the rest of the text split recursively, decompose the text. */
  lemma {:induction false} SplitOfParts(specials: seq<string>, s: string, p: nat, k: nat, out: seq<Segment>)
    requires NonEmptyTokens(specials)
    requires p <= |s| && k < |specials| && OccursAt(specials[k], s, p)
    requires forall j :: 0 <= j < k ==> !OccursAt(specials[j], s, p)
    requires forall j, q :: 0 <= j < |specials| && 0 <= q < p ==> !OccursAt(specials[j], s, q)
    requires out == (if |s[..p]| == 0 then [] else [Segment(s[..p], false)])
                    + ([Segment(specials[k], true)]
                       + Classify(specials, RawSplit(specials, s[p + |specials[k]|..])))
    ensures SplitOf(specials, s, out)
    decreases |s|, 0
  {
    var rest := s[p + |specials[k]|..];
    RawSplitExact(specials, rest);
    SplitOfHit(specials, s, p, k, Classify(specials, RawSplit(specials, rest)));
  }

  /** With a hit, the split's segments are the text before it (when not empty), the hit's
      token, and the segments of the text after it. */
  lemma RawSplitHit(specials: seq<string>, s: string, h: Hit)
    requires NonEmptyTokens(specials)
    requires LeftmostHit(specials, s, 0) == Some(h)
    ensures Classify(specials, RawSplit(specials, s))
            == (if |s[..h.pos]| == 0 then [] else [Segment(s[..h.pos], false)])
               + ([Segment(specials[h.index], true)]
                  + Classify(specials, RawSplit(specials, s[h.pos + |specials[h.index]|..])))
  {
    var t := specials[h.index];
    var pre := s[..h.pos];
    var tail := RawSplit(specials, s[h.pos + |t|..]);
    RawSplitUnfold(specials, s, h);
    if pre != "" {
      PrefixBeforeHitClean(specials, s, h.pos);
      CleanNotToken(specials, pre);
    }
    ClassifyHit(specials, pre, t, tail);
  }

  /** The split's output is such a decomposition. */
  lemma {:induction false} RawSplitExact(specials: seq<string>, s: string)
    requires NonEmptyTokens(specials)
    ensures SplitOf(specials, s, Classify(specials, RawSplit(specials, s)))
    decreases |s|, 1
  {
    match LeftmostHit(specials, s, 0)
    case None =>
      RawSplitNoHit(specials, s);
    case Some(h) =>
      RawSplitHit(specials, s, h);
      SplitOfParts(specials, s, h.pos, h.index, Classify(specials, RawSplit(specials, s)));
  }

  /** A text has at most one such decomposition. */
  lemma {:induction false} SplitOfUnique(specials: seq<string>, s: string, a: seq<Segment>, b: seq<Segment>)
    requires SplitOf(specials, s, a) && SplitOf(specials, s, b)
    ensures a == b
    decreases |a|
  {
    if |a| == 0 || |b| == 0 {
      if |a| > 0 || |b| > 0 {
        assert false;
      }
    } else {
      if a[0].special != b[0].special {
        assert false;
      }
      if !a[0].special {
        PlainNoShorter(specials, s, a, b);
        PlainNoShorter(specials, s, b, a);
      }
      var n := |a[0].text|;
      assert a[0] == b[0];
      SplitOfUnique(specials, s[n..], a[1..], b[1..]);
      assert a == [a[0]] + a[1..] && b == [b[0]] + b[1..];
    }
  }

  /** A plain first segment is never shorter than another decomposition's plain first
      segment: it ends at the text's end or where a token starts, and the longer one would
      contain either. */
  lemma PlainNoShorter(specials: seq<string>, s: string, a: seq<Segment>, b: seq<Segment>)
    requires SplitOf(specials, s, a) && SplitOf(specials, s, b)
    requires |a| > 0 && |b| > 0 && !a[0].special && !b[0].special
    ensures |a[0].text| >= |b[0].text|
  {
    var na := |a[0].text|;
    if na < |b[0].text| {
      if |a| == 1 {
        assert false;
      } else {
        var rest := s[na..];
        var k := FirstTokenAt(specials, rest, 0, 0).value;
        OccursInSuffix(specials[k], s, na, 0);
        assert false;
      }
    }
  }

  /** The split is the one decomposition of the text into leftmost, earliest-listed token
      hits and the token-free text between them. */
  lemma SplitOnSpecialsExact(specials: seq<string>, text: string)
    requires NonEmptyTokens(specials)
    requires |specials| > 0
    ensures SplitOf(specials, text, SplitOnSpecials(specials, text))
    ensures forall segs :: SplitOf(specials, text, segs) ==> segs == SplitOnSpecials(specials, text)
  {
    RawSplitExact(specials, text);
    forall segs | SplitOf(specials, text, segs)
      ensures segs == SplitOnSpecials(specials, text)
    {
      SplitOfUnique(specials, text, segs, SplitOnSpecials(specials, text));
    }
  }
  /** A token that is a prefix of a later-listed token wins where both occur: with
      `["a", "ab"]`, the text `"ab"` splits into the token `"a"` and the plain text `"b"`,
      and not into the token `"ab"`. */
  lemma SplitOnSpecialsPrefixToken()
    ensures SplitOnSpecials(["a", "ab"], "ab") == [Segment("a", true), Segment("b", false)]
  {
    PrefixTokenSplitOf();
    SplitOnSpecialsExact(["a", "ab"], "ab");
  }

  lemma PrefixTokenSplitOf()
    ensures SplitOf(["a", "ab"], "ab", [Segment("a", true), Segment("b", false)])
  {
    var specials := ["a", "ab"];
    var segs := [Segment("a", true), Segment("b", false)];
    assert OccursAt(specials[0], "ab", 0) by {
      assert "ab"[0..1] == "a";
    }
    assert FirstTokenAt(specials, "ab", 0, 0) == Some(0);
    assert "ab"[1..] == "b" && "ab"[..1] == "a";
    assert !OccursAt(specials[0], "b", 0) by {
      assert "b"[0..1][0] != "a"[0];
    }
    assert !OccursAt(specials[1], "b", 0);
    assert segs[1..] == [Segment("b", false)];
    SplitOfPlainOnly(specials, "b");
  }



  // ---------------------------------------------------------------------------------
  // The six-branch pattern
  //   '(?:[sdmt]|ll|ve|re) | ?\p{L}+ | ?\p{N}+ | ?[^\s\p{L}\p{N}]+ | \s+(?!\S) | \s+
  // Every branch returns the length of its longest match at index i, if any.
  // ---------------------------------------------------------------------------------

  /** The longest run of characters satisfying `p` that starts at `i`. */
  function RunLength(s: string, i: nat, p: char -> bool): (n: nat)
    requires i <= |s|
    ensures i + n <= |s|
    ensures forall k :: i <= k < i + n ==> p(s[k])
    ensures i + n == |s| || !p(s[i + n])
    decreases |s| - i
  {
    if i < |s| && p(s[i]) then 1 + RunLength(s, i + 1, p) else 0
  }

  /** The seven contraction suffixes of the first branch. */
  const Contractions: seq<string> := ["'s", "'d", "'m", "'t", "'ll", "'ve", "'re"]

  /** `'(?:[sdmt]|ll|ve|re)` */
  function Contraction(s: string, i: nat): (r: Option<nat>)
    requires i < |s|
    ensures r.Some? ==> i + r.value <= |s|
  {
    if s[i] != '\'' then None
    else if i + 1 < |s| && s[i + 1] in "sdmt" then Some(2)
    else if i + 2 < |s| && s[i + 1..i + 3] in ["ll", "ve", "re"] then Some(3)
    else None
  }

  /** The first branch matches exactly the contraction written at `i`, and nothing when
      no contraction is written there. */
  lemma ContractionSpec(s: string, i: nat)
    requires i < |s|
    ensures Contraction(s, i).Some? ==>
              s[i..i + Contraction(s, i).value] in Contractions
    ensures Contraction(s, i).None? ==>
              forall c :: c in Contractions && i + |c| <= |s| ==> s[i..i + |c|] != c
  {
    if s[i] != '\'' {
      forall c | c in Contractions && i + |c| <= |s|
        ensures s[i..i + |c|] != c
      {
        assert c[0] == '\'';
        assert s[i..i + |c|][0] == s[i];
      }
    } else if i + 1 < |s| && s[i + 1] in "sdmt" {
      var t := s[i..i + 2];
      assert t == [s[i], s[i + 1]];
    } else if i + 2 < |s| && s[i + 1..i + 3] in ["ll", "ve", "re"] {
      var t := s[i..i + 3];
      assert t == [s[i], s[i + 1], s[i + 2]];
      assert s[i + 1..i + 3] == [s[i + 1], s[i + 2]];
    } else {
      forall c | c in Contractions && i + |c| <= |s|
        ensures s[i..i + |c|] != c
      {
        if |c| == 2 {
          assert c[1] in "sdmt";
          assert s[i..i + 2][1] == s[i + 1];
        } else {
          assert c[1..] in ["ll", "ve", "re"];
          assert s[i..i + 3][1..] == s[i + 1..i + 3];
        }
      }
    }
  }

  /** ` ?X+` for a character class `X`: the optional space is taken when a run of `X`
      follows it; otherwise the run must start at `i` itself. */
  function OptionalSpaceRun(s: string, i: nat, p: char -> bool): (r: Option<nat>)
    requires i < |s|
    ensures r.Some? <==> p(s[i]) || (s[i] == ' ' && i + 1 < |s| && p(s[i + 1]))
    ensures r.Some? ==> 1 <= r.value && i + r.value <= |s|
    ensures r.Some? ==> (s[i] == ' ' || p(s[i])) && (forall k :: i < k < i + r.value ==> p(s[k]))
    ensures r.Some? ==> i + r.value == |s| || !p(s[i + r.value])
  {
    if s[i] == ' ' && i + 1 < |s| && p(s[i + 1]) then Some(1 + RunLength(s, i + 1, p))
    else if p(s[i]) then Some(RunLength(s, i, p))
    else None
  }

  /** `m` characters of whitespace at `i` after which `(?!\S)` holds: the text ends or
      another whitespace character follows. */
  predicate SpacesThenLookahead(cm: CharModel, s: string, i: nat, m: nat)
  {
    && 1 <= m && i + m <= |s|
    && (forall k :: i <= k < i + m ==> cm.isSpace(s[k]))
    && (i + m == |s| || cm.isSpace(s[i + m]))
  }

  /** `\s+(?!\S)`: a whitespace run of length n reaching the end of the text is taken
      whole; one followed by a non-space gives back its last character (n - 1), and fails
      when n = 1. The contract is the backtracking semantics: the longest length after
      which the lookahead holds, and no match when there is none. */
  function TrailingSpace(cm: CharModel, s: string, i: nat): (r: Option<nat>)
    requires i < |s|
    ensures r.Some? ==> SpacesThenLookahead(cm, s, i, r.value)
    ensures forall m: nat :: SpacesThenLookahead(cm, s, i, m) ==> r.Some? && m <= r.value
  {
    var n := RunLength(s, i, cm.isSpace);
    assert forall m: nat :: SpacesThenLookahead(cm, s, i, m) ==> m <= n && (m == n ==> i + n == |s|);
    if n == 0 then None
    else if i + n == |s| then Some(n)
    else if n >= 2 then Some(n - 1)
    else None
  }

  /** `\s+` */
  function SpaceRun(cm: CharModel, s: string, i: nat): (r: Option<nat>)
    requires i < |s|
    ensures r.Some? <==> cm.isSpace(s[i])
    ensures r.Some? ==> 1 <= r.value && i + r.value <= |s|
    ensures r.Some? ==> (forall k :: i <= k < i + r.value ==> cm.isSpace(s[k]))
                        && (i + r.value == |s| || !cm.isSpace(s[i + r.value]))
  {
    var n := RunLength(s, i, cm.isSpace);
    if n == 0 then None else Some(n)
  }

  /** The pattern at index `i`: the first branch, in order, that matches. */
  function MatchAt(cm: CharModel, s: string, i: nat): (r: Option<nat>)
    requires i < |s|
    ensures r.Some? ==> 1 <= r.value && i + r.value <= |s|
  {
    var c := Contraction(s, i);
    if c.Some? then c else
    var letters := OptionalSpaceRun(s, i, cm.isLetter);
    if letters.Some? then letters else
    var numbers := OptionalSpaceRun(s, i, cm.isNumber);
    if numbers.Some? then numbers else
    var others := OptionalSpaceRun(s, i, c => cm.IsOther(c));
    if others.Some? then others else
    var trailing := TrailingSpace(cm, s, i);
    if trailing.Some? then trailing else
    SpaceRun(cm, s, i)
  }

  /** `re.finditer(PAT, s)` from index `i`: the matches in order; where nothing matches,
      the search moves on by one character. */
  function FindAll(cm: CharModel, s: string, i: nat): seq<string>
    requires i <= |s|
    decreases |s| - i
  {
    if i == |s| then []
    else match MatchAt(cm, s, i)
      case Some(n) => [s[i..i + n]] + FindAll(cm, s, i + n)
      case None => FindAll(cm, s, i + 1)
  }

  /** The six branches cover every character: some branch matches at every index, so
      the search never skips a character. */
  lemma MatchAtTotal(cm: CharModel, s: string, i: nat)
    requires i < |s|
    ensures MatchAt(cm, s, i).Some?
  {
    var c := s[i];
    if cm.isSpace(c) {
      assert SpaceRun(cm, s, i).Some?;
    } else if cm.isLetter(c) {
      assert OptionalSpaceRun(s, i, cm.isLetter).Some?;
    } else if cm.isNumber(c) {
      assert OptionalSpaceRun(s, i, cm.isNumber).Some?;
    } else {
      assert OptionalSpaceRun(s, i, c => cm.IsOther(c)).Some?;
    }
  }

  /** The matches tile the text: they are non-empty and their concatenation is the
      scanned suffix. */
  lemma {:induction false} FindAllCovers(cm: CharModel, s: string, i: nat)
    requires i <= |s|
    ensures Concat(FindAll(cm, s, i)) == s[i..]
    ensures forall m :: m in FindAll(cm, s, i) ==> m != ""
    decreases |s| - i
  {
    if i < |s| {
      MatchAtTotal(cm, s, i);
      var n := MatchAt(cm, s, i).value;
      FindAllCovers(cm, s, i + n);
      assert FindAll(cm, s, i) == [s[i..i + n]] + FindAll(cm, s, i + n);
      assert s[i..] == s[i..i + n] + s[i + n..];
    }
  }

  // ---------------------------------------------------------------------------------
  // Pretokens
  // ---------------------------------------------------------------------------------

  /** `if s: yield s.encode("utf-8")` over the matches. */
  function EncodeMatches(cm: CharModel, ms: seq<string>): seq<Bytes>
  {
    if |ms| == 0 then []
    else (if ms[0] == "" then [] else [Utf8(cm, ms[0])]) + EncodeMatches(cm, ms[1..])
  }

  /** The pretokens of one segment: a special segment verbatim, any other one scanned. */
  function SegmentPretokens(cm: CharModel, seg: Segment): seq<Bytes>
  {
    if seg.special then [Utf8(cm, seg.text)]
    else EncodeMatches(cm, FindAll(cm, seg.text, 0))
  }

  function PretokensOf(cm: CharModel, segs: seq<Segment>): seq<Bytes>
  {
    if |segs| == 0 then [] else SegmentPretokens(cm, segs[0]) + PretokensOf(cm, segs[1..])
  }

  /** `iter_pretokens(text, special_tokens)`, collected. */
  function Pretokens(cm: CharModel, specials: seq<string>, text: string): seq<Bytes>
    requires NonEmptyTokens(specials)
  {
    PretokensOf(cm, SplitOnSpecials(specials, text))
  }

  lemma {:induction false} EncodeMatchesSpec(cm: CharModel, ms: seq<string>)
    requires forall m :: m in ms ==> m != ""
    ensures EncodeMatches(cm, ms) == Utf8Each(cm, ms)
  {
    if |ms| > 0 {
      assert ms[0] in ms;
      assert forall m :: m in ms[1..] ==> m in ms;
      EncodeMatchesSpec(cm, ms[1..]);
    }
  }

  lemma ScannedSegmentSpec(cm: CharModel, text: string)
    ensures Concat(EncodeMatches(cm, FindAll(cm, text, 0))) == Utf8(cm, text)
    ensures cm.Valid() ==> forall p :: p in EncodeMatches(cm, FindAll(cm, text, 0)) ==> |p| > 0
  {
    var ms := FindAll(cm, text, 0);
    FindAllCovers(cm, text, 0);
    EncodeMatchesSpec(cm, ms);
    Utf8Concat(cm, ms);
    assert text[0..] == text;
    if cm.Valid() {
      forall p | p in Utf8Each(cm, ms)
        ensures |p| > 0
      {
        var k :| 0 <= k < |ms| && Utf8Each(cm, ms)[k] == p;
        Utf8EachAt(cm, ms, k);
        assert ms[k] in ms;
        Utf8NonEmpty(cm, ms[k]);
      }
    }
  }

  /** A segment's pretokens rebuild the segment's bytes; a special segment is a single
      pretoken, its token's bytes, never re-scanned; and no pretoken is empty. */
  lemma SegmentPretokensSpec(cm: CharModel, seg: Segment)
    ensures Concat(SegmentPretokens(cm, seg)) == Utf8(cm, seg.text)
    ensures seg.special ==> SegmentPretokens(cm, seg) == [Utf8(cm, seg.text)]
    ensures cm.Valid() && (seg.special ==> seg.text != "") ==>
              forall p :: p in SegmentPretokens(cm, seg) ==> |p| > 0
  {
    if seg.special {
      ConcatSingle(Utf8(cm, seg.text));
      if cm.Valid() && seg.text != "" {
        Utf8NonEmpty(cm, seg.text);
      }
    } else {
      ScannedSegmentSpec(cm, seg.text);
    }
  }

  lemma {:induction false} Utf8EachAt(cm: CharModel, parts: seq<string>, k: nat)
    requires k < |parts|
    ensures Utf8Each(cm, parts)[k] == Utf8(cm, parts[k])
  {
    if k > 0 {
      Utf8EachAt(cm, parts[1..], k - 1);
    }
  }

  /** The per-segment pretoken lists, in segment order. */
  function PerSegment(cm: CharModel, segs: seq<Segment>): (r: seq<seq<Bytes>>)
    ensures |r| == |segs|
  {
    if |segs| == 0 then [] else [SegmentPretokens(cm, segs[0])] + PerSegment(cm, segs[1..])
  }

  /** Scanning is per segment: the pretoken stream is the segments' pretoken lists laid
      end to end, and list `k` spells exactly segment `k`, so no pretoken straddles a
      segment boundary. */
  lemma {:induction false} PretokensBySegment(cm: CharModel, segs: seq<Segment>)
    ensures PretokensOf(cm, segs) == Concat(PerSegment(cm, segs))
    ensures forall k :: 0 <= k < |segs| ==>
              Concat(PerSegment(cm, segs)[k]) == Utf8(cm, segs[k].text)
  {
    if |segs| > 0 {
      PretokensBySegment(cm, segs[1..]);
      SegmentPretokensSpec(cm, segs[0]);
      forall k | 0 <= k < |segs|
        ensures Concat(PerSegment(cm, segs)[k]) == Utf8(cm, segs[k].text)
      {
        if k > 0 {
          assert PerSegment(cm, segs)[k] == PerSegment(cm, segs[1..])[k - 1];
        }
      }
    }
  }

  lemma {:induction false} PretokensOfSpec(cm: CharModel, segs: seq<Segment>)
    ensures Concat(PretokensOf(cm, segs)) == Utf8(cm, Concat(Texts(segs)))
    ensures cm.Valid() && (forall g :: g in segs ==> g.special ==> g.text != "") ==>
              forall p :: p in PretokensOf(cm, segs) ==> |p| > 0
  {
    if |segs| > 0 {
      PretokensOfSpec(cm, segs[1..]);
      SegmentPretokensSpec(cm, segs[0]);
      ConcatAppend(SegmentPretokens(cm, segs[0]), PretokensOf(cm, segs[1..]));
      Utf8Append(cm, segs[0].text, Concat(Texts(segs[1..])));
      assert Texts(segs)[1..] == Texts(segs[1..]);
    }
  }

  /** The whole stream: its pretokens are never empty and their bytes, joined, are the
      UTF-8 encoding of the text. */
  lemma PretokensSpec(cm: CharModel, specials: seq<string>, text: string)
    requires NonEmptyTokens(specials)
    ensures Concat(Pretokens(cm, specials, text)) == Utf8(cm, text)
    ensures cm.Valid() ==> forall p :: p in Pretokens(cm, specials, text) ==> |p| > 0
  {
    var segs := SplitOnSpecials(specials, text);
    SplitOnSpecialsSpec(specials, text);
    PretokensOfSpec(cm, segs);
  }
}
