/** The two text helpers of backend/services/pdfService.js that work on text
    alone: `extractKeyPoints`, which picks the first long sentences of a
    summary, and `extractTopics`, which picks the most frequent words of a
    text. */
module PdfText {
  import opened JsString
  import opened Sorting

  // ---- String.prototype.split on a run of whitespace ----

  predicate IsStopMark(c: char) {
    c == '.' || c == '!' || c == '?'
  }

  /** Whether the separator matches from position `q` of `s`: `\s+` matches
      wherever a whitespace character is; `(?<=[.!?])\s+` (`afterStop`) only
      where that character follows a `.`, `!` or `?`. */
  predicate IsBreak(s: string, q: nat, afterStop: bool) {
    q < |s| && IsSpace(s[q]) && (afterStop ==> 0 < q && IsStopMark(s[q - 1]))
  }

  predicate NoBreak(s: string, afterStop: bool) {
    forall k :: 0 <= k < |s| ==> !IsBreak(s, k, afterStop)
  }

  /** The first position at or after `q` where the separator matches, or `|s|`. */
  function FirstBreak(s: string, afterStop: bool, q: nat): (r: nat)
    requires q <= |s|
    ensures q <= r <= |s|
    ensures r < |s| ==> IsBreak(s, r, afterStop)
    ensures forall k :: q <= k < r ==> !IsBreak(s, k, afterStop)
    decreases |s| - q
  {
    if q == |s| then |s|
    else if IsBreak(s, q, afterStop) then q
    else FirstBreak(s, afterStop, q + 1)
  }

  /** Where the whitespace run that starts at `q` ends: `\s+` is greedy. */
  function RunEnd(s: string, q: nat): (e: nat)
    requires q <= |s|
    ensures q <= e <= |s|
    ensures forall k :: q <= k < e ==> IsSpace(s[k])
    ensures e < |s| ==> !IsSpace(s[e])
    decreases |s| - q
  {
    if q < |s| && IsSpace(s[q]) then RunEnd(s, q + 1) else q
  }

  /** The pieces of `s` from position `p` on. */
  function SplitFrom(s: string, afterStop: bool, p: nat): (r: seq<string>)
    requires p <= |s|
    ensures |r| >= 1 && r[0] == s[p..FirstBreak(s, afterStop, p)]
    decreases |s| - p
  {
    var q := FirstBreak(s, afterStop, p);
    if q == |s| then [s[p..]]
    else [s[p..q]] + SplitFrom(s, afterStop, RunEnd(s, q))
  }

  /** `s.split(/\s+/)`, or `s.split(/(?<=[.!?])\s+/)` when `afterStop`: the
      pieces between the separator's matches, each match taking the whole
      whitespace run from where it starts. A run at either end leaves an
      empty piece there, and the empty string splits into one empty piece. */
  function Split(s: string, afterStop: bool): (r: seq<string>)
    ensures |r| >= 1
    ensures forall i :: 0 <= i < |r| ==> NoBreak(r[i], afterStop)
  {
    PiecesHaveNoBreak(s, afterStop, 0);
    SplitFrom(s, afterStop, 0)
  }

  /** No piece contains a place where the separator matches: no word holds
      whitespace, and no sentence holds whitespace after a stop mark. */
  lemma {:induction false} PiecesHaveNoBreak(s: string, afterStop: bool, p: nat)
    requires p <= |s|
    ensures forall i :: 0 <= i < |SplitFrom(s, afterStop, p)| ==> NoBreak(SplitFrom(s, afterStop, p)[i], afterStop)
    decreases |s| - p
  {
    var q := FirstBreak(s, afterStop, p);
    var piece := s[p..q];
    forall k | 0 <= k < |piece| ensures !IsBreak(piece, k, afterStop) {
      assert piece[k] == s[p + k];
      assert !IsBreak(s, p + k, afterStop);
      if 0 < k {
        assert piece[k - 1] == s[p + k - 1];
      }
    }
    if q < |s| {
      PiecesHaveNoBreak(s, afterStop, RunEnd(s, q));
    }
  }

  predicate NoLeadingSpace(w: string) {
    w == [] || !IsSpace(w[0])
  }

  /** Each match takes the whole whitespace run: no piece after the first
      starts with whitespace. */
  lemma {:induction false} RunsAreMaximal(s: string, afterStop: bool, p: nat)
    requires p <= |s|
    ensures forall i :: 0 < i < |SplitFrom(s, afterStop, p)| ==> NoLeadingSpace(SplitFrom(s, afterStop, p)[i])
    decreases |s| - p
  {
    var q := FirstBreak(s, afterStop, p);
    if q < |s| {
      var e := RunEnd(s, q);
      var r := SplitFrom(s, afterStop, p);
      var rest := SplitFrom(s, afterStop, e);
      RunsAreMaximal(s, afterStop, e);
      forall i | 0 < i < |r| ensures NoLeadingSpace(r[i]) {
        assert r[i] == rest[i - 1];
        if i == 1 && rest[0] != [] {
          assert rest[0][0] == s[e];
        }
      }
    }
  }

  predicate EndsInStopMark(w: string) {
    w != [] && IsStopMark(w[|w| - 1])
  }

  /** With the look-behind, every piece but the last ends in `.`, `!` or `?`. */
  lemma {:induction false} SentencesEndInStopMarks(s: string, p: nat)
    requires p <= |s| && (p == 0 || IsSpace(s[p - 1]))
    ensures forall i :: 0 <= i < |SplitFrom(s, true, p)| - 1 ==> EndsInStopMark(SplitFrom(s, true, p)[i])
    decreases |s| - p
  {
    var q := FirstBreak(s, true, p);
    if q < |s| {
      var e := RunEnd(s, q);
      var r := SplitFrom(s, true, p);
      var rest := SplitFrom(s, true, e);
      SentencesEndInStopMarks(s, e);
      assert IsStopMark(s[q - 1]);
      assert r[0][q - p - 1] == s[q - 1];
      forall i | 1 <= i < |r| - 1 ensures EndsInStopMark(r[i]) {
        assert r[i] == rest[i - 1];
      }
    }
  }

  /** Every character of a piece is a character of the input. */
  lemma {:induction false} PiecesFromInput(s: string, afterStop: bool, p: nat)
    requires p <= |s|
    ensures forall i :: 0 <= i < |SplitFrom(s, afterStop, p)| ==> CharsFrom(SplitFrom(s, afterStop, p)[i], s)
    decreases |s| - p
  {
    var q := FirstBreak(s, afterStop, p);
    var r := SplitFrom(s, afterStop, p);
    forall k | 0 <= k < |r[0]| ensures r[0][k] in s {
      assert r[0][k] == s[p + k];
    }
    if q < |s| {
      var e := RunEnd(s, q);
      PiecesFromInput(s, afterStop, e);
      forall i | 1 <= i < |r| ensures CharsFrom(r[i], s) {
        assert r[i] == SplitFrom(s, afterStop, e)[i - 1];
      }
    }
  }

  predicate CharsFrom(w: string, s: string) {
    forall k :: 0 <= k < |w| ==> w[k] in s
  }

  /** The whitespace runs that splitting from `p` drops, one between each two
      pieces. */
  ghost function GapsFrom(s: string, afterStop: bool, p: nat): (g: seq<string>)
    requires p <= |s|
    ensures |g| == |SplitFrom(s, afterStop, p)| - 1
    ensures forall i :: 0 <= i < |g| ==> g[i] != [] && AllSpace(g[i])
    decreases |s| - p
  {
    var q := FirstBreak(s, afterStop, p);
    if q == |s| then []
    else
      var e := RunEnd(s, q);
      assert forall k :: 0 <= k < e - q ==> s[q..e][k] == s[q + k];
      [s[q..e]] + GapsFrom(s, afterStop, e)
  }

  /** `p[0] + g[0] + p[1] + ... + p[n]`. */
  ghost function Interleave(p: seq<string>, g: seq<string>): string
    requires |g| + 1 == |p|
    decreases |g|
  {
    if g == [] then p[0] else p[0] + g[0] + Interleave(p[1..], g[1..])
  }

  /** Nothing is lost in splitting: the pieces, with the whitespace runs put
      back between them, are the input. */
  lemma {:induction false} SplitReassembles(s: string, afterStop: bool, p: nat)
    requires p <= |s|
    ensures Interleave(SplitFrom(s, afterStop, p), GapsFrom(s, afterStop, p)) == s[p..]
    decreases |s| - p
  {
    var q := FirstBreak(s, afterStop, p);
    if q < |s| {
      var e := RunEnd(s, q);
      var r, g := SplitFrom(s, afterStop, p), GapsFrom(s, afterStop, p);
      SplitReassembles(s, afterStop, e);
      assert r[1..] == SplitFrom(s, afterStop, e);
      assert g[1..] == GapsFrom(s, afterStop, e);
      assert Interleave(r, g) == s[p..q] + s[q..e] + s[e..];
      ThreeSlices(s, p, q, e);
    }
  }

  lemma ThreeSlices(s: string, p: nat, q: nat, e: nat)
    requires p <= q <= e <= |s|
    ensures s[p..q] + s[q..e] + s[e..] == s[p..]
  {
    assert s[p..] == s[p..q] + s[q..];
    assert s[q..] == s[q..e] + s[e..];
  }

  // ---- extractKeyPoints ----

  function Min(a: nat, b: nat): nat {
    if a <= b then a else b
  }

  /** `.map(s => s.trim())` */
  function TrimAll(ss: seq<string>): (r: seq<string>)
    ensures |r| == |ss|
    ensures forall i :: 0 <= i < |r| ==> r[i] == Trim(ss[i])
    ensures forall i :: 0 <= i < |r| ==> Unpadded(r[i]) && |r[i]| <= |ss[i]|
    ensures forall i :: 0 <= i < |r| ==> (r[i] == [] <==> AllSpace(ss[i]))
  {
    seq(|ss|, i requires 0 <= i < |ss| => Trim(ss[i]))
  }

  /** `.filter(s => s.length > 20)` */
  function LongOnes(ts: seq<string>): (r: seq<string>)
    ensures |r| <= |ts|
    ensures forall i :: 0 <= i < |r| ==> |r[i]| > 20
  {
    if ts == [] then []
    else (if |ts[0]| > 20 then [ts[0]] else []) + LongOnes(ts[1..])
  }

  /** The filter keeps only strings it was given. */
  lemma {:induction false} LongOnesAreGiven(ts: seq<string>)
    ensures forall t :: t in LongOnes(ts) ==> t in ts
  {
    if ts != [] {
      LongOnesAreGiven(ts[1..]);
      assert ts == [ts[0]] + ts[1..];
    }
  }

  /** extractKeyPoints: the sentences of `summary` longer than 20 characters
      once trimmed, trimmed, at most five of them. The source filters on the
      trimmed length and then trims; trimming first and then filtering on the
      length picks the same strings. */
  function ExtractKeyPoints(summary: string): (r: seq<string>)
    ensures |r| <= 5
    ensures forall i :: 0 <= i < |r| ==> |r[i]| > 20 && Trim(r[i]) == r[i]
  {
    var ts := TrimAll(Split(summary, true));
    var long := LongOnes(ts);
    TrimmedStayTrimmed(Split(summary, true));
    LongOnesAreGiven(ts);
    long[..Min(5, |long|)]
  }

  lemma TrimmedStayTrimmed(ss: seq<string>)
    ensures forall t :: t in TrimAll(ss) ==> Trim(t) == t
  {
    forall t | t in TrimAll(ss) ensures Trim(t) == t {
      var i :| 0 <= i < |ss| && TrimAll(ss)[i] == t;
      TrimIdempotent(ss[i]);
    }
  }

  /** The positions from `i` on that hold a string longer than 20, in
      increasing order. */
  ghost function LongIndices(ts: seq<string>, i: nat): (ix: seq<nat>)
    requires i <= |ts|
    ensures forall j :: 0 <= j < |ix| ==> i <= ix[j] < |ts| && |ts[ix[j]]| > 20
    ensures forall j, k :: 0 <= j < k < |ix| ==> ix[j] < ix[k]
    decreases |ts| - i
  {
    if i == |ts| then []
    else (if |ts[i]| > 20 then [i] else []) + LongIndices(ts, i + 1)
  }

  /** No position holding a long string is missed. */
  lemma {:induction false} LongIndicesComplete(ts: seq<string>, i: nat)
    requires i <= |ts|
    ensures forall k :: i <= k < |ts| && |ts[k]| > 20 ==> k in LongIndices(ts, i)
    decreases |ts| - i
  {
    if i < |ts| {
      LongIndicesComplete(ts, i + 1);
    }
  }

  lemma {:induction false} LongOnesAtIndices(ts: seq<string>, i: nat)
    requires i <= |ts|
    ensures |LongOnes(ts[i..])| == |LongIndices(ts, i)|
    ensures forall j :: 0 <= j < |LongIndices(ts, i)| ==> LongOnes(ts[i..])[j] == ts[LongIndices(ts, i)[j]]
    decreases |ts| - i
  {
    if i < |ts| {
      var tail, ix := LongOnes(ts[i + 1..]), LongIndices(ts, i + 1);
      LongOnesAtIndices(ts, i + 1);
      LongOnesStep(ts, i);
      var r, jx := LongOnes(ts[i..]), LongIndices(ts, i);
      if |ts[i]| > 20 {
        forall j | 0 <= j < |jx| ensures r[j] == ts[jx[j]] {
          if 0 < j {
            assert r[j] == tail[j - 1] && jx[j] == ix[j - 1];
          }
        }
      }
    }
  }

  /** One step of the filter: the string at `i` is kept or dropped. */
  lemma LongOnesStep(ts: seq<string>, i: nat)
    requires i < |ts|
    ensures LongOnes(ts[i..]) == (if |ts[i]| > 20 then [ts[i]] else []) + LongOnes(ts[i + 1..])
    ensures LongIndices(ts, i) == (if |ts[i]| > 20 then [i] else []) + LongIndices(ts, i + 1)
  {
    assert ts[i..][1..] == ts[i + 1..];
  }

  /** The key points are, in the order of the text, the trimmed sentences at
      the first five positions that hold a sentence longer than 20 characters
      once trimmed (all of them when there are fewer): no long sentence is
      skipped and none is reordered. */
  lemma KeyPointsAreFirstLongSentences(summary: string)
    ensures var ss := Split(summary, true);
            var ix := LongIndices(TrimAll(ss), 0);
            var r := ExtractKeyPoints(summary);
            |r| == Min(5, |ix|) &&
            (forall j :: 0 <= j < |ix| ==> |Trim(ss[ix[j]])| > 20) &&
            (forall k :: 0 <= k < |ss| && |Trim(ss[k])| > 20 ==> k in ix) &&
            forall j :: 0 <= j < |r| ==> r[j] == Trim(ss[ix[j]])
  {
    var ts := TrimAll(Split(summary, true));
    LongOnesAtIndices(ts, 0);
    LongIndicesComplete(ts, 0);
    assert ts[0..] == ts;
  }

  // ---- extractTopics ----

  /** `toLowerCase()` followed by `replace(/[^\w\s]/g, ' ')`, on one
      character. Lower-casing turns two characters outside ASCII into ASCII
      letters: the Kelvin sign into `k`, and the capital I with dot above into
      `i` followed by a combining dot, which is then replaced. Any other
      character outside `[A-Za-z0-9_]` and `\s` lower-cases to a character
      that is replaced as well. */
  function CleanChar(c: char): (r: string)
    ensures r != [] && forall k :: 0 <= k < |r| ==> IsLowerWordChar(r[k]) || IsSpace(r[k])
    ensures IsWordChar(c) ==> r == [ToLowerAscii(c)]
    ensures IsSpace(c) ==> r == [c]
    ensures c == '\U{212A}' ==> r == "k"
    ensures c == '\U{0130}' ==> r == "i "
    ensures !IsWordChar(c) && !IsSpace(c) && c != '\U{212A}' && c != '\U{0130}' ==> r == " "
    ensures |r| == (if c == '\U{0130}' then 2 else 1)
  {
    if c == '\U{212A}' then "k"
    else if c == '\U{0130}' then "i "
    else if IsWordChar(c) then [ToLowerAscii(c)]
    else if IsSpace(c) then [c]
    else " "
  }

  /** The cleaned text: each character's replacement, in order. */
  function Clean(text: string): (r: string)
    ensures forall k :: 0 <= k < |r| ==> IsLowerWordChar(r[k]) || IsSpace(r[k])
    ensures |r| >= |text|
    ensures NoDottedCapitalI(text) ==> |r| == |text| && forall k :: 0 <= k < |r| ==> r[k] == CleanChar(text[k])[0]
  {
    if text == [] then []
    else
      var head, rest := CleanChar(text[0]), Clean(text[1..]);
      assert forall k :: |head| <= k < |head| + |rest| ==> (head + rest)[k] == rest[k - |head|];
      assert NoDottedCapitalI(text) ==> NoDottedCapitalI(text[1..]) by {
        if NoDottedCapitalI(text) {
          forall k | 0 <= k < |text| - 1 ensures text[1..][k] != '\U{0130}' {
            assert text[1..][k] == text[k + 1];
          }
        }
      }
      head + rest
  }

  /** The text has no U+0130, the one character lower-casing lengthens. */
  predicate NoDottedCapitalI(text: string) {
    forall k :: 0 <= k < |text| ==> text[k] != '\U{0130}'
  }

  const StopWords: seq<string> := [
    "the", "and", "a", "an", "in", "on", "at", "to", "for", "of", "with",
    "is", "are", "be", "was", "were", "this", "that", "these", "those",
    "there", "here", "from", "have", "has", "had", "not", "by", "but",
    "or", "as", "what", "when", "where", "who", "how", "why", "which",
    "their", "they", "them", "then", "than", "can", "could", "would",
    "should", "will", "may", "might", "must", "about"]

  /** The filter of extractTopics: not a stop word and longer than 3. */
  predicate IsTopicWord(w: string) {
    w !in StopWords && |w| > 3
  }

  function FilterWords(ws: seq<string>): (r: seq<string>)
    ensures forall i :: 0 <= i < |r| ==> IsTopicWord(r[i]) && r[i] in ws
    ensures forall w :: IsTopicWord(w) ==> multiset(r)[w] == multiset(ws)[w]
  {
    if ws == [] then []
    else
      assert ws == [ws[0]] + ws[1..];
      (if IsTopicWord(ws[0]) then [ws[0]] else []) + FilterWords(ws[1..])
  }

  /** The words of `text` as extractTopics sees them. */
  function Words(text: string): (ws: seq<string>)
    ensures |ws| >= 1
    ensures forall i :: 0 <= i < |ws| ==> NoBreak(ws[i], false)
  {
    Split(Clean(text), false)
  }

  /** How often `w` occurs among those words. */
  function Occurrences(text: string, w: string): nat {
    multiset(Words(text))[w]
  }

  /** The words of the cleaned text are made of `[a-z0-9_]` only. */
  lemma WordsAreLowerWordChars(text: string)
    ensures forall i, k :: 0 <= i < |Words(text)| && 0 <= k < |Words(text)[i]| ==>
              IsLowerWordChar(Words(text)[i][k])
  {
    var ws := Words(text);
    var c := Clean(text);
    PiecesHaveNoBreak(c, false, 0);
    PiecesFromInput(c, false, 0);
    assert ws == SplitFrom(c, false, 0);
    forall i, k | 0 <= i < |ws| && 0 <= k < |ws[i]| ensures IsLowerWordChar(ws[i][k]) {
      assert !IsBreak(ws[i], k, false);
      assert CharsFrom(ws[i], c);
      var j :| 0 <= j < |c| && c[j] == ws[i][k];
    }
  }

  /** The distinct words among the first `n` of `ws`, each at the place
      where it first occurs. */
  function FirstOccurrences(ws: seq<string>, n: nat): seq<string>
    requires n <= |ws|
  {
    if n == 0 then []
    else FirstOccurrences(ws, n - 1) + (if ws[n - 1] in ws[..n - 1] then [] else [ws[n - 1]])
  }

  /** Among the first `n` of `ws`, `x` occurs before `y` first does. */
  predicate OccursBefore(ws: seq<string>, n: nat, x: string, y: string)
    requires n <= |ws|
  {
    exists a :: 0 <= a < n && ws[a] == x && y !in ws[..a + 1]
  }

  /** Each listed word occurs among the first `n`, and of two listed words
      the earlier one occurs before the later one first does. */
  lemma {:induction false} FirstOccurrencesInOrder(ws: seq<string>, n: nat)
    requires n <= |ws|
    ensures forall i :: 0 <= i < |FirstOccurrences(ws, n)| ==> FirstOccurrences(ws, n)[i] in ws[..n]
    ensures forall i, j :: 0 <= i < j < |FirstOccurrences(ws, n)| ==>
              OccursBefore(ws, n, FirstOccurrences(ws, n)[i], FirstOccurrences(ws, n)[j])
  {
    if n > 0 {
      FirstOccurrencesInOrder(ws, n - 1);
      var f, r := FirstOccurrences(ws, n - 1), FirstOccurrences(ws, n);
      assert ws[..n] == ws[..n - 1] + [ws[n - 1]];
      forall i | 0 <= i < |r| ensures r[i] in ws[..n] {
        if i < |f| {
          assert r[i] == f[i] && f[i] in ws[..n - 1];
        }
      }
      forall i, j | 0 <= i < j < |r| ensures OccursBefore(ws, n, r[i], r[j]) {
        assert r[i] == f[i];
        if j < |f| {
          assert r[j] == f[j] && OccursBefore(ws, n - 1, f[i], f[j]);
          var a :| 0 <= a < n - 1 && ws[a] == f[i] && f[j] !in ws[..a + 1];
          assert ws[a] == r[i] && r[j] !in ws[..a + 1];
        } else {
          assert r[j] == ws[n - 1] && ws[n - 1] !in ws[..n - 1];
          assert f[i] in ws[..n - 1];
          var a :| 0 <= a < n - 1 && ws[a] == f[i];
          assert ws[..a + 1] == ws[..n - 1][..a + 1];
          assert r[j] !in ws[..a + 1];
        }
      }
    }
  }

  /** The forEach over the filtered words that fills `frequencies`: the count
      of each word, and the words in the order they were first seen. The
      model lists the keys in that insertion order; `Object.entries` in the
      source lists integer-like keys first, in ascending numeric order, and
      then the others in insertion order. */
  method CountFrequencies(words: seq<string>) returns (counts: map<string, nat>, keys: seq<string>)
    ensures forall w :: w in counts <==> w in words
    ensures forall w :: w in counts ==> counts[w] == multiset(words)[w]
    ensures NoDuplicates(keys) && forall w :: w in keys <==> w in counts
    ensures keys == FirstOccurrences(words, |words|)
  {
    counts := map[];
    keys := [];
    var i := 0;
    while i < |words|
      invariant 0 <= i <= |words|
      invariant forall w :: w in counts <==> w in words[..i]
      invariant forall w :: w in counts ==> counts[w] == multiset(words[..i])[w]
      invariant NoDuplicates(keys) && forall w :: w in keys <==> w in counts
      invariant keys == FirstOccurrences(words, i)
    {
      var w := words[i];
      assert words[..i + 1] == words[..i] + [w];
      if w in counts {
        counts := counts[w := counts[w] + 1];
      } else {
        counts := counts[w := 1];
        keys := keys + [w];
      }
      i := i + 1;
    }
    assert words[..i] == words;
  }

  // ---- The counting loop as written, on a plain object ----

  /** What reading `frequencies[word]` can give. */
  datatype JsValue = Undefined | Num(n: nat) | Str(s: string) | Obj(display: string)

  /** Properties a fresh `{}` inherits from `Object.prototype` whose names are
      lower-case word characters longer than three, so that a filtered word
      can hit them: `constructor` (the `Object` function) and `__proto__`
      (the prototype object itself). Both are truthy. */
  function Inherited(w: string): JsValue {
    if w == "constructor" then Obj("function Object() { [native code] }")
    else if w == "__proto__" then Obj("[object Object]")
    else Undefined
  }

  function Lookup(own: map<string, JsValue>, w: string): JsValue {
    if w in own then own[w] else Inherited(w)
  }

  /** `(v || 0) + 1`: a falsy value counts as 0; an object or a non-empty
      string is converted to text and `"1"` is appended. */
  function Bump(v: JsValue): JsValue {
    match v
    case Undefined => Num(1)
    case Num(n) => Num(n + 1)
    case Str(t) => if t == "" then Num(1) else Str(t + "1")
    case Obj(d) => Str(d + "1")
  }

  /** `frequencies[w] = v`: assigning a primitive to `__proto__` goes to the
      inherited setter, which ignores it; any other name becomes or updates
      an own property. */
  function Assign(own: map<string, JsValue>, w: string, v: JsValue): map<string, JsValue> {
    if w == "__proto__" then own else own[w := v]
  }

  /** The own properties of `frequencies` after the forEach, as written. */
  function FrequenciesAsWritten(words: seq<string>): (own: map<string, JsValue>)
    ensures forall w :: w in own ==> w in words && w != "__proto__"
  {
    if words == [] then map[]
    else
      var own := FrequenciesAsWritten(words[..|words| - 1]);
      var w := words[|words| - 1];
      Assign(own, w, Bump(Lookup(own, w)))
  }

  /** On every word other than the two inherited names, the object as
      written holds the plain count. */
  lemma {:induction false} AsWrittenCountsOtherWords(words: seq<string>, w: string)
    requires w != "constructor" && w != "__proto__"
    ensures w in FrequenciesAsWritten(words) <==> w in words
    ensures w in words ==> FrequenciesAsWritten(words)[w] == Num(multiset(words)[w])
  {
    if words != [] {
      var init := words[..|words| - 1];
      AsWrittenCountsOtherWords(init, w);
      assert words == init + [words[|words| - 1]];
    }
  }

  /** The word `__proto__`, however often it occurs, is never counted. */
  lemma ProtoWordIsLost()
    ensures "__proto__" !in FrequenciesAsWritten(["__proto__", "__proto__"])
  {
    assert ["__proto__", "__proto__"][..1] == ["__proto__"];
  }

  /** The word `constructor` is counted as text, not as a number. */
  lemma ConstructorCountIsText()
    ensures FrequenciesAsWritten(["constructor"])["constructor"].Str?
  {
    assert ["constructor"][..0] == [];
  }

  /** `Object.entries(frequencies)`, with the keys in the order `keys` gives
      them (the model's insertion order; see CountFrequencies). */
  function Entries(counts: map<string, nat>, keys: seq<string>): (r: seq<(string, nat)>)
    requires forall w :: w in keys ==> w in counts
    ensures |r| == |keys|
    ensures forall i :: 0 <= i < |r| ==> r[i] == (keys[i], counts[keys[i]])
    ensures forall w, n :: (w, n) in r <==> w in keys && w in counts && n == counts[w]
    ensures NoDuplicates(keys) ==> NoDuplicates(r)
  {
    seq(|keys|, i requires 0 <= i < |keys| => (keys[i], counts[keys[i]]))
  }

  /** The comparator `(a, b) => b[1] - a[1]`: higher counts first. */
  function ByCountDesc(a: (string, nat), b: (string, nat)): bool {
    a.1 >= b.1
  }

  lemma ByCountDescIsTotalPreorder()
    ensures TotalPreorder(ByCountDesc)
  {
  }

  /** The entries sorted by decreasing count. */
  function Ranked(counts: map<string, nat>, keys: seq<string>): (r: seq<(string, nat)>)
    requires forall w :: w in keys ==> w in counts
    ensures multiset(r) == multiset(Entries(counts, keys))
    ensures SortedBy(r, ByCountDesc)
  {
    ByCountDescIsTotalPreorder();
    SortBy(Entries(counts, keys), ByCountDesc)
  }

  /** `.slice(0, 5).map(entry => entry[0])` */
  function TopWords(counts: map<string, nat>, keys: seq<string>): (topics: seq<string>)
    requires forall w :: w in keys ==> w in counts
    ensures |topics| == Min(5, |keys|)
  {
    var r := Ranked(counts, keys);
    assert |r| == |multiset(r)| == |keys|;
    seq(Min(5, |r|), i requires 0 <= i < Min(5, |r|) => r[i].0)
  }

  /** The keys of a count table: no key twice, and exactly the counted words. */
  ghost predicate KeysOf(counts: map<string, nat>, keys: seq<string>) {
    NoDuplicates(keys) && forall w :: w in keys <==> w in counts
  }

  /** The ranked entries are the table's entries, once each. */
  lemma {:induction false} RankedEntries(counts: map<string, nat>, keys: seq<string>)
    requires KeysOf(counts, keys)
    ensures NoDuplicates(Ranked(counts, keys))
    ensures forall e :: e in Ranked(counts, keys) <==> e.0 in counts && e.1 == counts[e.0]
  {
    var entries, r := Entries(counts, keys), Ranked(counts, keys);
    assert NoDuplicates(entries) by {
      forall i, j | 0 <= i < j < |entries| ensures entries[i] != entries[j] {
        assert entries[i].0 == keys[i] && entries[j].0 == keys[j];
      }
    }
    PermutationKeepsNoDuplicates(entries, r);
    forall e ensures e in r <==> e.0 in counts && e.1 == counts[e.0] {
      if e in r {
        assert e in multiset(entries);
        var i :| 0 <= i < |entries| && entries[i] == e;
      }
      if e.0 in counts && e.1 == counts[e.0] {
        var i :| 0 <= i < |keys| && keys[i] == e.0;
        assert entries[i] == e;
        assert e in multiset(r);
      }
    }
  }

  /** The top words are counted words, no word twice, in order of decreasing
      count. */
  lemma TopWordsRanked(counts: map<string, nat>, keys: seq<string>)
    requires KeysOf(counts, keys)
    ensures forall t :: t in TopWords(counts, keys) ==> t in counts
    ensures NoDuplicates(TopWords(counts, keys))
    ensures forall i, j :: 0 <= i < j < |TopWords(counts, keys)| ==>
              counts[TopWords(counts, keys)[i]] >= counts[TopWords(counts, keys)[j]]
  {
    var r, topics := Ranked(counts, keys), TopWords(counts, keys);
    RankedEntries(counts, keys);
    forall i | 0 <= i < |topics| ensures topics[i] in counts && counts[topics[i]] == r[i].1 {
      assert r[i] in r;
    }
  }

  /** A counted word that is not among the top words was pushed out by five
      words counted at least as often. */
  lemma TopWordsComplete(counts: map<string, nat>, keys: seq<string>, w: string)
    requires KeysOf(counts, keys) && w in counts && w !in TopWords(counts, keys)
    ensures |TopWords(counts, keys)| == 5
    ensures forall t :: t in TopWords(counts, keys) ==> t in counts && counts[t] >= counts[w]
  {
    var r, topics := Ranked(counts, keys), TopWords(counts, keys);
    RankedEntries(counts, keys);
    var e := (w, counts[w]);
    assert e in r;
    forall i | 0 <= i < |topics| ensures r[..|topics|][i] != e {
      assert topics[i] in topics;
    }
    PrefixIsTop(r, |topics|, ByCountDesc, e);
    forall t | t in topics ensures t in counts && counts[t] >= counts[w] {
      var i :| 0 <= i < |topics| && topics[i] == t;
      assert r[i] in r;
    }
    FewWordsAllKept(counts, keys);
  }

  /** With fewer than five counted words, every one of them is a top word. */
  lemma FewWordsAllKept(counts: map<string, nat>, keys: seq<string>)
    requires KeysOf(counts, keys)
    ensures |keys| < 5 ==> forall w :: w in counts ==> w in TopWords(counts, keys)
  {
    var r, topics := Ranked(counts, keys), TopWords(counts, keys);
    RankedEntries(counts, keys);
    if |keys| < 5 {
      forall w | w in counts ensures w in topics {
        assert (w, counts[w]) in r;
        var i :| 0 <= i < |r| && r[i] == (w, counts[w]);
        assert topics[i] == w;
      }
    }
  }

  /** What extractTopics returns for `text`: at most five distinct words of
      the text that pass the filter, most frequent first, and any passing word
      left out occurs no more often than each of five chosen ones. */
  ghost predicate TopicsOf(text: string, topics: seq<string>) {
    |topics| <= 5 &&
    NoDuplicates(topics) &&
    (forall t :: t in topics ==> t in Words(text) && IsTopicWord(t)) &&
    (forall i, j :: 0 <= i < j < |topics| ==> Occurrences(text, topics[i]) >= Occurrences(text, topics[j])) &&
    (forall w :: w in Words(text) && IsTopicWord(w) && w !in topics ==>
       |topics| == 5 && forall t :: t in topics ==> Occurrences(text, t) >= Occurrences(text, w))
  }

  /** extractTopics: the words of the text, lower-cased and stripped of
      punctuation, filtered, counted, and ranked by count. */
  method ExtractTopics(text: string) returns (topics: seq<string>)
    ensures TopicsOf(text, topics)
    ensures forall t :: t in topics ==> forall k :: 0 <= k < |t| ==> IsLowerWordChar(t[k])
  {
    var filtered := FilterWords(Words(text));
    var counts, keys := CountFrequencies(filtered);
    topics := TopWords(counts, keys);
    TopicsFromCounts(text, counts, keys);
    WordsAreLowerWordChars(text);
  }

  /** The table built from the filtered words of `text` counts exactly the
      passing words of the text, each as often as it occurs. */
  lemma CountsAreOccurrences(text: string, counts: map<string, nat>)
    requires forall w :: w in counts <==> w in FilterWords(Words(text))
    requires forall w :: w in counts ==> counts[w] == multiset(FilterWords(Words(text)))[w]
    ensures forall w :: w in counts ==> w in Words(text) && IsTopicWord(w) && counts[w] == Occurrences(text, w)
    ensures forall w :: w in Words(text) && IsTopicWord(w) ==> w in counts
  {
    var words := Words(text);
    forall w | w in words && IsTopicWord(w) ensures w in counts {
      assert w in multiset(words);
      assert w in multiset(FilterWords(words));
    }
  }

  /** A count table of the filtered words of `text` ranks them by how often
      they occur in the text. */
  lemma TopicsFromCounts(text: string, counts: map<string, nat>, keys: seq<string>)
    requires forall w :: w in counts <==> w in FilterWords(Words(text))
    requires forall w :: w in counts ==> counts[w] == multiset(FilterWords(Words(text)))[w]
    requires KeysOf(counts, keys)
    ensures TopicsOf(text, TopWords(counts, keys))
  {
    var topics := TopWords(counts, keys);
    CountsAreOccurrences(text, counts);
    TopWordsRanked(counts, keys);
    forall w | w in Words(text) && IsTopicWord(w) && w !in topics
      ensures |topics| == 5 && forall t :: t in topics ==> Occurrences(text, t) >= Occurrences(text, w)
    {
      TopWordsComplete(counts, keys, w);
    }
  }
}
