/**
 * Whitespace, `split(/\s+/)`, `filter(w => w.length > 0)` and `trim()` as the
 * reader and the text dialog use them. One whitespace predicate is shared by
 * splitting and trimming.
 */
module Text {

  /** ECMAScript white space and line terminators: the characters `\s` matches and `trim` removes. */
  predicate IsSpace(c: char)
  {
    c == '\t' || c == '\n' || c == '\U{000B}' || c == '\U{000C}' || c == '\r' || c == ' '
    || c == '\U{00A0}' || c == '\U{1680}' || ('\U{2000}' <= c <= '\U{200A}')
    || c == '\U{2028}' || c == '\U{2029}' || c == '\U{202F}' || c == '\U{205F}'
    || c == '\U{3000}' || c == '\U{FEFF}'
  }

  predicate AllSpace(s: string)
  {
    forall i :: 0 <= i < |s| ==> IsSpace(s[i])
  }

  predicate NoSpace(s: string)
  {
    forall i :: 0 <= i < |s| ==> !IsSpace(s[i])
  }

  /** The longest prefix of `s` that holds no whitespace. */
  function TakeWord(s: string): (w: string)
    ensures w <= s && NoSpace(w)
    ensures |w| < |s| ==> IsSpace(s[|w|])
  {
    if s == [] || IsSpace(s[0]) then [] else [s[0]] + TakeWord(s[1..])
  }

  /** `s` without its leading run of whitespace (JavaScript's `trimStart`). */
  function SkipSpace(s: string): (r: string)
    ensures |r| <= |s| && r == s[|s| - |r|..]
    ensures AllSpace(s[..|s| - |r|])
    ensures r == [] || !IsSpace(r[0])
    ensures s != [] && IsSpace(s[0]) ==> |r| < |s|
  {
    if s != [] && IsSpace(s[0]) then SkipSpace(s[1..]) else s
  }

  /** `s` without its trailing run of whitespace (JavaScript's `trimEnd`). */
  function TrimEnd(s: string): (r: string)
    ensures r <= s
    ensures AllSpace(s[|r|..])
    ensures r == [] || !IsSpace(r[|r| - 1])
  {
    if s != [] && IsSpace(s[|s| - 1]) then TrimEnd(s[..|s| - 1]) else s
  }

  /**
   * JavaScript's `s.split(/\s+/)`: the pieces between maximal whitespace runs.
   * A leading or trailing run yields an empty first or last piece, and the
   * empty string yields one empty piece.
   */
  function SplitRaw(s: string): (fields: seq<string>)
    ensures |fields| >= 1
    ensures forall i :: 0 <= i < |fields| ==> NoSpace(fields[i])
    decreases |s|
  {
    var w := TakeWord(s);
    var rest := s[|w|..];
    if rest == [] then [w] else [w] + SplitRaw(SkipSpace(rest))
  }

  /** `ts.filter(w => w.length > 0)`. */
  function NonEmpty(ts: seq<string>): (r: seq<string>)
    ensures |r| <= |ts|
    ensures forall i :: 0 <= i < |r| ==> r[i] != [] && r[i] in ts
  {
    if ts == [] then []
    else (if ts[0] != [] then [ts[0]] else []) + NonEmpty(ts[1..])
  }

  /** The filter keeps every non-empty entry as often as it occurs, and nothing else. */
  lemma {:induction false} NonEmptyCounts(ts: seq<string>, t: string)
    ensures multiset(NonEmpty(ts))[t] == if t != [] then multiset(ts)[t] else 0
    decreases |ts|
  {
    if ts != [] {
      assert ts == [ts[0]] + ts[1..];
      NonEmptyCounts(ts[1..], t);
      var head := if ts[0] != [] then [ts[0]] else [];
      assert multiset(NonEmpty(ts)) == multiset(head) + multiset(NonEmpty(ts[1..]));
    }
  }

  /** The filter keeps the order of the entries: it distributes over concatenation. */
  lemma {:induction false} NonEmptyConcat(a: seq<string>, b: seq<string>)
    ensures NonEmpty(a + b) == NonEmpty(a) + NonEmpty(b)
    decreases |a|
  {
    if a == [] {
      assert a + b == b;
    } else {
      assert (a + b)[0] == a[0];
      assert (a + b)[1..] == a[1..] + b;
      NonEmptyConcat(a[1..], b);
      var head := if a[0] != [] then [a[0]] else [];
      assert head + (NonEmpty(a[1..]) + NonEmpty(b)) == (head + NonEmpty(a[1..])) + NonEmpty(b);
    }
  }

  /** Every entry is a non-empty run of non-whitespace characters. */
  predicate WordList(ws: seq<string>)
  {
    forall i :: 0 <= i < |ws| ==> ws[i] != [] && NoSpace(ws[i])
  }

  /** The words of a text: `s.split(/\s+/).filter(w => w.length > 0)`. */
  function Words(s: string): (ws: seq<string>)
    ensures WordList(ws)
  {
    NonEmpty(SplitRaw(s))
  }

  /** JavaScript's `s.trim()`. */
  function Trim(s: string): string
  {
    TrimEnd(SkipSpace(s))
  }

  /** A trimmed text has no surrounding whitespace, and is empty exactly when the text is all whitespace. */
  lemma {:induction false} TrimMeaning(s: string)
    ensures var r := Trim(s); r == [] || (!IsSpace(r[0]) && !IsSpace(r[|r| - 1]))
    ensures Trim(s) == [] <==> AllSpace(s)
  {
    TrimEdges(s);
    TrimEmptyIffBlank(s);
  }

  lemma {:induction false} TrimEdges(s: string)
    ensures var r := Trim(s); r == [] || (!IsSpace(r[0]) && !IsSpace(r[|r| - 1]))
  {
    var t := SkipSpace(s);
    var r := TrimEnd(t);
    if r != [] {
      assert r[0] == t[0];
    }
  }

  lemma {:induction false} TrimEmptyIffBlank(s: string)
    ensures Trim(s) == [] <==> AllSpace(s)
  {
    var t := SkipSpace(s);
    var r := TrimEnd(t);
    var lead := s[..|s| - |t|];
    if r == [] {
      assert t[|r|..] == t;
      SuffixSplit(t, s);
      AllSpaceConcat(lead, t);
    }
    if t != [] {
      assert !IsSpace(s[|s| - |t|]) by { assert t[0] == s[|s| - |t|]; }
    }
  }

  /**
   * `gaps[0] + ws[0] + gaps[1] + ... + ws[n-1] + gaps[n]`: a text rebuilt from
   * its words and the whitespace between them.
   */
  function Weave(gaps: seq<string>, ws: seq<string>): string
    requires |gaps| == |ws| + 1
    decreases ws
  {
    if ws == [] then gaps[0] else gaps[0] + ws[0] + Weave(gaps[1..], ws[1..])
  }

  predicate GapList(gaps: seq<string>)
  {
    forall i :: 0 <= i < |gaps| ==> AllSpace(gaps[i])
  }

  predicate InnerGapsNonEmpty(gaps: seq<string>)
  {
    forall i :: 0 < i < |gaps| - 1 ==> gaps[i] != []
  }

  /**
   * `s` is the words `ws` separated by the whitespace runs `gaps`: each word is
   * non-empty and holds no whitespace, each gap is whitespace, and every gap
   * between two words is non-empty (the first and the last may be empty).
   */
  ghost predicate IsSegmentation(s: string, gaps: seq<string>, ws: seq<string>)
  {
    |gaps| == |ws| + 1 && GapList(gaps) && InnerGapsNonEmpty(gaps) && WordList(ws)
    && s == Weave(gaps, ws)
  }

  /** The whitespace runs around the words of `s`, in the order `Weave` expects. */
  ghost function Gaps(s: string): (gaps: seq<string>)
    ensures |gaps| >= 1
    decreases |s|
  {
    var t := SkipSpace(s);
    var lead := s[..|s| - |t|];
    if t == [] then [s]
    else
      var w := TakeWord(t);
      var rest := t[|w|..];
      if rest == [] then [lead, []]
      else
        var u := SkipSpace(rest);
        var g := Gaps(u);
        [lead, rest[..|rest| - |u|] + g[0]] + g[1..]
  }

  // ---------------------------------------------------------------------
  // Helper facts about the pieces of the split.

  lemma {:induction false} PrefixSplit(p: string, s: string)
    requires p <= s
    ensures s == p + s[|p|..]
  {
  }

  lemma {:induction false} AllSpaceConcat(a: string, b: string)
    requires AllSpace(a) && AllSpace(b)
    ensures AllSpace(a + b)
  {
    forall i | 0 <= i < |a + b| ensures IsSpace((a + b)[i]) {
      if i < |a| { assert (a + b)[i] == a[i]; } else { assert (a + b)[i] == b[i - |a|]; }
    }
  }

  lemma {:induction false} SkipSpacePrefix(sp: string, t: string)
    requires AllSpace(sp)
    ensures SkipSpace(sp + t) == SkipSpace(t)
    decreases |sp|
  {
    if sp != [] {
      assert (sp + t)[0] == sp[0];
      assert (sp + t)[1..] == sp[1..] + t;
      SkipSpacePrefix(sp[1..], t);
    } else {
      assert sp + t == t;
    }
  }

  lemma {:induction false} TakeWordPrefix(w: string, t: string)
    requires NoSpace(w)
    requires t == [] || IsSpace(t[0])
    ensures TakeWord(w + t) == w
    decreases |w|
  {
    if w == [] {
      assert w + t == t;
    } else {
      assert (w + t)[0] == w[0];
      assert (w + t)[1..] == w[1..] + t;
      TakeWordPrefix(w[1..], t);
      assert [w[0]] + w[1..] == w;
    }
  }

  lemma {:induction false} NonEmptyCons(t: string, ts: seq<string>)
    ensures NonEmpty([t] + ts) == (if t != [] then [t] else []) + NonEmpty(ts)
  {
    assert ([t] + ts)[1..] == ts;
  }

  lemma {:induction false} WordsOfEmpty()
    ensures Words([]) == []
  {
    assert SplitRaw([]) == [[]];
    NonEmptyCons([], []);
  }

  /** Leading whitespace contributes no word. */
  lemma {:induction false} WordsSkipSpace(t: string)
    ensures Words(SkipSpace(t)) == Words(t)
  {
    if t != [] && IsSpace(t[0]) {
      assert TakeWord(t) == [];
      assert t[0..] == t;
      NonEmptyCons([], SplitRaw(SkipSpace(t)));
    }
  }

  lemma {:induction false} WordsLeadingSpace(sp: string, t: string)
    requires AllSpace(sp)
    ensures Words(sp + t) == Words(t)
  {
    WordsSkipSpace(sp + t);
    SkipSpacePrefix(sp, t);
    WordsSkipSpace(t);
  }

  lemma {:induction false} BlankHasNoWords(s: string)
    requires AllSpace(s)
    ensures Words(s) == []
  {
    assert s + [] == s;
    WordsLeadingSpace(s, []);
    WordsOfEmpty();
  }

  /** A word followed by whitespace (or by the end of the text) is the first word. */
  lemma {:induction false} WordsCons(w: string, sp: string, t: string)
    requires w != [] && NoSpace(w) && AllSpace(sp)
    requires sp != [] || t == []
    ensures Words(w + (sp + t)) == [w] + Words(t)
  {
    var s := w + (sp + t);
    TakeWordPrefix(w, sp + t);
    assert s[|w|..] == sp + t;
    if sp == [] {
      assert sp + t == [];
      assert SplitRaw(s) == [w];
      NonEmptyCons(w, []);
      WordsOfEmpty();
    } else {
      NonEmptyCons(w, SplitRaw(SkipSpace(sp + t)));
      WordsSkipSpace(sp + t);
      WordsLeadingSpace(sp, t);
    }
  }

  /** Words after a leading gap, a word and a further gap. */
  lemma {:induction false} WordsStep(g: string, w: string, g1: string, rest: string)
    requires AllSpace(g) && AllSpace(g1) && w != [] && NoSpace(w)
    requires g1 != [] || rest == []
    ensures Words(g + w + (g1 + rest)) == [w] + Words(g1 + rest)
  {
    assert g + w + (g1 + rest) == g + (w + (g1 + rest));
    WordsLeadingSpace(g, w + (g1 + rest));
    WordsCons(w, g1, rest);
    WordsLeadingSpace(g1, rest);
  }

  lemma {:induction false} WeaveFirstGap(p: string, g: seq<string>, ws: seq<string>)
    requires |g| == |ws| + 1
    ensures Weave([p + g[0]] + g[1..], ws) == p + Weave(g, ws)
  {
    var g' := [p + g[0]] + g[1..];
    assert g'[1..] == g[1..];
    if ws != [] {
      assert p + g[0] + ws[0] + Weave(g[1..], ws[1..]) == p + (g[0] + ws[0] + Weave(g[1..], ws[1..]));
    }
  }

  lemma {:induction false} WeaveLastGap(g: seq<string>, ws: seq<string>, q: string)
    requires |g| == |ws| + 1
    ensures Weave(g[..|g| - 1] + [g[|g| - 1] + q], ws) == Weave(g, ws) + q
    decreases ws
  {
    var g' := g[..|g| - 1] + [g[|g| - 1] + q];
    if ws != [] {
      WeaveLastGap(g[1..], ws[1..], q);
      assert g'[1..] == g[1..][..|g| - 2] + [g[1..][|g| - 2] + q];
      var x := Weave(g[1..], ws[1..]);
      assert g[0] + ws[0] + (x + q) == g[0] + ws[0] + x + q;
    }
  }

  /** The text after the first gap of a weave, and the weave of the remaining gaps and words. */
  lemma {:induction false} WeaveAfterFirstGap(gaps: seq<string>, ws: seq<string>) returns (rest: string)
    requires |gaps| == |ws| + 1 && ws != [] && WordList(ws)
    ensures Weave(gaps[1..], ws[1..]) == gaps[1] + rest
    ensures ws[1..] == [] ==> rest == []
    ensures ws[1..] != [] ==> rest != [] && !IsSpace(rest[0])
    ensures Weave(gaps, ws) == gaps[0] + ws[0] + (gaps[1] + rest)
  {
    if ws[1..] == [] {
      rest := [];
      assert gaps[1] + rest == gaps[1];
    } else {
      var g1, w1 := gaps[1..], ws[1..];
      rest := w1[0] + Weave(g1[1..], w1[1..]);
      assert (g1[0] + w1[0]) + Weave(g1[1..], w1[1..]) == g1[0] + rest;
      assert w1[0] == ws[1];
      assert (w1[0] + Weave(g1[1..], w1[1..]))[0] == w1[0][0];
    }
  }

  lemma {:induction false} SegmentationTail(s: string, gaps: seq<string>, ws: seq<string>)
    requires IsSegmentation(s, gaps, ws) && ws != []
    ensures IsSegmentation(Weave(gaps[1..], ws[1..]), gaps[1..], ws[1..])
    ensures ws[1..] != [] ==> gaps[1] != []
  {
    assert forall i :: 0 <= i < |gaps| - 1 ==> gaps[1..][i] == gaps[i + 1];
    assert forall i :: 0 <= i < |ws| - 1 ==> ws[1..][i] == ws[i + 1];
  }

  lemma {:induction false} SegmentationCons(lead: string, w: string, sp: string, u: string, g: seq<string>, ws: seq<string>)
    requires AllSpace(lead) && AllSpace(sp) && sp != [] && w != [] && NoSpace(w)
    requires IsSegmentation(u, g, ws)
    ensures IsSegmentation(lead + w + (sp + u), [lead, sp + g[0]] + g[1..], [w] + ws)
  {
    var gaps := [lead, sp + g[0]] + g[1..];
    var ws' := [w] + ws;
    AllSpaceConcat(sp, g[0]);
    WeaveFirstGap(sp, g, ws);
    assert gaps[1..] == [sp + g[0]] + g[1..];
    assert ws'[1..] == ws;
    assert forall i :: 1 < i < |gaps| ==> gaps[i] == g[i - 1];
    assert forall i :: 0 < i < |ws'| ==> ws'[i] == ws[i - 1];
    assert Weave(gaps, ws') == lead + w + (sp + u);
  }

  // ---------------------------------------------------------------------
  // Segmentation: the words are exactly the maximal non-whitespace runs.

  /** Any decomposition of `s` into words and whitespace gaps is the one `Words` finds. */
  lemma {:induction false} WordsOfSegmentation(s: string, gaps: seq<string>, ws: seq<string>)
    requires IsSegmentation(s, gaps, ws)
    ensures Words(s) == ws
    decreases ws
  {
    if ws == [] {
      BlankHasNoWords(s);
    } else {
      SegmentationTail(s, gaps, ws);
      WordsOfSegmentation(Weave(gaps[1..], ws[1..]), gaps[1..], ws[1..]);
      var rest := WeaveAfterFirstGap(gaps, ws);
      WordsStep(gaps[0], ws[0], gaps[1], rest);
      assert [ws[0]] + ws[1..] == ws;
    }
  }

  lemma {:induction false} SegmentationOfBlank(s: string)
    requires SkipSpace(s) == []
    ensures IsSegmentation(s, Gaps(s), Words(s))
  {
    assert s == s[..|s|] + [];
    BlankHasNoWords(s);
  }

  lemma {:induction false} OneWordSegmentation(lead: string, w: string)
    requires AllSpace(lead) && w != [] && NoSpace(w)
    ensures IsSegmentation(lead + w, [lead, []], [w])
  {
    assert [lead, []][1..] == [[]];
    assert lead + w + [] == lead + w;
  }

  lemma {:induction false} Assoc(a: string, b: string, c: string)
    ensures a + (b + c) == a + b + c
  {
  }

  lemma {:induction false} SuffixSplit(t: string, s: string)
    requires |t| <= |s| && t == s[|s| - |t|..]
    ensures s == s[..|s| - |t|] + t
  {
  }

  lemma {:induction false} SegmentationOfOneWord(s: string)
    requires SkipSpace(s) != []
    requires var t := SkipSpace(s); t[|TakeWord(t)|..] == []
    ensures IsSegmentation(s, Gaps(s), Words(s))
  {
    var t := SkipSpace(s);
    var lead := s[..|s| - |t|];
    var w := TakeWord(t);
    SuffixSplit(t, s);
    PrefixSplit(w, t);
    assert t == w;
    WordsLeadingSpace(lead, t);
    WordsCons(w, [], []);
    WordsOfEmpty();
    assert Words(s) == [w];
    assert Gaps(s) == [lead, []];
    OneWordSegmentation(lead, w);
  }

  /** The first word of a text with more words after it, and the text around it. */
  lemma {:induction false} SplitFirstWord(s: string) returns (lead: string, w: string, sp: string, u: string)
    requires SkipSpace(s) != []
    requires var t := SkipSpace(s); t[|TakeWord(t)|..] != []
    ensures var t := SkipSpace(s); var rest := t[|TakeWord(t)|..];
      lead == s[..|s| - |t|] && w == TakeWord(t) && u == SkipSpace(rest) && sp == rest[..|rest| - |u|]
    ensures s == lead + w + (sp + u)
    ensures AllSpace(lead) && AllSpace(sp) && sp != [] && w != [] && NoSpace(w)
  {
    var t := SkipSpace(s);
    lead := s[..|s| - |t|];
    w := TakeWord(t);
    var rest := t[|w|..];
    u := SkipSpace(rest);
    sp := rest[..|rest| - |u|];
    SuffixSplit(t, s);
    PrefixSplit(w, t);
    SuffixSplit(u, rest);
    Assoc(lead, w, sp + u);
  }

  lemma {:induction false} FirstWordWords(s: string, lead: string, w: string, sp: string, u: string)
    requires s == lead + w + (sp + u)
    requires AllSpace(lead) && AllSpace(sp) && sp != [] && w != [] && NoSpace(w)
    ensures Words(s) == [w] + Words(u)
  {
    Assoc(lead, w, sp + u);
    WordsLeadingSpace(lead, w + (sp + u));
    WordsCons(w, sp, u);
  }

  lemma {:induction false} FirstWordGaps(s: string, lead: string, sp: string, u: string)
    requires SkipSpace(s) != []
    requires var t := SkipSpace(s); t[|TakeWord(t)|..] != []
    requires var t := SkipSpace(s); var rest := t[|TakeWord(t)|..];
      lead == s[..|s| - |t|] && u == SkipSpace(rest) && sp == rest[..|rest| - |u|]
    ensures Gaps(s) == [lead, sp + Gaps(u)[0]] + Gaps(u)[1..]
  {
    var t := SkipSpace(s);
    var w := TakeWord(t);
    var rest := t[|w|..];
    assert t != [] && rest != [];
  }

  lemma {:induction false} SegmentationOfMoreWords(s: string)
    requires SkipSpace(s) != []
    requires var t := SkipSpace(s); t[|TakeWord(t)|..] != []
    requires var t := SkipSpace(s); var u := SkipSpace(t[|TakeWord(t)|..]);
      IsSegmentation(u, Gaps(u), Words(u))
    ensures IsSegmentation(s, Gaps(s), Words(s))
  {
    var lead, w, sp, u := SplitFirstWord(s);
    FirstWordWords(s, lead, w, sp, u);
    FirstWordGaps(s, lead, sp, u);
    SegmentationCons(lead, w, sp, u, Gaps(u), Words(u));
  }

  /** Every text decomposes into its words and the whitespace runs around them. */
  lemma {:induction false} SegmentationOfWords(s: string)
    ensures IsSegmentation(s, Gaps(s), Words(s))
    decreases |s|
  {
    var t := SkipSpace(s);
    if t == [] {
      SegmentationOfBlank(s);
    } else if t[|TakeWord(t)|..] == [] {
      SegmentationOfOneWord(s);
    } else {
      SegmentationOfWords(SkipSpace(t[|TakeWord(t)|..]));
      SegmentationOfMoreWords(s);
    }
  }

  /** Exactly the maximal non-whitespace runs of `s`, in order, are its words. */
  lemma {:induction false} WordsAreMaximalRuns(s: string, gaps: seq<string>, ws: seq<string>)
    ensures IsSegmentation(s, gaps, ws) ==> Words(s) == ws
    ensures IsSegmentation(s, Gaps(s), Words(s))
  {
    if IsSegmentation(s, gaps, ws) { WordsOfSegmentation(s, gaps, ws); }
    SegmentationOfWords(s);
  }

  /** A text has no words exactly when it is all whitespace. */
  lemma {:induction false} NoWordsIffBlank(s: string)
    ensures Words(s) == [] <==> AllSpace(s)
  {
    if AllSpace(s) {
      BlankHasNoWords(s);
    }
    if Words(s) == [] {
      SegmentationOfWords(s);
      assert s == Gaps(s)[0];
    }
  }

  lemma {:induction false} SegmentationExtendLast(s: string, g: seq<string>, ws: seq<string>, q: string)
    requires IsSegmentation(s, g, ws) && AllSpace(q)
    ensures IsSegmentation(s + q, g[..|g| - 1] + [g[|g| - 1] + q], ws)
  {
    var n := |g| - 1;
    var g' := g[..n] + [g[n] + q];
    WeaveLastGap(g, ws, q);
    AllSpaceConcat(g[n], q);
    assert forall i :: 0 <= i < n ==> g'[i] == g[i];
    assert GapList(g') by {
      forall i | 0 <= i < |g'| ensures AllSpace(g'[i]) {
        if i < n { assert g'[i] == g[i]; } else { assert g'[i] == g[n] + q; }
      }
    }
    assert InnerGapsNonEmpty(g') by {
      forall i | 0 < i < |g'| - 1 ensures g'[i] != [] {
        assert g'[i] == g[i];
      }
    }
  }

  /** Trailing whitespace contributes no word. */
  lemma {:induction false} WordsTrailingSpace(x: string, sp: string)
    requires AllSpace(sp)
    ensures Words(x + sp) == Words(x)
  {
    SegmentationOfWords(x);
    var g := Gaps(x);
    SegmentationExtendLast(x, g, Words(x), sp);
    WordsOfSegmentation(x + sp, g[..|g| - 1] + [g[|g| - 1] + sp], Words(x));
  }

  /** Trimming keeps the words of a text. */
  lemma {:induction false} WordsOfTrim(s: string)
    ensures Words(Trim(s)) == Words(s)
  {
    var t := SkipSpace(s);
    var r := TrimEnd(t);
    assert Trim(s) == r;
    WordsSkipSpace(s);
    PrefixSplit(r, t);
    WordsTrailingSpace(r, t[|r|..]);
  }

  /** The first piece of a text that holds whitespace, and the text after the run that ends it. */
  lemma {:induction false} SplitFirstPiece(s: string) returns (w: string, u: string)
    requires s[|TakeWord(s)|..] != []
    ensures w == TakeWord(s) && u == SkipSpace(s[|w|..]) && |u| < |s|
    ensures SplitRaw(s) == [w] + SplitRaw(u)
    ensures Words(s) == (if w != [] then [w] else []) + Words(u)
  {
    w := TakeWord(s);
    u := SkipSpace(s[|w|..]);
    NonEmptyCons(w, SplitRaw(u));
  }

  lemma {:induction false} FirstPieceEmpty(s: string)
    requires s != []
    ensures TakeWord(s) == [] <==> IsSpace(s[0])
  {
    if !IsSpace(s[0]) {
      assert TakeWord(s) == [s[0]] + TakeWord(s[1..]);
    }
  }

  lemma {:induction false} SkipSpaceLast(r: string)
    requires r != []
    ensures var u := SkipSpace(r); (u == [] ==> IsSpace(r[|r| - 1])) && (u != [] ==> u[|u| - 1] == r[|r| - 1])
  {
    var u := SkipSpace(r);
    if u == [] {
      assert r[..|r| - |u|] == r;
    } else {
      assert u == r[|r| - |u|..];
    }
  }

  /** 1 when `split(/\s+/)` starts with an empty piece: a leading whitespace run, or the empty text. */
  function LeadingEmptyPiece(s: string): nat
  {
    if s == [] || IsSpace(s[0]) then 1 else 0
  }

  /** 1 when `split(/\s+/)` ends with an empty piece after a trailing whitespace run. */
  function TrailingEmptyPiece(s: string): nat
  {
    if s != [] && IsSpace(s[|s| - 1]) then 1 else 0
  }

  lemma {:induction false} LeadStep(s: string)
    requires s[|TakeWord(s)|..] != []
    ensures |Words(s)| + LeadingEmptyPiece(s) == 1 + |Words(SkipSpace(s[|TakeWord(s)|..]))|
  {
    var w, u := SplitFirstPiece(s);
    FirstPieceEmpty(s);
  }

  lemma {:induction false} TrailStep(s: string)
    requires s[|TakeWord(s)|..] != []
    ensures var u := SkipSpace(s[|TakeWord(s)|..]);
      TrailingEmptyPiece(s) == LeadingEmptyPiece(u) + TrailingEmptyPiece(u)
  {
    var rest := s[|TakeWord(s)|..];
    SkipSpaceLast(rest);
    assert rest[|rest| - 1] == s[|s| - 1];
  }

  /**
   * The unfiltered split counts one piece more than there are words for a
   * leading whitespace run (or an empty text) and one more for a trailing run.
   */
  lemma {:induction false} SplitRawCount(s: string)
    ensures |SplitRaw(s)| == |Words(s)| + LeadingEmptyPiece(s) + TrailingEmptyPiece(s)
    decreases |s|
  {
    if s[|TakeWord(s)|..] == [] {
      var w := TakeWord(s);
      assert SplitRaw(s) == [w];
      NonEmptyCons(w, []);
      PrefixSplit(w, s);
      assert s == w;
    } else {
      var w, u := SplitFirstPiece(s);
      SplitRawCount(u);
      LeadStep(s);
      TrailStep(s);
    }
  }
}
