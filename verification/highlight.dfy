/**
 Keyword highlighting: split a text into highlighted and plain spans, scanning
 left to right for case-insensitive, non-overlapping occurrences of a keyword.

 The source implements the split twice, in the highlighting text view and in
 the list view-model; both are modelled here against one definition, `Split`.
 Occurrences are searched in the lowered text and the ORIGINAL text is sliced
 at the same positions, which is sound because `LowerStr` keeps lengths.
 */
module Highlight {
  import opened Wrappers
  import opened Text

  datatype Span = Span(text: string, isHighlighted: bool)

  /** The span texts joined in order: what the reader sees. */
  function Concat(spans: seq<Span>): string {
    if |spans| == 0 then "" else spans[0].text + Concat(spans[1..])
  }

  lemma {:induction false} ConcatAppend(a: seq<Span>, b: seq<Span>)
    ensures Concat(a + b) == Concat(a) + Concat(b)
  {
    if |a| == 0 {
      assert a + b == b;
    } else {
      assert (a + b)[1..] == a[1..] + b;
      ConcatAppend(a[1..], b);
    }
  }

  /** The spans one round of the scan emits: the plain text before the match at `p`, if any, then the match. */
  function Round(text: string, i: nat, p: nat, n: nat): seq<Span>
    requires i <= p && p + n <= |text|
  {
    (if i < p then [Span(text[i..p], false)] else []) + [Span(text[p..p + n], true)]
  }

  /**
   The spans of `text[i..]`: plain text up to the next occurrence of `key` in
   `low`, the occurrence itself highlighted, then the rest after it.
   */
  function SpansFrom(text: string, low: string, key: string, i: nat): seq<Span>
    requires |low| == |text| && i <= |text|
    decreases |text| - i
  {
    match FindFrom(low, key, i)
    case Some(p) => Round(text, i, p, |key|) + SpansFrom(text, low, key, p + |key|)
    case None => if i < |text| then [Span(text[i..], false)] else []
  }

  /** `splitText`: the spans of the whole text, or the text as one plain span if there are none. */
  function Split(text: string, keyword: string): seq<Span> {
    var spans := SpansFrom(text, LowerStr(text), LowerStr(keyword), 0);
    if |spans| == 0 then [Span(text, false)] else spans
  }

  /**
   Walking the spans from position `at` of `low`: each highlighted span starts
   an occurrence of `key`, and no occurrence starts inside a plain span.
   */
  ghost predicate Greedy(spans: seq<Span>, low: string, key: string, at: nat)
    decreases |spans|
  {
    |spans| == 0 ||
    (&& (if spans[0].isHighlighted then OccursAt(low, key, at)
         else forall q :: at <= q < at + |spans[0].text| ==> !OccursAt(low, key, q))
     && Greedy(spans[1..], low, key, at + |spans[0].text|))
  }

  /** No two neighbouring spans are both plain. */
  predicate NoAdjacentPlain(spans: seq<Span>) {
    forall j :: 0 <= j < |spans| - 1 ==> spans[j].isHighlighted || spans[j + 1].isHighlighted
  }

  /** Every highlighted span lowers to `key`. */
  predicate HighlightsMatch(spans: seq<Span>, key: string) {
    forall j :: 0 <= j < |spans| && spans[j].isHighlighted ==> LowerStr(spans[j].text) == key
  }

  predicate NoEmptySpan(spans: seq<Span>) {
    forall j :: 0 <= j < |spans| ==> spans[j].text != ""
  }

  predicate HasHighlight(spans: seq<Span>) {
    exists j :: 0 <= j < |spans| && spans[j].isHighlighted
  }

  lemma NoEmptySpanAppend(a: seq<Span>, b: seq<Span>)
    requires NoEmptySpan(a) && NoEmptySpan(b)
    ensures NoEmptySpan(a + b)
  {
  }

  lemma HighlightsMatchAppend(a: seq<Span>, b: seq<Span>, key: string)
    requires HighlightsMatch(a, key) && HighlightsMatch(b, key)
    ensures HighlightsMatch(a + b, key)
  {
  }

  lemma NoAdjacentPlainAppend(a: seq<Span>, b: seq<Span>)
    requires NoAdjacentPlain(a) && NoAdjacentPlain(b)
    requires |a| == 0 || |b| == 0 || a[|a| - 1].isHighlighted || b[0].isHighlighted
    ensures NoAdjacentPlain(a + b)
  {
    var c := a + b;
    forall j | 0 <= j < |c| - 1
      ensures c[j].isHighlighted || c[j + 1].isHighlighted
    {
      if j + 1 < |a| {
        assert c[j] == a[j] && c[j + 1] == a[j + 1];
      } else if j >= |a| {
        assert c[j] == b[j - |a|] && c[j + 1] == b[j + 1 - |a|];
      }
    }
  }

  /** A walk over two runs of spans is a walk over the first, then over the second where the first ends. */
  lemma {:induction false} GreedyAppend(a: seq<Span>, b: seq<Span>, low: string, key: string, at: nat)
    requires Greedy(a, low, key, at) && Greedy(b, low, key, at + |Concat(a)|)
    decreases |a|
    ensures Greedy(a + b, low, key, at)
  {
    if |a| == 0 {
      assert a + b == b;
    } else {
      assert (a + b)[1..] == a[1..] + b;
      assert (a + b)[0] == a[0];
      GreedyAppend(a[1..], b, low, key, at + |a[0].text|);
    }
  }

  /** One round: no span is empty, it ends in the highlighted match, and it spells out `text[i..p + n]`. */
  lemma RoundShape(text: string, i: nat, p: nat, n: nat)
    requires i <= p && p + n <= |text| && n > 0
    ensures var r := Round(text, i, p, n);
            && NoEmptySpan(r)
            && NoAdjacentPlain(r)
            && r[|r| - 1] == Span(text[p..p + n], true)
            && Concat(r) == text[i..p + n]
  {
    var r := Round(text, i, p, n);
    var h := Span(text[p..p + n], true);
    assert Concat([h]) == h.text + Concat([]);
    if i < p {
      assert r[1..] == [h];
      assert text[i..p + n] == text[i..p] + text[p..p + n];
    }
  }

  /** A round of the scan follows the leftmost-first search that produced it. */
  lemma RoundGreedy(text: string, low: string, key: string, i: nat)
    requires |low| == |text| && i <= |text| && FindFrom(low, key, i).Some?
    ensures var p := FindFrom(low, key, i).value;
            Greedy(Round(text, i, p, |key|), low, key, i)
  {
    var p := FindFrom(low, key, i).value;
    FindFromFinds(low, key, i);
    var h := [Span(text[p..p + |key|], true)];
    assert Greedy(h, low, key, p) by {
      assert h[1..] == [];
    }
    if i < p {
      var r := Round(text, i, p, |key|);
      assert r[1..] == h;
    }
  }

  /** The scan has no further match: what is left is one plain span, if anything. */
  lemma SpansFromNone(text: string, low: string, key: string, i: nat)
    requires |low| == |text| && i <= |text| && FindFrom(low, key, i).None?
    ensures SpansFrom(text, low, key, i) == if i < |text| then [Span(text[i..], false)] else []
  {
  }

  /** The spans spell out the rest of the text. */
  lemma {:induction false} SpansFromConcat(text: string, low: string, key: string, i: nat)
    requires |low| == |text| && i <= |text|
    decreases |text| - i
    ensures Concat(SpansFrom(text, low, key, i)) == text[i..]
  {
    var f := FindFrom(low, key, i);
    if f.Some? {
      var p := f.value;
      SpansFromConcat(text, low, key, p + |key|);
      RoundShape(text, i, p, |key|);
      ConcatAppend(Round(text, i, p, |key|), SpansFrom(text, low, key, p + |key|));
      assert text[i..] == text[i..p + |key|] + text[p + |key|..];
    } else {
      SpansFromNone(text, low, key, i);
      if i < |text| {
        assert Concat([Span(text[i..], false)]) == text[i..] + Concat([]);
      }
    }
  }

  /** No span is empty. */
  lemma {:induction false} SpansFromNoEmpty(text: string, low: string, key: string, i: nat)
    requires |low| == |text| && i <= |text|
    decreases |text| - i
    ensures NoEmptySpan(SpansFrom(text, low, key, i))
  {
    var f := FindFrom(low, key, i);
    if f.Some? {
      var p := f.value;
      SpansFromNoEmpty(text, low, key, p + |key|);
      RoundShape(text, i, p, |key|);
      NoEmptySpanAppend(Round(text, i, p, |key|), SpansFrom(text, low, key, p + |key|));
    } else {
      SpansFromNone(text, low, key, i);
    }
  }

  /** Plain spans never touch: a highlight separates any two of them. */
  lemma {:induction false} SpansFromApart(text: string, low: string, key: string, i: nat)
    requires |low| == |text| && i <= |text|
    decreases |text| - i
    ensures NoAdjacentPlain(SpansFrom(text, low, key, i))
  {
    var f := FindFrom(low, key, i);
    if f.Some? {
      var p := f.value;
      SpansFromApart(text, low, key, p + |key|);
      RoundShape(text, i, p, |key|);
      NoAdjacentPlainAppend(Round(text, i, p, |key|), SpansFrom(text, low, key, p + |key|));
    } else {
      SpansFromNone(text, low, key, i);
    }
  }

  /** A round whose match lowers to `key` highlights only `key`. */
  lemma RoundMatches(text: string, i: nat, p: nat, n: nat, key: string)
    requires i <= p && p + n <= |text| && LowerStr(text[p..p + n]) == key
    ensures HighlightsMatch(Round(text, i, p, n), key)
  {
    var r := Round(text, i, p, n);
    assert r[|r| - 1].text == text[p..p + n];
  }

  /** Lowering the original text at an occurrence in the lowered text gives the keyword. */
  lemma MatchLowers(text: string, low: string, key: string, p: nat)
    requires low == LowerStr(text) && OccursAt(low, key, p)
    ensures LowerStr(text[p..p + |key|]) == key
  {
    LowerSlice(text, p, p + |key|);
  }

  /** Every highlighted span is the keyword, up to case. */
  lemma {:induction false} SpansFromMatch(text: string, low: string, key: string, i: nat)
    requires low == LowerStr(text) && i <= |text|
    decreases |text| - i
    ensures HighlightsMatch(SpansFrom(text, low, key, i), key)
  {
    var f := FindFrom(low, key, i);
    if f.Some? {
      var p := f.value;
      SpansFromMatch(text, low, key, p + |key|);
      assert OccursAt(low, key, p) by {
        FindFromFinds(low, key, i);
      }
      MatchLowers(text, low, key, p);
      RoundMatches(text, i, p, |key|, key);
      HighlightsMatchAppend(Round(text, i, p, |key|), SpansFrom(text, low, key, p + |key|), key);
    } else {
      SpansFromNone(text, low, key, i);
    }
  }

  /** A highlight appears exactly when the scan finds a match, and a non-empty rest yields some span. */
  lemma SpansFromHighlights(text: string, low: string, key: string, i: nat)
    requires |low| == |text| && i <= |text|
    ensures HasHighlight(SpansFrom(text, low, key, i)) <==> FindFrom(low, key, i).Some?
    ensures i < |text| ==> |SpansFrom(text, low, key, i)| > 0
  {
    var f := FindFrom(low, key, i);
    if f.Some? {
      var p := f.value;
      var r := Round(text, i, p, |key|);
      RoundShape(text, i, p, |key|);
      assert SpansFrom(text, low, key, i)[|r| - 1].isHighlighted;
    } else {
      SpansFromNone(text, low, key, i);
    }
  }

  /** The spans follow the leftmost-first scan of the lowered text. */
  lemma {:induction false} SpansFromGreedy(text: string, low: string, key: string, i: nat)
    requires |low| == |text| && i <= |text| && key != ""
    decreases |text| - i
    ensures Greedy(SpansFrom(text, low, key, i), low, key, i)
  {
    var f := FindFrom(low, key, i);
    if f.Some? {
      var p := f.value;
      SpansFromGreedy(text, low, key, p + |key|);
      RoundGreedy(text, low, key, i);
      RoundShape(text, i, p, |key|);
      GreedyAppend(Round(text, i, p, |key|), SpansFrom(text, low, key, p + |key|), low, key, i);
    } else {
      SpansFromNone(text, low, key, i);
      FindFromFinds(low, key, i);
      if i < |text| {
        assert [Span(text[i..], false)][1..] == [];
      }
    }
  }

  /** The spans spell out the text. */
  lemma SplitConcat(text: string, keyword: string)
    ensures Concat(Split(text, keyword)) == text
  {
    SpansFromConcat(text, LowerStr(text), LowerStr(keyword), 0);
    assert text[0..] == text;
    assert Concat([Span(text, false)]) == text + Concat([]);
  }

  /** What the split promises for every text and keyword. */
  lemma SplitFacts(text: string, keyword: string)
    ensures var r := Split(text, keyword);
            && Concat(r) == text
            && NoAdjacentPlain(r)
            && HighlightsMatch(r, LowerStr(keyword))
            && (keyword != "" ==> Greedy(r, LowerStr(text), LowerStr(keyword), 0))
            && (text != "" ==> NoEmptySpan(r))
            && (text == "" ==> r == [Span("", false)])
  {
    var low := LowerStr(text);
    var key := LowerStr(keyword);
    SplitConcat(text, keyword);
    SpansFromApart(text, low, key, 0);
    SpansFromMatch(text, low, key, 0);
    SpansFromNoEmpty(text, low, key, 0);
    SpansFromHighlights(text, low, key, 0);
    if keyword != "" {
      SpansFromGreedy(text, low, key, 0);
    }
    if |SpansFrom(text, low, key, 0)| == 0 {
      assert [Span(text, false)][1..] == [];
    }
  }

  /** A highlight appears exactly when the keyword occurs case-insensitively. */
  lemma SplitHighlightsIffOccurs(text: string, keyword: string)
    ensures HasHighlight(Split(text, keyword))
        <==> keyword != "" && Contains(LowerStr(text), LowerStr(keyword))
  {
    var low := LowerStr(text);
    var key := LowerStr(keyword);
    SpansFromHighlights(text, low, key, 0);
    if keyword != "" {
      FindFromStartIffContains(low, key);
    }
    if |SpansFrom(text, low, key, 0)| == 0 {
      assert !HasHighlight([Span(text, false)]);
    }
  }

  /** A keyword that does not occur leaves the text as one plain span. */
  lemma SplitWithoutOccurrence(text: string, keyword: string)
    requires keyword == "" || !Contains(LowerStr(text), LowerStr(keyword))
    ensures Split(text, keyword) == [Span(text, false)]
  {
    var low := LowerStr(text);
    var key := LowerStr(keyword);
    if keyword != "" {
      FindFromStartIffContains(low, key);
    }
    SpansFromNone(text, low, key, 0);
    assert text[0..] == text;
  }

  /** Occurrences do not overlap: the scan resumes after each match. */
  lemma SplitExample()
    ensures Split("test test", "test") == [Span("test", true), Span(" ", false), Span("test", true)]
  {
    LowerUnchanged("test test");
    LowerUnchanged("test");
    ExampleSpans();
  }

  /** The example's scan, round by round. */
  lemma ExampleSpans()
    ensures SpansFrom("test test", "test test", "test", 0)
            == [Span("test", true), Span(" ", false), Span("test", true)]
  {
    var text := "test test";
    ExampleMatches();
    var tail := SpansFrom(text, text, "test", 4);
    assert SpansFrom(text, text, "test", 9) == [];
    assert tail == [Span(" ", false), Span("test", true)] by {
      assert text[4..5] == " " && text[5..9] == "test";
    }
    assert text[0..4] == "test";
  }

  /** The searches the example's scan performs. */
  lemma ExampleMatches()
    ensures FindFrom("test test", "test", 0) == Some(0)
    ensures FindFrom("test test", "test", 4) == Some(5)
    ensures FindFrom("test test", "test", 9) == None
  {
    var text := "test test";
    MatchesAtOccurs(text, "test", 0);
    assert text[0..4] == "test";
    MatchesAtOccurs(text, "test", 4);
    assert text[4..8][0] == ' ';
    MatchesAtOccurs(text, "test", 5);
    assert text[5..9] == "test";
  }

  /** One round of the scan moves its spans from the pending ones to the emitted ones. */
  lemma ScanStep(text: string, low: string, key: string, i: nat, emitted: seq<Span>, whole: seq<Span>)
    requires |low| == |text| && i <= |text| && FindFrom(low, key, i).Some?
    requires emitted + SpansFrom(text, low, key, i) == whole
    ensures var p := FindFrom(low, key, i).value;
            && p + |key| <= |text|
            && (emitted + Round(text, i, p, |key|)) + SpansFrom(text, low, key, p + |key|) == whole
  {
  }

  /** When the scan finds nothing more, the plain rest of the text, if any, completes the spans. */
  lemma ScanEnd(text: string, low: string, key: string, i: nat, emitted: seq<Span>, whole: seq<Span>)
    requires |low| == |text| && i <= |text| && FindFrom(low, key, i).None?
    requires emitted + SpansFrom(text, low, key, i) == whole
    ensures (if i < |text| then emitted + [Span(text[i..], false)] else emitted) == whole
  {
  }

  /** The `while let` loop of `HighlightedTextView.splitText`, over the lowered text and keyword. */
  method Scan(text: string, low: string, key: string) returns (result: seq<Span>)
    requires |low| == |text|
    ensures result == SpansFrom(text, low, key, 0)
  {
    result := [];
    var current: nat := 0;
    var found := FindFrom(low, key, current);
    ghost var whole := SpansFrom(text, low, key, 0);
    while found.Some?
      invariant current <= |text|
      invariant found == FindFrom(low, key, current)
      invariant result + SpansFrom(text, low, key, current) == whole
      decreases |text| - current
    {
      var p := found.value;
      ScanStep(text, low, key, current, result, whole);
      result := result + Round(text, current, p, |key|);
      current := p + |key|;
      found := FindFrom(low, key, current);
    }
    ScanEnd(text, low, key, current, result, whole);
    if current < |text| {
      result := result + [Span(text[current..], false)];
    }
  }

  /** `HighlightedTextView.splitText`: the scan, or the whole text as one plain span when it yields nothing. */
  method SplitText(text: string, keyword: string) returns (spans: seq<Span>)
    ensures spans == Split(text, keyword)
    ensures Concat(spans) == text
  {
    var result := Scan(text, LowerStr(text), LowerStr(keyword));
    spans := if |result| == 0 then [Span(text, false)] else result;
    SplitConcat(text, keyword);
  }

  /**
   `MessageListViewModel.highlightedText`: the same loop behind an empty-keyword
   guard. The guard is redundant, because an empty keyword is never found.
   */
  function HighlightedText(text: string, keyword: string): (r: seq<Span>)
    ensures r == Split(text, keyword)
  {
    if keyword == "" then
      SplitWithoutOccurrence(text, keyword);
      [Span(text, false)]
    else Split(text, keyword)
  }

  /** What `HighlightedTextView.body` draws: the plain text, or the styled spans. */
  datatype Rendering = PlainText(text: string) | Styled(spans: seq<Span>)

  function Visible(v: Rendering): string {
    match v
    case PlainText(t) => t
    case Styled(spans) => Concat(spans)
  }

  /** `HighlightedTextView.body`: no splitting for an empty keyword; the visible text is always the input. */
  function Body(text: string, keyword: string): (r: Rendering)
    ensures keyword == "" ==> r == PlainText(text)
    ensures keyword != "" ==> r.Styled? && r.spans == Split(text, keyword)
    ensures Visible(r) == text
  {
    SplitConcat(text, keyword);
    if keyword == "" then PlainText(text) else Styled(Split(text, keyword))
  }
}
