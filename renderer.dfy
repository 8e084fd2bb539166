/** The highlight renderer of the regex tester: it walks the document text and
    the list of match spans together and produces the text with every matched
    span tagged as highlighted. Offsets are byte offsets, as the regex engine
    reports them, so the document is a sequence of bytes. */
module Renderer {

  newtype byte = b: int | 0 <= b < 256

  type Bytes = seq<byte>

  /** One piece of the rendered output: text passed through unchanged, or
      text rendered in the highlight style. */
  datatype Segment = Plain(text: Bytes) | Styled(text: Bytes)

  /** A half-open match span [start, end) into the document. */
  datatype Span = Span(start: int, end: int)

  /** Every span lies inside the document; slicing out of these bounds would
      make the program panic. */
  predicate InBounds(txt: Bytes, spans: seq<Span>) {
    forall k :: 0 <= k < |spans| ==> 0 <= spans[k].start <= spans[k].end <= |txt|
  }

  /** Spans lo..hi-1 come left to right and do not overlap: each span ends
      at or before the next one starts. */
  ghost predicate OrderedRange(spans: seq<Span>, lo: int, hi: int)
    requires 0 <= lo <= hi <= |spans|
  {
    forall k :: lo < k < hi ==> spans[k - 1].end <= spans[k].start
  }

  /** All spans come left to right and do not overlap. */
  ghost predicate Ordered(spans: seq<Span>) {
    OrderedRange(spans, 0, |spans|)
  }

  /** The document text of a rendered output, with the styling erased. */
  function Erase(segs: seq<Segment>): Bytes {
    if |segs| == 0 then [] else segs[0].text + Erase(segs[1..])
  }

  /** The texts of the highlighted segments, in output order. */
  function StyledTexts(segs: seq<Segment>): seq<Bytes> {
    if |segs| == 0 then []
    else (if segs[0].Styled? then [segs[0].text] else []) + StyledTexts(segs[1..])
  }

  /** The matched substrings of the document, one per span, in span order. */
  function MatchedTexts(txt: Bytes, spans: seq<Span>): seq<Bytes>
    requires InBounds(txt, spans)
  {
    seq(|spans|, k requires 0 <= k < |spans| => txt[spans[k].start..spans[k].end])
  }

  /** What the renderer emits once it has consumed the first k spans and its
      cursor is at `cursor`: the gap before span k and span k itself, while
      the span does not start before the cursor; the tail of the document
      once every span is consumed; nothing more as soon as a span starts
      before the cursor. */
  ghost function Emit(txt: Bytes, spans: seq<Span>, k: int, cursor: int): seq<Segment>
    requires InBounds(txt, spans) && 0 <= k <= |spans| && 0 <= cursor <= |txt|
    decreases |spans| - k
  {
    if k == |spans| then [Plain(txt[cursor..])]
    else if cursor <= spans[k].start then
      [Plain(txt[cursor..spans[k].start]), Styled(txt[spans[k].start..spans[k].end])]
        + Emit(txt, spans, k + 1, spans[k].end)
    else []
  }

  /** The rendered output for a document and its match spans. An empty match
      list has its own path in the renderer: the document, verbatim. */
  ghost function Highlight(txt: Bytes, spans: seq<Span>): seq<Segment>
    requires InBounds(txt, spans)
  {
    if spans == [] then [Plain(txt)] else Emit(txt, spans, 0, 0)
  }

  /** The renderer loop: a cursor `i` into the document, the index `currI` of
      the next span, and the output built so far. */
  method Render(txt: Bytes, spans: seq<Span>) returns (out: seq<Segment>)
    requires InBounds(txt, spans)
    ensures out == Highlight(txt, spans)
    ensures spans == [] ==> out == [Plain(txt)] && StyledTexts(out) == []
  {
    var i := 0;
    var currI := 0;
    out := [];
    while |spans| > 0
      invariant 0 <= currI <= |spans|
      invariant i == if currI == 0 then 0 else spans[currI - 1].end
      invariant 0 <= i <= |txt|
      invariant out + Emit(txt, spans, currI, i) == Emit(txt, spans, 0, 0)
      decreases |spans| - currI
    {
      if currI == |spans| {
        assert Emit(txt, spans, currI, i) == [Plain(txt[i..])];
        out := out + [Plain(txt[spans[currI - 1].end..])];
        break;
      }
      if i <= spans[currI].start {
        EmitUnfold(txt, spans, currI, i);
        AppendStep(out, Plain(txt[i..spans[currI].start]),
                   Styled(txt[spans[currI].start..spans[currI].end]),
                   Emit(txt, spans, currI + 1, spans[currI].end), Emit(txt, spans, 0, 0));
        out := out + [Plain(txt[i..spans[currI].start])];
        out := out + [Styled(txt[spans[currI].start..spans[currI].end])];
        i := spans[currI].end;
        currI := currI + 1;
        continue;
      } else {
        EmitStop(txt, spans, currI, i);
        // The rest of the output is empty, so the invariant gives out itself;
        // the explicit step keeps the solver from searching for it.
        assert out + [] == out;
        break;
      }
    }
    if |spans| == 0 {
      out := [Plain(txt)];
    }
  }

  lemma EmitUnfold(txt: Bytes, spans: seq<Span>, k: int, c: int)
    requires InBounds(txt, spans) && 0 <= k < |spans| && 0 <= c <= spans[k].start
    ensures Emit(txt, spans, k, c)
         == [Plain(txt[c..spans[k].start]), Styled(txt[spans[k].start..spans[k].end])]
            + Emit(txt, spans, k + 1, spans[k].end)
  {
  }

  lemma EmitStop(txt: Bytes, spans: seq<Span>, k: int, c: int)
    requires InBounds(txt, spans) && 0 <= k < |spans| && spans[k].start < c <= |txt|
    ensures Emit(txt, spans, k, c) == []
  {
  }

  lemma AppendStep(out: seq<Segment>, gap: Segment, hit: Segment, rest: seq<Segment>, goal: seq<Segment>)
    requires out + ([gap, hit] + rest) == goal
    ensures out + [gap] + [hit] + rest == goal
  {
    assert out + [gap] + [hit] + rest == out + ([gap, hit] + rest);
  }

  lemma {:induction false} EraseAppend(a: seq<Segment>, b: seq<Segment>)
    ensures Erase(a + b) == Erase(a) + Erase(b)
  {
    if a == [] {
      assert a + b == b;
    } else {
      assert (a + b)[0] == a[0] && (a + b)[1..] == a[1..] + b;
      EraseAppend(a[1..], b);
    }
  }

  lemma {:induction false} StyledAppend(a: seq<Segment>, b: seq<Segment>)
    ensures StyledTexts(a + b) == StyledTexts(a) + StyledTexts(b)
  {
    if a == [] {
      assert a + b == b;
    } else {
      assert (a + b)[0] == a[0] && (a + b)[1..] == a[1..] + b;
      StyledAppend(a[1..], b);
    }
  }

  lemma SliceJoin(t: Bytes, a: int, b: int, c: int, d: int)
    requires 0 <= a <= b <= c <= d <= |t|
    ensures t[a..b] + t[b..c] + t[c..d] == t[a..d]
  {
  }

  /** A gap and a match followed by nothing: the `+ []` is the erased empty
      rest of the output, kept in the form the callers produce it in. */
  lemma PairJoin(t: Bytes, a: int, b: int, c: int)
    requires 0 <= a <= b <= c <= |t|
    ensures t[a..b] + t[b..c] + [] == t[a..c]
  {
  }

  lemma TailJoin(t: Bytes, a: int, b: int, c: int)
    requires 0 <= a <= b <= c <= |t|
    ensures t[a..b] + t[b..c] + t[c..] == t[a..]
  {
  }

  lemma MatchedStep(txt: Bytes, spans: seq<Span>, j: int, k: int)
    requires InBounds(txt, spans) && 0 <= j < k <= |spans|
    ensures MatchedTexts(txt, spans)[j..k]
         == [txt[spans[j].start..spans[j].end]] + MatchedTexts(txt, spans)[j + 1..k]
    ensures k == |spans| ==>
      MatchedTexts(txt, spans)[j..] == [txt[spans[j].start..spans[j].end]] + MatchedTexts(txt, spans)[j + 1..]
  {
    var m := MatchedTexts(txt, spans);
    assert m[j..k] == [m[j]] + m[j + 1..k];
  }

  lemma PrefixExtend(p: Bytes, x: Bytes, y: Bytes)
    requires x <= y
    ensures p + x <= p + y
  {
    assert p + y == (p + x) + y[|x|..];
  }

  /** One step of the renderer, seen through Erase: the gap before span k,
      the span, and what follows from its end. */
  lemma EraseStep(txt: Bytes, spans: seq<Span>, k: int, c: int)
    requires InBounds(txt, spans) && 0 <= k < |spans| && 0 <= c <= spans[k].start
    ensures Erase(Emit(txt, spans, k, c))
         == txt[c..spans[k].start] + txt[spans[k].start..spans[k].end]
            + Erase(Emit(txt, spans, k + 1, spans[k].end))
  {
    var s := spans[k];
    var head := [Plain(txt[c..s.start]), Styled(txt[s.start..s.end])];
    EraseAppend(head, Emit(txt, spans, k + 1, s.end));
    assert Erase(head) == txt[c..s.start] + txt[s.start..s.end];
  }

  /** The same step seen through StyledTexts: span k is highlighted. */
  lemma StyledStep(txt: Bytes, spans: seq<Span>, k: int, c: int)
    requires InBounds(txt, spans) && 0 <= k < |spans| && 0 <= c <= spans[k].start
    ensures StyledTexts(Emit(txt, spans, k, c))
         == [txt[spans[k].start..spans[k].end]] + StyledTexts(Emit(txt, spans, k + 1, spans[k].end))
  {
    var s := spans[k];
    var head := [Plain(txt[c..s.start]), Styled(txt[s.start..s.end])];
    StyledAppend(head, Emit(txt, spans, k + 1, s.end));
    assert StyledTexts(head) == [txt[s.start..s.end]];
  }

  /** Once every span is consumed, the renderer emits the tail as one plain
      segment. */
  lemma EmitEnd(txt: Bytes, spans: seq<Span>, c: int)
    requires InBounds(txt, spans) && 0 <= c <= |txt|
    ensures Erase(Emit(txt, spans, |spans|, c)) == txt[c..]
    ensures StyledTexts(Emit(txt, spans, |spans|, c)) == []
  {
    assert Erase([Plain(txt[c..])]) == txt[c..] + Erase([]);
    assert StyledTexts([Plain(txt[c..])]) == [] + StyledTexts([]);
  }

  /** From span k on, with the cursor at or before span k and the remaining
      spans well-ordered, the renderer reproduces the rest of the document. */
  lemma {:induction false} EmitOrderedErase(txt: Bytes, spans: seq<Span>, k: int, c: int)
    requires InBounds(txt, spans) && 0 <= k <= |spans| && 0 <= c <= |txt|
    requires OrderedRange(spans, k, |spans|)
    requires k < |spans| ==> c <= spans[k].start
    ensures Erase(Emit(txt, spans, k, c)) == txt[c..]
    decreases |spans| - k
  {
    if k == |spans| {
      EmitEnd(txt, spans, c);
    } else {
      var s := spans[k];
      assert k + 1 < |spans| ==> s.end <= spans[k + 1].start;
      EmitOrderedErase(txt, spans, k + 1, s.end);
      EraseStep(txt, spans, k, c);
      TailJoin(txt, c, s.start, s.end);
    }
  }

  /** Under the same conditions, every remaining span is highlighted, in
      order, and each contributes one gap and one highlighted segment. */
  lemma {:induction false} EmitOrderedStyled(txt: Bytes, spans: seq<Span>, k: int, c: int)
    requires InBounds(txt, spans) && 0 <= k <= |spans| && 0 <= c <= |txt|
    requires OrderedRange(spans, k, |spans|)
    requires k < |spans| ==> c <= spans[k].start
    ensures StyledTexts(Emit(txt, spans, k, c)) == MatchedTexts(txt, spans)[k..]
    ensures |Emit(txt, spans, k, c)| == 2 * (|spans| - k) + 1
    decreases |spans| - k
  {
    if k == |spans| {
      EmitEnd(txt, spans, c);
    } else {
      var s := spans[k];
      StyledStep(txt, spans, k, c);
      EmitOrderedStyled(txt, spans, k + 1, s.end);
      MatchedStep(txt, spans, k, |spans|);
    }
  }

  /** Where the plain gap before span j starts, when rendering from span k
      with the cursor at c: the cursor for the first span, the end of the
      previous span for every later one. */
  function GapStart(spans: seq<Span>, k: int, c: int, j: int): int
    requires 0 <= k <= j <= |spans|
  {
    if j == k then c else spans[j - 1].end
  }

  /** The layout of the output for well-ordered spans, one span at a time:
      segment 2(j-k) is the plain gap before span j and segment 2(j-k)+1 is
      span j highlighted. */
  lemma {:induction false} EmitOrderedAt(txt: Bytes, spans: seq<Span>, k: int, c: int, j: int)
    requires InBounds(txt, spans) && 0 <= k <= j < |spans| && 0 <= c <= |txt|
    requires OrderedRange(spans, k, |spans|) && c <= spans[k].start
    ensures 2 * (j - k) + 1 < |Emit(txt, spans, k, c)|
    ensures GapStart(spans, k, c, j) <= spans[j].start
    ensures Emit(txt, spans, k, c)[2 * (j - k)] == Plain(txt[GapStart(spans, k, c, j)..spans[j].start])
    ensures Emit(txt, spans, k, c)[2 * (j - k) + 1] == Styled(txt[spans[j].start..spans[j].end])
    decreases j - k
  {
    var s := spans[k];
    EmitUnfold(txt, spans, k, c);
    if j > k {
      assert s.end <= spans[k + 1].start;
      EmitOrderedAt(txt, spans, k + 1, s.end, j);
      assert GapStart(spans, k, c, j) == GapStart(spans, k + 1, s.end, j);
    }
  }

  /** ... and the last segment is the plain tail after the last span. */
  lemma {:induction false} EmitOrderedTail(txt: Bytes, spans: seq<Span>, k: int, c: int)
    requires InBounds(txt, spans) && 0 <= k <= |spans| && 0 <= c <= |txt|
    requires OrderedRange(spans, k, |spans|)
    requires k < |spans| ==> c <= spans[k].start
    ensures 2 * (|spans| - k) < |Emit(txt, spans, k, c)|
    ensures GapStart(spans, k, c, |spans|) <= |txt|
    ensures Emit(txt, spans, k, c)[2 * (|spans| - k)] == Plain(txt[GapStart(spans, k, c, |spans|)..])
    decreases |spans| - k
  {
    if k < |spans| {
      var s := spans[k];
      EmitUnfold(txt, spans, k, c);
      assert k + 1 < |spans| ==> s.end <= spans[k + 1].start;
      EmitOrderedTail(txt, spans, k + 1, s.end);
      assert GapStart(spans, k, c, |spans|) == GapStart(spans, k + 1, s.end, |spans|);
    }
  }

  /** The segment-by-segment layout of the output for well-ordered spans:
      segment 2j is the plain gap before span j (from the end of span j-1,
      or from the start of the document for j = 0), segment 2j+1 is span j
      highlighted, and segment 2n is the plain tail after the last span. So
      every byte inside a span is highlighted and every other byte is not. */
  lemma HighlightLayout(txt: Bytes, spans: seq<Span>)
    requires InBounds(txt, spans) && Ordered(spans)
    ensures |Highlight(txt, spans)| == 2 * |spans| + 1
    ensures forall j :: 0 <= j < |spans| ==>
      && GapStart(spans, 0, 0, j) <= spans[j].start
      && Highlight(txt, spans)[2 * j] == Plain(txt[GapStart(spans, 0, 0, j)..spans[j].start])
      && Highlight(txt, spans)[2 * j + 1] == Styled(txt[spans[j].start..spans[j].end])
    ensures GapStart(spans, 0, 0, |spans|) <= |txt|
    ensures Highlight(txt, spans)[2 * |spans|] == Plain(txt[GapStart(spans, 0, 0, |spans|)..])
  {
    if spans == [] {
      assert txt[0..] == txt;
    } else {
      EmitOrderedStyled(txt, spans, 0, 0);
      forall j | 0 <= j < |spans|
        ensures GapStart(spans, 0, 0, j) <= spans[j].start
        ensures Highlight(txt, spans)[2 * j] == Plain(txt[GapStart(spans, 0, 0, j)..spans[j].start])
        ensures Highlight(txt, spans)[2 * j + 1] == Styled(txt[spans[j].start..spans[j].end])
      {
        EmitOrderedAt(txt, spans, 0, 0, j);
      }
      EmitOrderedTail(txt, spans, 0, 0);
    }
  }

  /** Rendering well-ordered spans and erasing the styling gives back the
      document exactly; the output holds one highlighted segment per span,
      equal to the matched text, in span order, with a plain gap before each
      and the tail after the last, each at its position in the output. */
  lemma HighlightOrdered(txt: Bytes, spans: seq<Span>)
    requires InBounds(txt, spans) && Ordered(spans)
    ensures Erase(Highlight(txt, spans)) == txt
    ensures StyledTexts(Highlight(txt, spans)) == MatchedTexts(txt, spans)
    ensures |Highlight(txt, spans)| == 2 * |spans| + 1
    ensures forall j :: 0 <= j < |spans| ==>
      && GapStart(spans, 0, 0, j) <= spans[j].start
      && Highlight(txt, spans)[2 * j] == Plain(txt[GapStart(spans, 0, 0, j)..spans[j].start])
      && Highlight(txt, spans)[2 * j + 1] == Styled(txt[spans[j].start..spans[j].end])
    ensures GapStart(spans, 0, 0, |spans|) <= |txt|
    ensures Highlight(txt, spans)[2 * |spans|] == Plain(txt[GapStart(spans, 0, 0, |spans|)..])
  {
    EmitOrderedErase(txt, spans, 0, 0);
    EmitOrderedStyled(txt, spans, 0, 0);
    HighlightLayout(txt, spans);
  }

  /** Whatever the spans, the erased output is a prefix of the document from
      the cursor on. */
  lemma {:induction false} EmitPrefix(txt: Bytes, spans: seq<Span>, k: int, c: int)
    requires InBounds(txt, spans) && 0 <= k <= |spans| && 0 <= c <= |txt|
    ensures Erase(Emit(txt, spans, k, c)) <= txt[c..]
    decreases |spans| - k
  {
    if k == |spans| {
      EmitEnd(txt, spans, c);
    } else if c <= spans[k].start {
      var s := spans[k];
      EraseStep(txt, spans, k, c);
      EmitPrefix(txt, spans, k + 1, s.end);
      TailJoin(txt, c, s.start, s.end);
      PrefixExtend(txt[c..s.start] + txt[s.start..s.end], Erase(Emit(txt, spans, k + 1, s.end)), txt[s.end..]);
    }
  }

  lemma HighlightPrefix(txt: Bytes, spans: seq<Span>)
    requires InBounds(txt, spans)
    ensures Erase(Highlight(txt, spans)) <= txt
  {
    if spans == [] {
      assert Erase([Plain(txt)]) == txt + Erase([]);
    } else {
      EmitPrefix(txt, spans, 0, 0);
    }
  }

  /** Spans j..k-1 are well-ordered, the cursor is at or before span j, and
      span k starts before the end of span k-1: the renderer emits spans
      j..k-1 and stops there, so the erased output ends at span k-1. */
  lemma {:induction false} EmitTruncatedErase(txt: Bytes, spans: seq<Span>, j: int, c: int, k: int)
    requires InBounds(txt, spans) && 0 <= c <= |txt|
    requires 0 <= j < k < |spans| && c <= spans[j].start
    requires OrderedRange(spans, j, k) && spans[k].start < spans[k - 1].end
    ensures c <= spans[k - 1].end && Erase(Emit(txt, spans, j, c)) == txt[c..spans[k - 1].end]
    decreases k - j
  {
    var s := spans[j];
    EraseStep(txt, spans, j, c);
    if j + 1 == k {
      EmitStop(txt, spans, k, s.end);
      assert Erase(Emit(txt, spans, k, s.end)) == [];
      PairJoin(txt, c, s.start, s.end);
    } else {
      EmitTruncatedErase(txt, spans, j + 1, s.end, k);
      SliceJoin(txt, c, s.start, s.end, spans[k - 1].end);
    }
  }

  /** Under the same conditions, exactly spans j..k-1 are highlighted. */
  lemma {:induction false} EmitTruncatedStyled(txt: Bytes, spans: seq<Span>, j: int, c: int, k: int)
    requires InBounds(txt, spans) && 0 <= c <= |txt|
    requires 0 <= j < k < |spans| && c <= spans[j].start
    requires OrderedRange(spans, j, k) && spans[k].start < spans[k - 1].end
    ensures StyledTexts(Emit(txt, spans, j, c)) == MatchedTexts(txt, spans)[j..k]
    decreases k - j
  {
    var s := spans[j];
    StyledStep(txt, spans, j, c);
    MatchedStep(txt, spans, j, k);
    if j + 1 == k {
      EmitStop(txt, spans, k, s.end);
      assert StyledTexts(Emit(txt, spans, k, s.end)) == [];
    } else {
      EmitTruncatedStyled(txt, spans, j + 1, s.end, k);
    }
  }

  /** Before a violation at span k, the output has one gap and one
      highlighted segment for each of spans j..k-1 and nothing else: no tail. */
  lemma {:induction false} EmitTruncatedLength(txt: Bytes, spans: seq<Span>, j: int, c: int, k: int)
    requires InBounds(txt, spans) && 0 <= c <= |txt|
    requires 0 <= j < k < |spans| && c <= spans[j].start
    requires OrderedRange(spans, j, k) && spans[k].start < spans[k - 1].end
    ensures |Emit(txt, spans, j, c)| == 2 * (k - j)
    decreases k - j
  {
    var s := spans[j];
    EmitUnfold(txt, spans, j, c);
    if j + 1 == k {
      EmitStop(txt, spans, k, s.end);
    } else {
      EmitTruncatedLength(txt, spans, j + 1, s.end, k);
    }
  }

  /** ... and segments 2(i-j) and 2(i-j)+1 are the plain gap before span i
      and span i highlighted, exactly as in the ordered case. */
  lemma {:induction false} EmitTruncatedAt(txt: Bytes, spans: seq<Span>, j: int, c: int, k: int, i: int)
    requires InBounds(txt, spans) && 0 <= c <= |txt|
    requires 0 <= j <= i < k < |spans| && c <= spans[j].start
    requires OrderedRange(spans, j, k) && spans[k].start < spans[k - 1].end
    ensures 2 * (i - j) + 1 < |Emit(txt, spans, j, c)|
    ensures GapStart(spans, j, c, i) <= spans[i].start
    ensures Emit(txt, spans, j, c)[2 * (i - j)] == Plain(txt[GapStart(spans, j, c, i)..spans[i].start])
    ensures Emit(txt, spans, j, c)[2 * (i - j) + 1] == Styled(txt[spans[i].start..spans[i].end])
    decreases i - j
  {
    var s := spans[j];
    EmitUnfold(txt, spans, j, c);
    if i > j {
      assert s.end <= spans[j + 1].start;
      EmitTruncatedAt(txt, spans, j + 1, s.end, k, i);
      assert GapStart(spans, j, c, i) == GapStart(spans, j + 1, s.end, i);
    }
  }

  /** Fail-closed rendering: at the first span that starts before the end of
      the previous one, the output stops; the erased output is the document up
      to the end of the previous span and the rest of the document is dropped.
      Segment by segment, spans 0..k-1 are laid out as in the ordered case. */
  lemma HighlightTruncated(txt: Bytes, spans: seq<Span>, k: int)
    requires InBounds(txt, spans)
    requires 0 < k < |spans|
    requires OrderedRange(spans, 0, k) && spans[k].start < spans[k - 1].end
    ensures Erase(Highlight(txt, spans)) == txt[..spans[k - 1].end]
    ensures StyledTexts(Highlight(txt, spans)) == MatchedTexts(txt, spans)[..k]
    ensures |Highlight(txt, spans)| == 2 * k
    ensures forall j :: 0 <= j < k ==>
      && GapStart(spans, 0, 0, j) <= spans[j].start
      && Highlight(txt, spans)[2 * j] == Plain(txt[GapStart(spans, 0, 0, j)..spans[j].start])
      && Highlight(txt, spans)[2 * j + 1] == Styled(txt[spans[j].start..spans[j].end])
  {
    EmitTruncatedErase(txt, spans, 0, 0, k);
    EmitTruncatedStyled(txt, spans, 0, 0, k);
    EmitTruncatedLength(txt, spans, 0, 0, k);
    forall j | 0 <= j < k
      ensures GapStart(spans, 0, 0, j) <= spans[j].start
      ensures Highlight(txt, spans)[2 * j] == Plain(txt[GapStart(spans, 0, 0, j)..spans[j].start])
      ensures Highlight(txt, spans)[2 * j + 1] == Styled(txt[spans[j].start..spans[j].end])
    {
      EmitTruncatedAt(txt, spans, 0, 0, k, j);
    }
  }

  lemma {:induction false} EmitComplete(txt: Bytes, spans: seq<Span>, k: int, c: int)
    requires InBounds(txt, spans) && 0 <= k <= |spans| && 0 <= c <= |txt|
    ensures |StyledTexts(Emit(txt, spans, k, c))| == |spans| - k
        <==> OrderedRange(spans, k, |spans|) && (k < |spans| ==> c <= spans[k].start)
    decreases |spans| - k
  {
    if k == |spans| {
      EmitEnd(txt, spans, c);
    } else if c <= spans[k].start {
      StyledStep(txt, spans, k, c);
      EmitComplete(txt, spans, k + 1, spans[k].end);
    } else {
      assert StyledTexts([]) == [];
    }
  }

  /** The renderer highlights every span exactly when the spans are
      well-ordered; otherwise it highlights fewer. */
  lemma HighlightCompleteIffOrdered(txt: Bytes, spans: seq<Span>)
    requires InBounds(txt, spans)
    ensures |StyledTexts(Highlight(txt, spans))| == |spans| <==> Ordered(spans)
  {
    if spans == [] {
      assert StyledTexts([Plain(txt)]) == [] + StyledTexts([]);
    } else {
      EmitComplete(txt, spans, 0, 0);
    }
  }

  /** The bytes of an ASCII string. */
  function Ascii(s: string): Bytes
    requires forall i :: 0 <= i < |s| ==> s[i] as int < 128
  {
    seq(|s|, i requires 0 <= i < |s| => s[i] as int as byte)
  }

  /** "c.t" over "the cat sat" matches "cat" at [4, 7): the output is the gap,
      the highlighted match and the tail. */
  lemma CatExample()
    ensures Highlight(Ascii("the cat sat"), [Span(4, 7)])
         == [Plain(Ascii("the ")), Styled(Ascii("cat")), Plain(Ascii(" sat"))]
  {
    var txt := Ascii("the cat sat");
    assert Emit(txt, [Span(4, 7)], 1, 7) == [Plain(txt[7..])];
    assert txt[0..4] == Ascii("the ");
    assert txt[4..7] == Ascii("cat");
    assert txt[7..] == Ascii(" sat");
  }

  /** "a" over "aaa" matches at 0, 1 and 2: three separate highlighted
      segments, never merged into one. */
  lemma AdjacentMatchesExample()
    ensures Highlight(Ascii("aaa"), [Span(0, 1), Span(1, 2), Span(2, 3)])
         == [Plain([]), Styled(Ascii("a")), Plain([]), Styled(Ascii("a")),
             Plain([]), Styled(Ascii("a")), Plain([])]
  {
    var txt := Ascii("aaa");
    var spans := [Span(0, 1), Span(1, 2), Span(2, 3)];
    assert txt[0..1] == txt[1..2] == txt[2..3] == Ascii("a");
    assert txt[0..0] == txt[1..1] == txt[2..2] == txt[3..] == [];
    assert Emit(txt, spans, 3, 3) == [Plain([])];
    assert Emit(txt, spans, 2, 2) == [Plain([]), Styled(Ascii("a")), Plain([])];
    assert Emit(txt, spans, 1, 1)
        == [Plain([]), Styled(Ascii("a")), Plain([]), Styled(Ascii("a")), Plain([])];
  }
}
