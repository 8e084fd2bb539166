# rx — a live regex tester, modelled in Dafny

`rx` is a terminal program with two fields. The user types a regular
expression in one field and free text (the document) in the other. A panel
below shows the document with every match of the expression highlighted.
This project models the part of `main.go` that has logic of its own:

- the **highlight renderer**, the loop that builds the output from the
  document and the match offsets;
- the **event handler** `model.Update`: Tab switches focus, Esc and Ctrl-C
  quit, an error message is recorded, a resize lays out the fields, and a
  memo of the last pattern and document decides whether to recompile;
- the **layout sizer** `sizeInputs`, integer arithmetic from the terminal
  size to the document field and output panel dimensions.

Two modules:

- `Renderer` (`renderer.dfy`): bytes, output segments, match spans, the
  reference definition `Highlight` (built on `Emit`), the loop `Render`
  proved equal to it, and the lemmas about what `Highlight` produces.
- `Tester` (`tester.dfy`): the `Model` class, its fields updated in place by
  `ToggleFocus`, `SizeInputs`, `Dispatch`, `Refresh` and `Update`. Two client
  methods show what callers can prove from those contracts alone.

Modelling choices:

- **Bytes.** Go slices strings by byte, and the matcher reports byte
  offsets, so the document is a `seq<byte>`.
- **Segments.** The output is a `seq<Segment>`. Each `out +=` of the source
  appends one `Plain` segment (text passed through) or one `Styled` segment
  (text given to the highlight style).
- **Regex engine as an oracle.** Each event carries a `CompileResult`: a
  compile error message, or the list of match spans. The field widgets'
  editing is also an input: `newRegex` and `newText` are the field values
  after the widgets have processed the event.
- **The matcher field.** It is stored as the pattern text it was compiled
  from; `None` stands for the nil matcher.
- **Panel dimensions.** In the source, the panel's width and height are set
  on a package-level style. Here they are fields of `Model`.

Three behaviours of the code worth noting:

- On a compile error, the code overwrites the matcher with the failed
  (nil) result (`main.go:104-105`). It does not keep the previous one.
  The previous output *is* kept, and the memo does not advance: the early
  return at `main.go:107-108` skips the rendering and the memo update
  (`main.go:110-136`). So editing the pattern back to the last
  valid one is a memo hit (`main.go:103`): nothing is recompiled, the
  compile error stays on screen (`main.go:149-150`) and the matcher stays nil
  until the pattern or the document changes again.
- The memo is checked only for events that reach the widgets. Esc, Ctrl-C
  and error messages return before it (`main.go:73-76`, `92-94`).
- The initial memo pattern is `"."`, but the pattern field starts empty
  (`main.go:45-49`). So the first event that reaches the memo check always
  re-runs the pipeline.

## Model

| member | source | states |
|---|---|---|
| `Renderer.Render` | main.go:110-133 | The renderer loop (cursor `i`, span index `currI`, accumulated output) produces exactly `Highlight(txt, spans)`. With no matches, the output is the document verbatim as one plain segment, with no styled segment. |
| `Renderer.EmitOrderedErase` | main.go:116-126 | With the spans from k on ordered and not overlapping, and the cursor at or before span k, the erased output is the rest of the document from the cursor. |
| `Renderer.EmitOrderedStyled` | main.go:116-126 | Under the same conditions, the styled texts are the matched substrings of spans k onwards, in span order. The output has 2(n-k)+1 segments. |
| `Renderer.HighlightOrdered` | main.go:113-133 | For ordered, non-overlapping spans, erasing the styling gives back the document exactly. There is exactly one styled segment per span, equal to the matched text, in span order; adjacent matches are not merged. There are 2n+1 segments. Segment 2j is the plain gap before span j, segment 2j+1 is span j highlighted, segment 2n is the plain tail: every byte inside a span is highlighted and no other byte is. |
| `Renderer.EmitPrefix` | main.go:116-129 | Whatever the spans, the erased output from a cursor is a prefix of the document from that cursor. |
| `Renderer.EmitOrderedAt` | main.go:121-124 | With ordered spans from k on and the cursor at or before span k, output segment 2(j-k) is the plain gap before span j (from the cursor, or from the end of span j-1) and segment 2(j-k)+1 is span j highlighted. |
| `Renderer.EmitOrderedTail` | main.go:117-119 | Under the same conditions, segment 2(n-k) is the plain rest of the document after the last span. |
| `Renderer.HighlightLayout` | main.go:113-133 | For ordered spans, the output segment by segment: gap before span j at 2j, span j highlighted at 2j+1, the tail at 2n; with no spans, the whole document as one plain segment. |
| `Renderer.HighlightPrefix` | main.go:113-133 | The erased output is always a prefix of the document: the renderer never invents or reorders text. |
| `Renderer.EmitTruncatedErase` | main.go:121-129 | Suppose span k starts before the end of span k-1, and spans j..k-1 are ordered. Then the output stops at span k, and its erased text runs from the cursor to the end of span k-1. |
| `Renderer.EmitTruncatedStyled` | main.go:121-129 | Under the same conditions, exactly spans j..k-1 are highlighted, each with its matched substring. |
| `Renderer.EmitTruncatedLength` | main.go:121-129 | Before the violation at span k, rendering from span j gives exactly 2(k-j) segments: no tail is emitted. |
| `Renderer.EmitTruncatedAt` | main.go:121-125 | Before the violation, segment 2(i-j) is the plain gap before span i and segment 2(i-j)+1 is span i highlighted. |
| `Renderer.HighlightTruncated` | main.go:121-129 | At the first span k that starts before the end of span k-1 (with the spans before it ordered), the renderer stops and drops the tail. The erased output is the document up to the end of span k-1, and the styled texts are the first k matches. There are exactly 2k segments: at 2j the plain gap before span j, at 2j+1 span j highlighted, for every j < k. |
| `Renderer.EmitComplete` | main.go:116-129 | From a cursor, every span is highlighted exactly when the spans are ordered and the first does not start before the cursor. |
| `Renderer.HighlightCompleteIffOrdered` | main.go:116-133 | Every match span gets its highlighted segment if and only if the spans are ordered with no overlap. |
| `Renderer.CatExample` | main.go:121-130 | "the cat sat" with the match [4,7) renders as plain "the ", highlighted "cat", plain " sat". |
| `Renderer.AdjacentMatchesExample` | main.go:121-130 | "aaa" with matches at 0, 1 and 2 renders three separate highlighted "a" segments, with empty gaps between them. |
| `Tester.HalfTowardZero` | main.go:143-144 | Go's `h/2`: the remainder is 0 or 1 for non-negative h, and 0 or -1 for negative h (truncation toward zero). |
| `Tester.Model.constructor` | main.go:44-59 | Both fields empty, the document field focused and the pattern field not. The matcher is compiled from "."; the memo is "." and the empty document. No error, empty output. |
| `Tester.Model.ToggleFocus` | main.go:77-84 | Tab focuses the field that was not focused and blurs the other, so exactly one field is focused. |
| `Tester.Model.SizeInputs` | main.go:141-145 | Document width = w, document height = h/2 - 1, panel width = w - 2, panel height = h/2 - 2, which is always one less than the document height. For h >= 0 the document takes at most half the height. Nothing else changes. |
| `Tester.Model.Dispatch` | main.go:70-95 | Esc/Ctrl-C quit and change nothing. An error message sets `err` and nothing else, and returns. Tab swaps focus. A resize stores width and height and lays out, leaving focus alone. Other events change nothing here. |
| `Tester.Model.Refresh` | main.go:101-137 | Memo hit: output, error, matcher and memo unchanged. Memo miss with compile error: error set, matcher nil, output kept, memo not advanced. Memo miss with success: error cleared, output = `Highlight(document, spans)`, memo = current values. |
| `Tester.Model.Update` | main.go:66-139 | The whole handler. Quit events touch nothing. Error events only set `err`. Every other event stores the widget values, applies the focus/resize rules and the memo/compile rules above, and keeps exactly one field focused. |
| `Tester.TabTwice` | main.go:77-85 | Two Tab events in a row restore the original focus. |
| `Tester.EditThroughInvalidPattern` | main.go:101-136 | Valid pattern p1, then invalid p2, then p3. After p2, the output of p1 is kept and the error shown. If p3 is a new pattern, the output is the fresh result and the error is cleared. If p3 goes back to p1, it is a memo hit: the output of p1 stays, the compile error stays and the matcher stays nil. |

## Left out

- Regex compilation and `FindAllStringIndex` (the RE2 engine of Go's `regexp` package) are a foreign library. Their result is an input (`CompileResult`). Leftmost-first matching (the `regexp.Compile` semantics), non-overlap of the matches and the advance past empty matches are that library's properties and are not proved. The model requires only that the spans are inside the document, since Go would panic otherwise.
- `lipgloss` styling and border rendering (the ANSI output of the highlight, error and panel styles) are a foreign library. The `Styled` tag stands for the whole `kwStyle.Render` call (`main.go:123`), including any rewriting of its text that lipgloss does (tabs to spaces, padding of the short lines of a multi-line match). So `Erase(...) == txt` is a property of the tagged texts, not of the bytes on the terminal. The panel's width and height arithmetic is kept.
- The `textinput`/`textarea` widgets are not modelled: their editing rules, cursor blink (`Init`), and the forwarding of every event to both of them. The field values after editing are inputs. `textWidth`/`textHeight` are the dimensions *requested* of the document widget; any clamping the widget does is not modelled. The widget's dimensions before the first resize are its library's defaults and are constructor parameters.
- The program loop (`tea.NewProgram`, `Run`), the returned commands (`tea.Quit`, `tea.Batch`; a quit is the `quit` result), `View`'s `Sprintf` layout, and the print of the final pattern in `main` are I/O plumbing.
- Reading piped standard input: `main.go` does not do it, so the document always starts empty.
- Integer width: Go's `int` is 64 bits, so the size arithmetic of `sizeInputs` (`main.go:142-144`) could wrap in principle; the model's `int` is unbounded, which differs only for sizes near 2^63.
- Copy semantics: Go's `Update` has a value receiver and returns a modified copy of the model; here it updates one `Model` object in place.
