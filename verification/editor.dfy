/** The editor adapter's selection, content and syntax operations
    (plugins/ace/editor.js), built on the offset conversion. The Emmet
    helpers it calls are not part of this model and are given as functions
    in a `Toolkit` value. */
module Editor {
  import opened Text
  import opened Document

  /** A host selection, in positions. */
  datatype Range = Range(start: Position, end: Position)

  /** A pair of flat offsets: a selection, a caret or a replaced slice. */
  datatype Span = Span(start: int, end: int)

  /** A tag found by the toolkit's tag matcher: its type (`'tag'` or
      `'comment'`), its name and the offsets it occupies. */
  datatype Tag = Tag(kind: string, name: string, start: int, end: int)

  /** The matcher's answer: the opening tag and, when it found one, the
      closing tag. */
  datatype TagPair = TagPair(opening: Option<Tag>, closing: Option<Tag>)

  /** Tab-stop extraction: the text with its markers removed, and the marker
      spans in order. */
  datatype Extracted = Extracted(text: string, tabstops: seq<Span>)

  /** The external Emmet helpers the adapter calls. */
  datatype Toolkit = Toolkit(
    linePadding: (string, int) -> string,                // utils.getLinePaddingFromPosition
    padString: (string, string) -> string,               // utils.padString
    extractTabStops: string -> Extracted,                // tabStops.extract
    replaceSubstring: (string, string, int, int) -> string, // utils.replaceSubstring
    newlineBounds: (string, int) -> Span,                // utils.findNewlineBounds
    getTags: (string, int) -> Option<TagPair>)           // html_matcher.getTags

  /** `getSelectionRange`: the host selection as flat offsets. Each end
      inside the document is an offset that converts back to that end. */
  function GetSelectionRange(d: Doc, sel: Range): (r: Span)
    ensures d.Valid() && ValidPosition(d, sel.start) ==> FromOffset(d, r.start) == sel.start
    ensures d.Valid() && ValidPosition(d, sel.end) ==> FromOffset(d, r.end) == sel.end
  {
    RoundTripInside(d, sel.start);
    RoundTripInside(d, sel.end);
    Span(ToOffset(d, sel.start), ToOffset(d, sel.end))
  }

  /** `PositionRoundTrip` for a position that may lie outside the document. */
  lemma RoundTripInside(d: Doc, p: Position)
    ensures d.Valid() && ValidPosition(d, p) ==> FromOffset(d, ToOffset(d, p)) == p
  {
    if d.Valid() && ValidPosition(d, p) {
      PositionRoundTrip(d, p);
    }
  }

  /** JavaScript falsiness of the optional `end` argument: absent, or zero. */
  predicate Falsy(end: Option<int>)
  {
    end.None? || end.value == 0
  }

  /** `createSelection(start, end)`: both offsets become positions, except
      that a falsy `end` collapses the selection to a caret at `start`. */
  function CreateSelection(d: Doc, start: int, end: Option<int>): (r: Range)
    requires d.Valid()
    ensures r.start == FromOffset(d, start)
    ensures Falsy(end) ==> r.end == r.start
    ensures !Falsy(end) ==> r.end == FromOffset(d, end.value)
  {
    var s := FromOffset(d, start);
    var e := if end.Some? && end.value != 0 then FromOffset(d, end.value) else s;
    Range(s, e)
  }

  /** A selection created from offsets inside the text reads back as the
      same offsets, except that a zero `end` reads back as `start`. */
  lemma SelectionRoundTrip(d: Doc, start: int, end: Option<int>)
    requires d.Valid() && 0 <= start <= |Content(d)|
    requires end.Some? ==> 0 <= end.value <= |Content(d)|
    ensures GetSelectionRange(d, CreateSelection(d, start, end))
         == Span(start, if Falsy(end) then start else end.value)
  {
    OffsetRoundTrip(d, start);
    if end.Some? {
      OffsetRoundTrip(d, end.value);
    }
  }

  /** An explicit `end` of 0 is not honoured: a selection from a later
      `start` back to offset 0 collapses to a caret at `start`. */
  lemma ZeroEndCollapses(d: Doc, start: int)
    requires d.Valid() && 0 < start <= |Content(d)|
    ensures GetSelectionRange(d, CreateSelection(d, start, Some(0))) == Span(start, start)
  {
    SelectionRoundTrip(d, start, Some(0));
  }

  /** `getCaretPos`: the host cursor as a flat offset. A cursor inside the
      document gives an offset inside the text that converts back to it. */
  function GetCaretPos(d: Doc, cursor: Position): (o: int)
    ensures d.Valid() && ValidPosition(d, cursor) ==> 0 <= o <= |Content(d)| && FromOffset(d, o) == cursor
  {
    var o := ToOffset(d, cursor);
    if d.Valid() && ValidPosition(d, cursor) then
      PositionRoundTrip(d, cursor);
      RowText(d, cursor.row);
      o
    else o
  }

  /** `setCaretPos(pos)`: a selection collapsed at `pos`. */
  function SetCaretPos(d: Doc, pos: int): (r: Range)
    requires d.Valid()
    ensures r.start == r.end
    ensures pos >= 0 ==> InRow(d, pos, r.start.row) && r.start.column == pos - RowStart(d, r.start.row)
    ensures pos < 0 ==> r.start == Position(-1, pos + |d.newline|)
  {
    CreateSelection(d, pos, None)
  }

  /** Placing the caret at an offset inside the text and reading it back
      gives the same offset. */
  lemma CaretRoundTrip(d: Doc, pos: int)
    requires d.Valid() && 0 <= pos <= |Content(d)|
    ensures GetCaretPos(d, SetCaretPos(d, pos).start) == pos
  {
    OffsetRoundTrip(d, pos);
  }

  /** `getSelection`: the selected text, read with `substring`: the text
      between the two ends, whichever comes first. */
  function GetSelection(d: Doc, sel: Range): (t: string)
    ensures var r := GetSelectionRange(d, sel);
      && (0 <= r.start <= r.end <= |Content(d)| ==> t == Content(d)[r.start..r.end])
      && (0 <= r.end <= r.start <= |Content(d)| ==> t == Content(d)[r.end..r.start])
      && |t| <= |Content(d)|
  {
    var r := GetSelectionRange(d, sel);
    Substring(Content(d), r.start, r.end)
  }

  /** Selecting a slice of the text by offsets and reading the selection
      gives exactly that slice. */
  lemma SelectedText(d: Doc, start: int, end: int)
    requires d.Valid() && 0 <= start <= end <= |Content(d)|
    ensures GetSelection(d, CreateSelection(d, start, Some(end))) == Content(d)[start..end]
  {
    SelectionRoundTrip(d, start, Some(end));
  }

  /** `getCurrentLine`: the text between the bounds the toolkit reports
      around the caret, or nothing when those bounds are empty. */
  function GetCurrentLine(tk: Toolkit, d: Doc, cursor: Position): (r: string)
    ensures var b := tk.newlineBounds(Content(d), GetCaretPos(d, cursor));
      && (b.start >= b.end ==> r == "")
      && (0 <= b.start <= b.end <= |Content(d)| ==> r == Content(d)[b.start..b.end])
      && |r| <= |Content(d)|
  {
    var content := Content(d);
    var range := tk.newlineBounds(content, GetCaretPos(d, cursor));
    if range.start < range.end then Substring(content, range.start, range.end) else ""
  }

  /** The span of row `row` in the text, without its newline. */
  function RowSpan(d: Doc, row: nat): Span
  {
    Span(RowStart(d, row), RowStart(d, row) + |GetLine(d, row)|)
  }

  /** When the toolkit reports the bounds of the cursor's row, the current
      line is that row's text. */
  lemma CurrentLineIsRow(tk: Toolkit, d: Doc, cursor: Position)
    requires d.Valid() && ValidPosition(d, cursor)
    requires tk.newlineBounds(Content(d), GetCaretPos(d, cursor)) == RowSpan(d, cursor.row)
    ensures GetCurrentLine(tk, d, cursor) == d.lines[cursor.row]
  {
    RowText(d, cursor.row);
  }

  /** The replaced slice `replaceContent` settles on: with neither end given
      the whole text; with only `start`, an empty slice at `start`; a
      missing `start` is 0. */
  function ResolveRange(length: nat, start: Option<int>, end: Option<int>): (r: Span)
    ensures start.None? && end.None? ==> r == Span(0, length)
    ensures start.Some? && end.None? ==> r == Span(start.value, start.value)
    ensures start.None? && end.Some? ==> r == Span(0, end.value)
    ensures start.Some? && end.Some? ==> r == Span(start.value, end.value)
  {
    var e := if end.None? then (if start.None? then length else start.value) else end.value;
    var s := if start.None? then 0 else start.value;
    Span(s, e)
  }

  /** What `replaceContent` does: the slice it replaces, the text it inserts
      after indentation and tab-stop extraction, the new document text, and
      the selection it then asks for. */
  datatype Replacement = Replacement(range: Span, text: string, content: string, caret: Span)

  /** `replaceContent(value, start, end, noIndent)`. */
  function ReplaceContent(tk: Toolkit, content: string, value: string,
                          start: Option<int>, end: Option<int>, noIndent: bool): (r: Replacement)
    ensures r.range == ResolveRange(|content|, start, end)
    ensures var indented := if noIndent then value
                            else tk.padString(value, tk.linePadding(content, r.range.start));
            r.text == tk.extractTabStops(indented).text
    ensures r.content == tk.replaceSubstring(content, r.text, r.range.start, r.range.end)
    ensures var stops := tk.extractTabStops(if noIndent then value
                            else tk.padString(value, tk.linePadding(content, r.range.start))).tabstops;
      && (|stops| > 0 ==> r.caret == Span(stops[0].start + r.range.start, stops[0].end + r.range.start))
      && (|stops| == 0 ==> r.caret == Span(r.range.start + |r.text|, r.range.start + |r.text|))
  {
    var range := ResolveRange(|content|, start, end);
    var indented := if noIndent then value
                    else tk.padString(value, tk.linePadding(content, range.start));
    var extracted := tk.extractTabStops(indented);
    var text := extracted.text;
    var caret := if |extracted.tabstops| > 0
                 then Span(extracted.tabstops[0].start + range.start, extracted.tabstops[0].end + range.start)
                 else Span(|text| + range.start, |text| + range.start);
    Replacement(range, text, tk.replaceSubstring(content, text, range.start, range.end), caret)
  }

  /** `utils.replaceSubstring` behaving as a splice on in-range slices. */
  ghost predicate StandardSplice(splice: (string, string, int, int) -> string)
  {
    forall s, v, a, b :: 0 <= a <= b <= |s| ==> splice(s, v, a, b) == s[..a] + v + s[b..]
  }

  /** With a splicing `replaceSubstring`, the new text is the prefix before
      the slice, then the inserted text, then the suffix after it. */
  lemma ReplacedText(tk: Toolkit, content: string, value: string,
                     start: Option<int>, end: Option<int>, noIndent: bool)
    requires StandardSplice(tk.replaceSubstring)
    requires var g := ResolveRange(|content|, start, end); 0 <= g.start <= g.end <= |content|
    ensures var r := ReplaceContent(tk, content, value, start, end, noIndent);
      && r.content == content[..r.range.start] + r.text + content[r.range.end..]
      && r.content[r.range.start..r.range.start + |r.text|] == r.text
  {
    var r := ReplaceContent(tk, content, value, start, end, noIndent);
    var pre := content[..r.range.start];
    assert r.content == pre + r.text + content[r.range.end..];
    assert (pre + r.text + content[r.range.end..])[|pre|..|pre| + |r.text|] == r.text;
  }

  /** With neither `start` nor `end`, the whole text is replaced. */
  lemma ReplaceWholeText(tk: Toolkit, content: string, value: string, noIndent: bool)
    requires StandardSplice(tk.replaceSubstring)
    ensures var r := ReplaceContent(tk, content, value, None, None, noIndent);
      r.range == Span(0, |content|) && r.content == r.text
  {
    ReplacedText(tk, content, value, None, None, noIndent);
  }

  /** With only `start`, the value is inserted there and nothing is removed. */
  lemma InsertAtStart(tk: Toolkit, content: string, value: string, start: int, noIndent: bool)
    requires StandardSplice(tk.replaceSubstring) && 0 <= start <= |content|
    ensures var r := ReplaceContent(tk, content, value, Some(start), None, noIndent);
      && r.content == content[..start] + r.text + content[start..]
      && |r.content| == |content| + |r.text|
  {
    ReplacedText(tk, content, value, Some(start), None, noIndent);
  }

  /** When the value has no tab stop, or its first one sits at its very end,
      the caret lands immediately after the inserted text: everything before
      it is the old prefix followed by the whole inserted text. */
  lemma CaretAfterInsertedText(tk: Toolkit, content: string, value: string,
                               start: Option<int>, end: Option<int>, noIndent: bool)
    requires StandardSplice(tk.replaceSubstring)
    requires var g := ResolveRange(|content|, start, end); 0 <= g.start <= g.end <= |content|
    requires var x := tk.extractTabStops(if noIndent then value
                 else tk.padString(value, tk.linePadding(content, ResolveRange(|content|, start, end).start)));
      |x.tabstops| == 0 || x.tabstops[0] == Span(|x.text|, |x.text|)
    ensures var r := ReplaceContent(tk, content, value, start, end, noIndent);
      && r.caret.start == r.caret.end == r.range.start + |r.text|
      && r.content[..r.caret.start] == content[..r.range.start] + r.text
  {
    var r := ReplaceContent(tk, content, value, start, end, noIndent);
    ReplacedText(tk, content, value, start, end, noIndent);
    var pre := content[..r.range.start];
    assert (pre + r.text + content[r.range.end..])[..|pre| + |r.text|] == pre + r.text;
  }

  /** True when the matcher's pair is an opening `style` tag (name compared
      case-insensitively) with a closing tag, and the caret lies between the
      end of the opening tag and the start of the closing one. */
  predicate InsideStyle(pair: Option<TagPair>, caret: int)
  {
    && pair.Some?
    && pair.value.opening.Some?
    && pair.value.opening.value.kind == "tag"
    && ToLower(pair.value.opening.value.name) == "style"
    && pair.value.opening.value.end <= caret
    && pair.value.closing.Some?
    && caret <= pair.value.closing.value.start
  }

  /** True when the pair is an opening `style` tag the caret is past, but the
      matcher found no closing tag: the source then reads `start` of an
      undefined closing tag. */
  predicate UnclosedStyle(pair: Option<TagPair>, caret: int)
  {
    && pair.Some?
    && pair.value.opening.Some?
    && pair.value.opening.value.kind == "tag"
    && ToLower(pair.value.opening.value.name) == "style"
    && pair.value.opening.value.end <= caret
    && pair.value.closing.None?
  }

  /** `getSyntax`: the host's syntax, except that in an `html` document a
      caret inside a `style` element's body reports `css`. */
  function GetSyntax(tk: Toolkit, d: Doc, syntax: string, cursor: Position): (r: Result<string>)
    ensures syntax != "html" ==> r == Ok(syntax)
    ensures r.Ok? ==> r.value == syntax || r.value == "css"
    ensures var caret := GetCaretPos(d, cursor); var pair := tk.getTags(Content(d), caret);
      syntax == "html" ==>
        && (r == Ok("css") <==> InsideStyle(pair, caret))
        && (r.Fault? <==> UnclosedStyle(pair, caret))
  {
    var caret := GetCaretPos(d, cursor);
    if syntax == "html" then
      match tk.getTags(Content(d), caret)
      case Some(TagPair(Some(opening), closing)) =>
        if opening.kind == "tag" && ToLower(opening.name) == "style" && opening.end <= caret then
          match closing
          case None => Fault("TypeError: closing tag is undefined")
          case Some(close) => if close.start >= caret then Ok("css") else Ok(syntax)
        else Ok(syntax)
      case _ => Ok(syntax)
    else Ok(syntax)
  }
}
