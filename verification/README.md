# Emmet for Ace: offset conversion and controller, in Dafny

This project models the adapter that connects the Emmet toolkit to the Ace
editor. It covers the two files of that adapter:

- `plugins/ace/editor.js`, the editor adapter. It converts between Ace's
  `{row, column}` cursor positions and flat character offsets (`toOffset`,
  `fromOffset`). On top of that conversion it builds selections, reads the
  current line and the selection, replaces content and places the caret, and
  decides the syntax (`html`, or `css` inside a `style` element).
- `plugins/ace/controller.js`, the controller. It layers options: the
  defaults, then the options given to `setOptions`, then
  `emmet-<key>-<value>` tokens in the editor's class name. It gates the
  `expand_abbreviation` and `insert_formatted_line_break` actions on the
  `use_tab` and `pretty_break` options. It keeps a case-normalised shortcut
  table (add, unbind, list) and installs the default keymap in `setup`.

Modules:

- `Text` (`text.dfy`): optional values and results, ASCII `toLowerCase`, the
  JavaScript `substring` rules, and the last `/` segment of a label.
- `Document` (`document.dfy`): the host document as lines plus a newline
  sequence. It holds `toOffset`, and `fromOffset` both as the tail-recursive
  walk and as the source's loop. It also holds the two round trips.
- `Editor` (`editor.dfy`): the adapter operations. The Emmet helpers they call
  are fields of a `Toolkit` value.
- `Options` (`options.dfy`): the defaults, `copyOptions`, the class-name
  scanner, the boolean coercion and `getOption`.
- `Controller` (`controller.dfy`): `runAction`, the shortcut table,
  `getShortcuts`, the keymap and `setup`. The host's command registry is a
  log of the calls the controller makes on it.

The class-name tokens are found with the regular expression
`/\bemmet\-(\w+)\-(\w+)/g`, which has no `i` flag. The `emmet-` prefix
must therefore be written in lower case; only the captured key and value are
lower-cased afterwards (`plugins/ace/controller.js:57-58`). `Options.Scan`
matches the prefix case-sensitively in the same way.

## Model

| member | source | states |
|---|---|---|
| Text.ToLower | plugins/ace/controller.js:57-58 | lower-casing keeps the length, maps each character through the ASCII lower-case mapping and leaves no upper-case letter |
| Text.ToLowerIdempotent | plugins/ace/controller.js:132 | a lower-cased key lower-cases to itself, so a stored key is its own normal form |
| Text.LowerCaseUnchanged | plugins/ace/controller.js:57-58 | text without upper-case letters is unchanged by lower-casing |
| Text.Substring | plugins/ace/editor.js:112 | `substring` swaps its arguments when the first is larger, clamps each into `0..length`, and returns the slice between them; in particular in-range arguments give that slice in either order |
| Text.LastSegment | plugins/ace/controller.js:163 | the last element of `split('/')` holds no `/`, is a suffix of the input, and is preceded by a `/` whenever it is shorter than the input |
| Text.LastSegmentOfPath | plugins/ace/controller.js:163 | a label without `/` is its own last segment, and `a/b` has last segment `b` |
| Document.RowStartMonotone | plugins/ace/editor.js:31-34 | with a non-empty newline, each row the loop consumes moves the offset by at least one |
| Document.RowOfOffsetUnique | plugins/ace/editor.js:27-44 | an offset lies in the span of at most one row |
| Document.SumLinesAppend | plugins/ace/editor.js:18-21 | the loop's running sum over one more line adds that line's length and one newline |
| Document.SumLinesIsRowStart | plugins/ace/editor.js:14-25 | summing the first `k` lines front to back, each plus a newline, gives the start of row `k` |
| Document.PrecedingCount | plugins/ace/editor.js:16 | `getLines(0, row - 1)`, the slice `lines.slice(0, row)`, returns `row` lines for a row inside the document, all lines for a row at or past the end, and for a negative row all but the last `-row` lines (none when that leaves nothing) |
| Document.Content | plugins/ace/editor.js:177-179 | the text of an empty document is ""; otherwise it is as long as all lines, each plus a newline, less one final newline |
| Document.ToOffset | plugins/ace/editor.js:14-25 | the offset is the start of the cursor's row (lines before it, each plus a newline) plus the column; row 0 gives just the column |
| Document.Walk | plugins/ace/editor.js:31-34 | the loop ends with a non-positive remainder equal to the offset less the rows consumed, and before its last step the remainder was still positive |
| Document.FromOffset | plugins/ace/editor.js:27-44 | a non-negative offset lands in the row whose span holds it, at its distance from that row's start; a negative offset gives row -1 and column offset plus the newline length |
| Document.FromOffsetLoop | plugins/ace/editor.js:27-44 | the source's loop with its overshoot correction computes the same position as the row-span characterisation |
| Document.LandsOnRowStart | plugins/ace/editor.js:31-43 | when the loop lands exactly on zero, the position is column 0 of the next row |
| Document.Overshoot | plugins/ace/editor.js:35-43 | when the loop overshoots, the row is the last one consumed and the column is the remainder before that row was subtracted |
| Document.PositionRoundTrip | plugins/ace/editor.js:14-44 | a position inside the document converts to an offset and back to itself |
| Document.ContentLength | plugins/ace/editor.js:177-179 | the text is as long as all row spans less the final newline |
| Document.PrefixRowStart | plugins/ace/editor.js:14-25 | dropping trailing lines leaves the start of earlier rows unchanged |
| Document.OffsetIndexesContent | plugins/ace/editor.js:14-25 | the offset of a character's position is that character's index in the document text |
| Document.RowText | plugins/ace/editor.js:177-179 | each row's text appears in the document text starting at the row's offset |
| Document.OffsetRoundTrip | plugins/ace/editor.js:14-44 | an offset from 0 to the text length converts to an existing row and back to itself |
| Document.BoundaryExample | plugins/ace/editor.js:27-44 | with lines "ab" and "cd" and a two-character newline, offset 4 and position (1, 0) correspond, and offset 3 is (0, 3) |
| Document.NegativeRowExample | plugins/ace/editor.js:14-25 | with three one-character lines, row -1 counts the first two lines, so column 5 of row -1 is offset 9 |
| Editor.RoundTripInside | plugins/ace/editor.js:14-44 | a position inside the document converts to an offset and back to itself; outside it nothing is promised |
| Editor.GetSelectionRange | plugins/ace/editor.js:59-65 | the selection's ends become offsets that convert back to the same positions whenever the positions lie inside the document |
| Editor.GetCaretPos | plugins/ace/editor.js:94-96 | the caret's offset lies within the text and converts back to the caret position |
| Editor.CreateSelection | plugins/ace/editor.js:72-79 | the start is converted from its offset; an absent or zero end collapses the selection onto the start, any other end is converted |
| Editor.SelectionRoundTrip | plugins/ace/editor.js:59-79 | a selection created from in-text offsets reads back as those offsets, except that a falsy end reads back as the start |
| Editor.ZeroEndCollapses | plugins/ace/editor.js:74 | an explicit end of 0 is treated as absent and yields a caret at the start |
| Editor.SetCaretPos | plugins/ace/editor.js:102-104 | setting the caret makes an empty selection; for a non-negative offset it sits in the row whose span holds the offset, at the offset's distance from that row's start, and a negative offset gives row -1 |
| Editor.CaretRoundTrip | plugins/ace/editor.js:94-104 | setting the caret at an in-text offset and reading it back gives that offset |
| Editor.GetSelection | plugins/ace/editor.js:224-233 | the selected text is the slice of the document text between the selection's offsets, in either order, and never longer than the text |
| Editor.SelectedText | plugins/ace/editor.js:224-233 | selecting an in-text slice by offsets and reading the selection gives exactly that slice |
| Editor.GetCurrentLine | plugins/ace/editor.js:110-113 | empty bounds give "", in-text bounds give that slice of the text, and the result is never longer than the text |
| Editor.CurrentLineIsRow | plugins/ace/editor.js:84-113 | when the toolkit reports the caret row's bounds, the current line is that row's text |
| Editor.ResolveRange | plugins/ace/editor.js:139-141 | no start and no end replace the whole text, a start alone gives an empty slice there, and a missing start is 0 |
| Editor.ReplaceContent | plugins/ace/editor.js:135-171 | the range is defaulted; the value is indented unless told not to, then its tab stops are extracted; the caret goes to the first tab stop shifted by the start, or else just after the inserted text |
| Editor.ReplacedText | plugins/ace/editor.js:167-168 | with a splicing `replaceSubstring`, the new text is the prefix, the inserted text and the suffix, and the inserted text sits at the start offset |
| Editor.ReplaceWholeText | plugins/ace/editor.js:139-141 | with neither start nor end, the new text is just the inserted text |
| Editor.InsertAtStart | plugins/ace/editor.js:139-141 | with only a start, the value is inserted there and nothing is removed |
| Editor.CaretAfterInsertedText | plugins/ace/editor.js:156-169 | without tab stops, the caret lands after the inserted text, and what precedes it is the old prefix plus that text |
| Editor.GetSyntax | plugins/ace/editor.js:185-199 | a syntax other than `html` is returned unchanged; in `html` the answer is `css` exactly when the caret is inside a `style` element, and a fault exactly when the closing tag is missing past the opening one |
| Options.Defaults | plugins/ace/controller.js:37-42 | the defaults hold exactly `profile` (`xhtml`), `syntax` (`html`) and the two gate options, both falsy |
| Options.Truthy | plugins/ace/controller.js:86-94 | an option counts as set unless it is missing or one of `false`, `""`, `0`, `NaN`, `undefined` and `null` |
| Options.CopyOptions | plugins/ace/controller.js:75-77 | the result holds the default keys and the given keys, each with the given value when there is one and the default otherwise |
| Options.WordRun | plugins/ace/controller.js:52 | a greedy `\w+` takes the longest run of word characters |
| Options.MatchHere | plugins/ace/controller.js:52 | a match is as long as the token it captures, fits in the input, has word-character key and value, and is not followed by a word character |
| Options.MatchSpellsToken | plugins/ace/controller.js:52 | a match is a prefix of the input spelling `emmet-<key>-<value>` |
| Options.Scan | plugins/ace/controller.js:50-66 | every captured key and value is a non-empty word |
| Options.WordRunAppend | plugins/ace/controller.js:52 | `\w+` stops at a non-word character whatever follows it |
| Options.MatchNoPrefix | plugins/ace/controller.js:52 | text that does not start with `emmet-` matches neither alone nor followed by a space and more text |
| Options.MatchWithPrefix | plugins/ace/controller.js:52 | after the prefix, a space and more text do not change the match |
| Options.MatchHereAppend | plugins/ace/controller.js:52 | a match never reaches past a space |
| Options.ScanSpace | plugins/ace/controller.js:52 | a space never starts a match and resets the `\b` state |
| Options.SkipCase | plugins/ace/controller.js:56 | a failed attempt moves the search one character on, in the text alone and followed by more text |
| Options.MatchCase | plugins/ace/controller.js:56 | a match resumes the search at its end, in the text alone and followed by more text |
| Options.ScanAppend | plugins/ace/controller.js:50-66 | scanning text, a space and more text finds the first part's matches and then those after the space |
| Options.ScanToken | plugins/ace/controller.js:50-66 | a single well-formed token scans to itself |
| Options.ScanAfterClasses | plugins/ace/controller.js:50-66 | other classes before space-separated tokens yield their own matches, then exactly those tokens |
| Options.MatchHasTwoDashes | plugins/ace/controller.js:52 | every match holds the dash after `emmet` and the dash after the key |
| Options.ScanFewDashes | plugins/ace/controller.js:50-66 | text with at most one dash holds no match |
| Options.SkipWord | plugins/ace/controller.js:52 | after a word character, a run of word characters cannot start a match |
| Options.GluedTokenSkipped | plugins/ace/controller.js:52 | a token glued to a preceding word character, as in `xemmet-use_tab-no`, is not captured |
| Options.WordRunOfWord | plugins/ace/controller.js:52 | a word followed by a non-word character is taken whole by `\w+` |
| Options.MatchToken | plugins/ace/controller.js:52 | a well-formed token followed by nothing or a non-word character matches in full |
| Options.ScanRender | plugins/ace/controller.js:50-66 | a class name made of space-separated well-formed tokens yields exactly those tokens, in order |
| Options.Coerce | plugins/ace/controller.js:60-63 | `true`, `yes` and `1` become true, `false`, `no` and `0` become false, and anything else stays the same string |
| Options.LastSettingFront | plugins/ace/controller.js:56-66 | the last match for a key in a longer list is the last one in its tail, or else the head's |
| Options.LastSettingFrontAll | plugins/ace/controller.js:56-66 | the same, for every key at once |
| Options.Apply | plugins/ace/controller.js:56-66 | after the matches are written in order, the keys are the old ones plus the matched ones, and a key holds the last match's value for it, or else what it held before |
| Options.OptionsFromContext | plugins/ace/controller.js:50-69 | a key holds the class name's last setting for it, else the stored value, else the default, and no other key is present |
| Options.GetOption | plugins/ace/controller.js:71-73 | an option is the class name's last setting for it, else the stored value, else the default, else undefined |
| Options.ContextOfOneToken | plugins/ace/controller.js:51-56 | a class name of one well-formed token yields exactly that match |
| Options.ContextWins | plugins/ace/controller.js:50-73 | a class name of one well-formed token sets its lower-cased key to its coerced value, whatever the stored options say |
| Options.UseTabNo | plugins/ace/controller.js:57-63 | `emmet-use_tab-no` is a well-formed token whose key lower-cases to `use_tab` and whose value coerces to false |
| Options.ContextBeatsStored | plugins/ace/controller.js:50-73 | whatever the stored options say, the class name `emmet-use_tab-no` makes `use_tab` false |
| Controller.Init | plugins/ace/controller.js:104 | the controller starts with the default options, an empty table and no registry calls |
| Controller.SetOptions | plugins/ace/controller.js:112-114 | the stored options become the defaults overridden by the given ones; the table and the registry are untouched |
| Controller.SetOptionsReplaces | plugins/ace/controller.js:112-114 | a second `setOptions` forgets the first, and keys it omits revert to the defaults |
| Controller.GetProfileName | plugins/ace/editor.js:205-207 | the `profile` key is always present: its value is the class name's, else the stored one (which may be an explicit `undefined` or `null` copied over the default), else `xhtml` |
| Controller.SetupProfile | plugins/ace/editor.js:205-207 | after `setup` with no class-name token, the profile is the one given to `setup`, or `xhtml` |
| Controller.RunAction | plugins/ace/controller.js:83-102 | it declines exactly for `expand_abbreviation` with `use_tab` falsy and for `insert_formatted_line_break` with `pretty_break` falsy; otherwise it runs the Tab variant of expansion or the named action |
| Controller.AddShortcut | plugins/ace/controller.js:123-133 | the lower-cased keystroke maps to the action, overwriting; other entries and the options are unchanged; one registry call is made; a normalised table stays normalised |
| Controller.UnbindShortcut | plugins/ace/controller.js:139-146 | the lower-cased keystroke is no longer bound; other entries are unchanged; an absent key changes nothing; a present one removes its command by action name |
| Controller.NoCaseDuplicates | plugins/ace/controller.js:132 | a normalised table never holds two keys that differ only by case |
| Controller.AddThenUnbind | plugins/ace/controller.js:123-146 | binding a keystroke and unbinding it in another case removes the entry, leaves the rest of the table and logs both calls |
| Controller.Label | plugins/ace/controller.js:163 | a listed label never contains `/` |
| Controller.GetShortcuts | plugins/ace/controller.js:152-167 | the listing holds one entry per table key other than Tab and Enter, with that key's action and a label without `/`, and nothing else |
| Controller.EntriesCount | plugins/ace/controller.js:154-166 | entries for distinct keys are distinct, so there are as many entries as keys |
| Controller.AddAll | plugins/ace/controller.js:197-199 | binding entries in order keeps the options, logs one command per entry with its action and keystroke, in order, binds every entry's lower-cased keystroke and keeps every earlier key |
| Controller.Setup | plugins/ace/controller.js:193-200 | `setup` stores its options over the defaults, logs one command per keymap entry in keymap order, and binds every lower-cased keymap keystroke |
| Controller.AddAllTable | plugins/ace/controller.js:197-199 | binding entries in order builds the table of their lower-cased keys, later entries overwriting, and keeps options and normalisation |
| Controller.TableOfDistinct | plugins/ace/controller.js:132 | with pairwise distinct keys the table has one entry per binding, each holding its own action, and no other key |
| Controller.KeymapLowered0 | plugins/ace/controller.js:9-16 | the first eight keymap keystrokes lower-case to the listed keys |
| Controller.KeymapLowered8 | plugins/ace/controller.js:17-25 | the next eight keymap keystrokes lower-case to the listed keys |
| Controller.KeymapLowered16 | plugins/ace/controller.js:26-34 | the last seven keymap keystrokes lower-case to the listed keys |
| Controller.DefaultKeysDistinct | plugins/ace/controller.js:8-35 | the 23 lower-cased keymap keystrokes are pairwise distinct |
| Controller.BindDistinct | plugins/ace/controller.js:193-200 | binding keystrokes with distinct lower-cased forms into an empty table yields one entry per binding with its own action |
| Controller.ListedAllButTwo | plugins/ace/controller.js:157-159 | in a normalised table holding Tab and Enter, all keys but those two are listed |
| Controller.SetupTable | plugins/ace/controller.js:193-200 | `setup` on a fresh controller binds exactly the 23 lower-cased keymap keys, each to its own action |
| Controller.DefaultTable | plugins/ace/controller.js:152-167 | the default table binds Tab and Ctrl-E to expansion and Enter to the formatted line break, and lists 21 shortcuts |
| Controller.SetupShortcuts | plugins/ace/controller.js:193-200 | after `setup`, the table's Tab and Ctrl-E entries name the expansion action and its Enter entry the formatted line break, and 21 shortcuts are listed |
| Controller.SetupOptions | plugins/ace/controller.js:196 | `setup` stores its options over the defaults |
| Controller.GatesWithoutContext | plugins/ace/controller.js:83-102 | with no class-name tokens, both gates read the stored options |
| Controller.SetupDispatch | plugins/ace/controller.js:83-102 | after `setup`, with no class-name tokens, the table's Tab and Ctrl-E entries dispatch to the Tab expansion only when the stored `use_tab` is truthy, and its Enter entry runs only when `pretty_break` is truthy; otherwise the key is left to the host |
| Controller.UnbindCtrlE | plugins/ace/controller.js:139-146 | unbinding Ctrl-E removes the `expand_abbreviation` command and its entry, and keeps Tab's binding |
| Controller.UnbindRemovesByAction | plugins/ace/controller.js:139-146 | after `setup`, unbinding Ctrl-E removes the host command by the action name that Tab still uses |

## Left out

- Ace host calls are not part of this model. These are `session.getDocument`, `selection.getRange`/`setRange`, `getCursorPosition` and `doc.setValue`. The document, cursor and selection are parameters, and operations return the selection they would set.
- Host document behaviour is assumed, not modelled: `getLine` of a row outside the document reads as "", and `getLines(first, last)` is the array slice `lines.slice(first, last + 1)`, negative ends counting back from the end. Ace reports clipped cursor positions, so a negative row never reaches `toOffset` in practice; the model still follows the slice for it.
- Text outside the Basic Multilingual Plane is not modelled. The source counts lengths, columns and offsets in UTF-16 code units, so JavaScript counts such a character as two; a Dafny `char` cannot hold a surrogate and counts it as one.
- The stored options and `keyboardShortcuts` are plain JavaScript objects, modelled as maps. Names inherited from `Object.prototype` are not modelled: `'constructor' in keyboardShortcuts` is true, and `getOption('constructor')` returns `Object`. The `__proto__` setter is not modelled either: it ignores string and boolean values, so `emmet-__proto__-x` sets nothing, while the maps store every key. The program's own option and keystroke names never meet these cases.
- Options.Value: numbers are reals or `NaN`; infinities and other objects' contents are not modelled, since only truthiness and equality are ever asked of them.
- The Emmet helpers are fields of `Editor.Toolkit` with no behaviour of their own: `padString`, `getLinePaddingFromPosition`, `findNewlineBounds`, `replaceSubstring`, `tabStops.extract` and `html_matcher.getTags`. `utils.setNewline` is not modelled.
- `actions.run` is left out; `Controller.RunAction` returns the action it would run.
- `actions.get(...).options.label` is a `declared` function returning "" for an action without a label. An undeclared action, which throws in the source, is not distinguished.
- The `exec` wrapper discards the result of `runAction`, so host event bubbling is not modelled.
- `prompt`, `getFilePath` (`location.href`), `getInfo`, `showInfo`/`alert`, `setContext`/`getContext` and the stray global `tx = null` are left out. They are I/O, host wiring or message formatting.
- The swallowed `try/catch` blocks in `replaceContent` and `getSelection` are left out. `ReplaceContent` returns the new text and the caret offsets. The selection on the re-split new document is not computed.
- `getCurrentLineRange`'s null check is left out, because the caret offset is never null here.
- Where the class name comes from is left out: it is an optional parameter.
- Editor.ReplaceContent: the caret is given as offsets into the new text, not as the positions `createSelection` would compute from them.
- Text.ToLower: lower-cases ASCII letters only, whereas `toLowerCase` maps all of Unicode.
- Controller.GetShortcuts: returns a set, so the order of the listing, which follows object key order, is not modelled.
- Controller.Setup binds the keymap but not `opt.editor`. Binding the editor is host wiring.
