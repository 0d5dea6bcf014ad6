# code-annotator: the line-annotation engine

code-annotator is a VS Code extension for reviewing a file line by line. It keeps a *mirror* of
every reviewed source file. The mirror is a copy of the source in which each line ends in one
digit, its review state: 0 todo, 1 done, 2 not applicable, 3 obsolete.

This project models the engine in `src/annotator.ts`, in five modules:

- `MirrorText` states the regular expressions the engine applies to text (`split(/(\r?\n)/)`,
  `replace(/\d$/gm, '')`, `match(/\d$/mg)`, `replace(/\d?$/, …)`) as functions on characters.
  It proves that these agree with a line-by-line reading. With the `m` flag, JavaScript's `$`
  matches before `\n`, `\r`, U+2028 and U+2029, but the split breaks only on `\r?\n`. The two
  views agree on text in which every `\r` begins a `\r\n` and neither U+2028 nor U+2029 occurs.
  That condition is the predicate `NoStray`.
- `Mirror` models the staleness check of `loadFileForEditor` and the state reader
  `getAnnotationsFromFile`. `Encode` is a reference encoder that writes a mirror for a source
  and a state sequence. It is not code from the repository. It exists so that the round trip
  and staleness can be stated.
- `SelectionUpdate` models the `annotate` command. The `SetSelection` method rewrites the
  array of pieces in place, one selection at a time, as the source's nested loop does.
  `Annotate` returns three things: the text it would write, the states it would display, and
  whether it would move the cursor.
- `RangeCompression` models `createRanges` as an imperative pass (`CreateRanges`). The pass is
  proved equal to `Group(Runs(a))`. Lemmas then show that `Runs` is the unique tiling of the
  input by uniform, maximal runs. Further lemmas state what every state's list holds.
- `Wrappers` holds the `Option` type.

The code appends the state digit at the end of each line, just before its terminator, and
strips a digit in front of every line end. The model does the same.

The model also follows the code in how states are read back. The code reads only the lines
that end in a digit. A mirror line without a digit is therefore skipped: no state is reported
for it, and every later state moves up one line. The lemma `Mirror.MissingDigitShifts` shows
this on a two-line mirror.

The staleness check and the split do not agree on what ends a line. The staleness check's `$` also
matches before a lone `\r`, U+2028 or U+2029, but the split does not break there. On a source
holding such a character, a mirror can pass the staleness check against a different source and read back
more states than the source has lines. The lemma `Mirror.LoneCarriageReturn` shows this for the
source `5\r`. The lemmas that describe the mirror line by line therefore require `NoStray`.

## Model

| member | source | states |
|---|---|---|
| `MirrorText.DigitChar` | src/annotator.ts:162 | `String(type)` of a state is a single digit character |
| `MirrorText.DigitValue` | src/annotator.ts:137 | `Number` of a digit character gives the state whose digit is that character |
| `MirrorText.StripText` | src/annotator.ts:108 | the result of `replace(/\d$/gm, '')` is never longer than its input |
| `MirrorText.LineEndDigits` | src/annotator.ts:135-137 | `match(/\d$/mg)` finds at most one digit per character of the text |
| `MirrorText.NewlineIndex` | src/annotator.ts:154 | gives the index of the first `\n`, or the length of the text when there is none |
| `MirrorText.Split` | src/annotator.ts:154 | splitting on `(\r?\n)` with the separators kept always yields an odd number of pieces, alternating content and separator |
| `MirrorText.Join` | src/annotator.ts:166 | `join('')` starts with the first piece, and is that piece when there is only one |
| `MirrorText.SplitWellFormed` | src/annotator.ts:154 | no content piece of a split holds `\n`; every odd piece is `"\n"` or `"\r\n"`; a `"\n"` separator never follows a content piece ending in `\r` |
| `MirrorText.SplitClean` | src/annotator.ts:154 | on text satisfying `NoStray`, no content piece holds any line terminator |
| `MirrorText.SplitLength` | src/annotator.ts:154 | a split has `2n + 1` pieces for a text with `n` newlines, so line `i` sits at index `2i` |
| `MirrorText.JoinSplit` | src/annotator.ts:154-166 | `split(/(\r?\n)/)` followed by `join('')` gives back every text unchanged |
| `MirrorText.SplitJoin` | src/annotator.ts:154-166 | joining well-formed pieces and splitting the result gives the same pieces back |
| `MirrorText.StripConcat` | src/annotator.ts:108 | within a terminator-free line followed by a line end, `$` matches only at the line's end, so only its last digit is dropped |
| `MirrorText.DigitsConcat` | src/annotator.ts:135 | a terminator-free line followed by a line end contributes to `match(/\d$/mg)` exactly its last digit, if it ends in one |
| `MirrorText.SeparatorConcat` | src/annotator.ts:108-135 | a `\n` or `\r\n` separator is untouched by the replacement and contributes no match |
| `MirrorText.StripByLines` | src/annotator.ts:108 | on clean pieces, `replace(/\d$/gm, '')` over the whole text is dropping one trailing digit from every line |
| `MirrorText.DigitsByLines` | src/annotator.ts:135-137 | on clean pieces, `match(/\d$/mg)` yields the trailing digit of every line that has one, in line order |
| `MirrorText.StripKeepsNewlines` | src/annotator.ts:108 | removing line-end digits never adds or removes a newline |
| `MirrorText.StripBeforeLineEnd` | src/annotator.ts:108 | on any text, when a line end follows `x`, `replace(/\d$/gm, '')` treats `x` and the rest separately |
| `MirrorText.StripLastDigitSwap` | src/annotator.ts:108 | which digit ends a text makes no difference to the replacement |
| `MirrorText.StripAppendDigit` | src/annotator.ts:108 | a digit appended to a text that does not end in one is dropped by the replacement, and nothing else changes |
| `MirrorText.StripJoinStep` | src/annotator.ts:108 | on any text, a line and the separator after it come off the replacement of the joined text one after the other |
| `MirrorText.StripJoinContents` | src/annotator.ts:108 | on any text, replacing contents by contents with the same replacement result, and keeping the separators, keeps the replacement result of the whole |
| `MirrorText.SameLineCount` | src/annotator.ts:108-110 | a mirror whose stripped text equals the source splits into as many lines as the source |
| `Mirror.LoadFile` | src/annotator.ts:99-116 | the mirror is returned unchanged or withheld; when returned, its stripped text equals the source exactly |
| `Mirror.Annotations` | src/annotator.ts:130-138 | states are read only from a present, non-empty text in which at least one line ends in a digit; there is at least one state and no more states than characters |
| `Mirror.LoadAnnotations` | src/annotator.ts:118-124 | states are produced only from a mirror that passed the staleness check against the source |
| `Mirror.EncodeShape` | src/annotator.ts:108 | appending a digit to every line keeps the pieces well formed and clean; stripping the appended digits gives the original pieces |
| `Mirror.EncodeDigits` | src/annotator.ts:135-137 | the trailing digits of the encoded pieces are exactly the states they were encoded with |
| `Mirror.EncodeSplit` | src/annotator.ts:154 | splitting an encoded mirror gives the encoded split of the source |
| `Mirror.RoundTrip` | src/annotator.ts:99-138 | a mirror written for a source passes the staleness check against that source, and reads back as the very state sequence it was written with |
| `Mirror.Stale` | src/annotator.ts:108-113 | for a source satisfying `NoStray`: once the source text differs in any way, the mirror written for the old text is withheld and no states are read |
| `Mirror.AcceptLines` | src/annotator.ts:108-115 | for a mirror satisfying `NoStray`: it is accepted if and only if dropping one trailing digit per line gives the source; its states are then its lines' trailing digits, in order |
| `Mirror.AnnotationsByLines` | src/annotator.ts:130-138 | for a non-empty text satisfying `NoStray`: no states when no line ends in a digit, and otherwise the digits that end lines, in line order |
| `Mirror.LoneCarriageReturn` | src/annotator.ts:108-137 | the mirror `5\r0` written for the source `5\r` passes the staleness check against the source `\r` and reads back as the states `[5, 0]` |
| `Mirror.MissingDigitShifts` | src/annotator.ts:135-137 | `a\nb1` against `a\nb` reads back as the one state `[1]`: the done state of line 1 is reported at index 0 |
| `Mirror.StripAppendedDigit` | src/annotator.ts:162 | appending a state digit to a line and stripping it again gives the line back; the digit read from the line is that state |
| `SelectionUpdate.IsSingleLineSelected` | src/annotator.ts:157 | when true, there is one selection and it covers exactly its start line |
| `SelectionUpdate.SingleLineExactly` | src/annotator.ts:157 | true if and only if there is exactly one selection and it covers exactly one line |
| `SelectionUpdate.SetLineState` | src/annotator.ts:162 | `replace(/\d?$/, String(type))` keeps the line's content, leaves it ending in the new state's digit, and keeps the line's result under `replace(/\d$/gm, '')` |
| `SelectionUpdate.StripSetLine` | src/annotator.ts:108-162 | setting a line's state digit changes nothing that `replace(/\d$/gm, '')` keeps, on any line |
| `SelectionUpdate.SetLineStateFacts` | src/annotator.ts:162 | `replace(/\d?$/, String(type))` keeps the line's content, leaves the line ending in the new state's digit, and a second replacement overrides the first |
| `SelectionUpdate.SetLineStateShape` | src/annotator.ts:162 | setting a state introduces no line terminator and never leaves a line ending in `\r` |
| `SelectionUpdate.UpdatePieces` | src/annotator.ts:159-164 | rewriting the selected lines keeps the number of pieces |
| `SelectionUpdate.Update` | src/annotator.ts:154-166 | splitting the new text gives the old pieces with every selected line set to the new state |
| `SelectionUpdate.UpdatePiecesWellFormed` | src/annotator.ts:159-164 | updating lines keeps the pieces well formed, and clean if they were |
| `SelectionUpdate.UpdateLines` | src/annotator.ts:154-166 | after the update, the new text has as many pieces as the old; separators and unselected lines are unchanged; every selected line keeps its content and ends in the new state |
| `SelectionUpdate.UpdateOverride` | src/annotator.ts:159-166 | of two updates in a row, the last one to select a line decides its state; a line selected by neither keeps its piece |
| `SelectionUpdate.UpdatePiecesOverride` | src/annotator.ts:159-164 | on pieces: of two updates in a row, the later one decides every line it selects |
| `SelectionUpdate.UpdateIdempotent` | src/annotator.ts:154-166 | running the same command on the same selections twice gives the text of running it once |
| `SelectionUpdate.UpdateKeepsContent` | src/annotator.ts:108-166 | on every text, the update does not change the stripped text, so a mirror that passed the staleness check still passes it |
| `SelectionUpdate.UpdateEncoded` | src/annotator.ts:154-168 | on a mirror written for a source, the text update is the state update: the selected lines get the new state, the others keep theirs, and reading back gives that state sequence |
| `SelectionUpdate.UpdateAppend` | src/annotator.ts:159-164 | handling one more selection after the others gives the update with all of them |
| `SelectionUpdate.SelectedAppend` | src/annotator.ts:159-160 | a line is covered by a list of selections plus one more exactly when the list covers it or the added selection does |
| `SelectionUpdate.SetSelection` | src/annotator.ts:160-163 | the inner loop replaces, in the array, the digit of every line of one selection, and leaves all other entries unchanged |
| `SelectionUpdate.Annotate` | src/annotator.ts:140-175 | the command writes only when the mirror passed the staleness check and is non-empty; it writes the update of the mirror; it displays the states read from the new text; it requests the cursor move only in a run that writes, for a single one-line selection |
| `RangeCompression.CreateRanges` | src/annotator.ts:193-230 | the pass returns the runs of the input grouped by state, and nothing for an empty input |
| `RangeCompression.RunsCorrect` | src/annotator.ts:199-227 | the runs tile the lines from 0 to the end; every line of a run has the run's state; two neighbouring runs never share a state |
| `RangeCompression.RunsUnique` | src/annotator.ts:199-227 | any tiling by uniform, maximal runs is the one the pass computes |
| `RangeCompression.TilesCoverOnce` | src/annotator.ts:199-227 | every line lies in exactly one run |
| `RangeCompression.CoveringRun` | src/annotator.ts:199-227 | every line of the input is covered by a run |
| `RangeCompression.KeyRun` | src/annotator.ts:208-211 | a state gets a list only when some run has that state |
| `RangeCompression.ListedRun` | src/annotator.ts:208-227 | every range in a state's list is the range of a run with that state |
| `RangeCompression.ListedAt` | src/annotator.ts:208-227 | the range of every run appears in the list of the run's state |
| `RangeCompression.GroupSeparated` | src/annotator.ts:207-227 | the ranges of one state come in ascending order with at least one line of another state between any two |
| `RangeCompression.RangesKeys` | src/annotator.ts:199-227 | the result has a list for a state if and only if some line has that state |
| `RangeCompression.RangesUniform` | src/annotator.ts:199-227 | every listed range lies within the input, and all of its lines have the list's state |
| `RangeCompression.RangesCover` | src/annotator.ts:199-227 | every line lies in a range listed for its own state |
| `RangeCompression.RangesSeparated` | src/annotator.ts:207-227 | every state's list is ascending, and no two of its ranges overlap or touch |
| `RangeCompression.RangesOfState` | src/annotator.ts:183-185 | what `setDecorations(types[i], decorations[i] \|\| [])` receives for a state: no ranges exactly when no line has that state; otherwise ascending, never adjacent ranges inside the file, holding only lines of that state and covering every one of them |
| `RangeCompression.RangesExample` | src/annotator.ts:193-230 | states `[1, 1, 0, 1]` give the done ranges 0–1 and 3–3, and the todo range 2–2 |

## Left out

- The file system is left out. The mirror's contents, or `None` for a missing file, and the
  source text are parameters. The write at line 174 is the `written` result of `Annotate`.
- The mirror's path (`getOutputPathForEditor`, `getStoragePath`) is not part of this model,
  and neither are `loadConfig`, the constructor or `initialize`. They deal with paths,
  configuration and command registration.
- The editor is left out: the active editor, its selections, decorations and the `cursorMove`
  command. The selections are a parameter. `Annotate` returns the states it would display and
  whether it would move the cursor.
- `showAnnotations` draws the ranges of states 1 to 3 in the editor. It is not modelled beyond
  `CreateRanges`, whose result it draws.
- `src/extension.ts` is not part of this model. It constructs the `Annotator`, which registers
  the four state commands itself. It then registers those commands again, with the `stats`
  command, and subscribes to changes of the active editor.
- `NoStray` is a precondition of the line-by-line lemmas: `SplitClean`, `AcceptLines`,
  `AnnotationsByLines`, `RoundTrip`, `Stale` and `UpdateEncoded`. These lemmas do not describe
  text holding a lone `\r`, U+2028 or U+2029. In such text, `$` matches in the middle of a split
  piece. The character-level functions `StripText` and `LineEndDigits` still model that case
  exactly, and `LoneCarriageReturn` shows one consequence.
- Annotate: requires every selection to lie within the file. For a selection past the last
  line, the source indexes past the end of the split array and fails. That error path is not
  modelled.
- Annotate: the state is a single digit (`Digit`, 0 to 9). The commands pass 0 to 3;
  `String(type)` for a larger number would write several characters.
- CreateRanges: the input is a dense sequence indexed from 0. The guard `lineNo > end + 1` is
  modelled but can never hold, since consecutive entries have consecutive indices.
- The `console.log` of line 111 is left out.
