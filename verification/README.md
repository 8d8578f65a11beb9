# CloudWatch Logs CSV formatter — verified model

This project models the core of a small batch tool. The tool rewrites CSV exports in which quoted fields hold multi-line log messages. It has two parts:

- **The quote-aware newline flattener** (`flattenNewlinesInCsv`). It scans the text once with a one-bit state: inside or outside a quoted field. While inside, it replaces each `\n`, lone `\r` or `\r\n` pair with one space. A `"` toggles the state. A `""` pair met while inside is copied and keeps the state. Every other character is copied.
- **The mirror-and-apply walker** (`processDirectory`). It recreates every input directory at the same relative path. It writes the flattened content of every regular file whose lowercased name ends in `.csv`. It produces nothing for any other entry.

Modules:

- `Flattener` (`flattener.dfy`): the scanner as the recursive function `Flat(s, inside)`, with `Flatten(s) = Flat(s, false)`. It also holds `FlattenNewlinesInCsv`, the index-based loop of the source, proved equal to `Flatten`.
- `FlattenerProperties` (`flattener_properties.dfy`): the flattener's properties. Two independent reference definitions are proved equal to the scanner. `Ref` is position-wise: position `i` is inside a quoted region exactly when the number of `"` before `i` is odd. `Toggle` is a scanner without the `""` rule. The module also proves identities, content preservation, length facts, the behaviour on unterminated quotes, and idempotence.
- `Walker` (`walker.dfy`): an abstract directory tree (`Directory`, `RegularFile`, `OtherEntry`). It defines the walker as the pure function `Mirror`, lookup by relative path, and theorems that relate the output to the input path by path.
- `Wrappers` (`wrappers.dfy`): `Option`.

Modelling choices:

- Text is a sequence of Dafny `char`s, which are Unicode scalar values, while the source indexes UTF-16 code units. The scanner only inspects `"`, `\n` and `\r`, all single code units, and UTF-8-decoded text never holds a lone surrogate, so the output is the same either way.
- When the source reads `csvText[i + 1]` past the end, it gets `undefined`, which equals neither `"` nor `\n`. The model writes this as an `i + 1 < |s|` guard.
- A real directory listing never holds two entries with the same name. The walker theorems therefore require `WellFormed`: names are unique in every directory. `MirrorWellFormed` proves the output is well-formed again.
- The output root is taken to be empty before the run.
- The `""` branch of the source never changes the output. Toggling twice on the pair emits the same two quotes and ends in the same state (`EscapePairIsRedundant`). The branch is harmless, so it is not a bug in the source.

## Model

| member | source | states |
|---|---|---|
| Flattener.Flat | src/index.ts:15-43 | The output is never longer than the input and at least half as long. Each step emits at least one character for at most two consumed, and never more than it consumes. |
| Flattener.FlattenNewlinesInCsv | src/index.ts:15-43 | The index loop, which skips the second character of a `""` or `\r\n` pair inside its body, computes exactly the recursive scanner started outside a quote. Its result is no longer than its input. |
| FlattenerProperties.FlatMatchesRef | src/index.ts:17-39 | In either start state, the scanner equals the position-wise reference. A `\n` or lone `\r` at an odd quote count (counting from the start state) becomes one space. The `\n` of such a `\r\n` pair contributes nothing. Every other character, including line breaks outside quotes, is kept in place. |
| FlattenerProperties.InsideAtParity | src/index.ts:27-30 | The state before position `i` is the start state flipped once per `"` in the text before `i`: it equals the start state exactly when that text holds an even number of `"`. |
| FlattenerProperties.FlatFromMatchesRef | src/index.ts:19-40 | From any scan position that does not split an inside `\r\n` pair, the scanner in the state given by the quote parity produces the reference output of the rest of the text. |
| FlattenerProperties.FlattenIsRef | src/index.ts:15-43 | The flattener, which starts outside a quote, equals the position-wise reference with start state "outside". |
| FlattenerProperties.EscapePairIsRedundant | src/index.ts:22-31 | The scanner equals a scanner that toggles on every `"`. An inside `""` pair is emitted verbatim and leaves the state as it was, so the escape rule never changes the output. |
| FlattenerProperties.NoQuoteIdentity | src/index.ts:17-39 | Text containing no `"` is returned unchanged, every `\n` and `\r` included. |
| FlattenerProperties.NoLineBreakIdentity | src/index.ts:22-39 | Text containing no `\n` or `\r` is returned unchanged in either state. For example, the escaped-quote field `"a""b"` maps to itself. |
| FlattenerProperties.StripPreserved | src/index.ts:22-39 | Once spaces and line breaks are removed from both, the output equals the input. So every `"` and every other character survives, in order, and nothing else is added. |
| FlattenerProperties.LengthDropsByInsideCrLf | src/index.ts:23-39 | The output length is the input length minus the number of `\r\n` pairs inside a quoted region. Every other step keeps the length, `""` pairs and outside `\r\n` separators included. |
| FlattenerProperties.LengthKeptWithoutInsideCrLf | src/index.ts:23-39 | Text with no `\r\n` pair inside a quoted region keeps its exact length, whatever `\r\n` record separators it has outside quotes. |
| FlattenerProperties.PlainPrefix | src/index.ts:33-39 | A prefix with no `"`, `\n` or `\r` is copied through in either state and does not change the state for the rest of the text. |
| FlattenerProperties.ToggleNoBreakPrefix | src/index.ts:22-31 | About the reference scanner `Toggle`, which leaves out the `""` branch at :23-25; `EscapePairIsRedundant` proves it equal to the source's scanner. Text with no line break is copied through unchanged by `Toggle`, which ends in the start state flipped once per `"` of that text. |
| FlattenerProperties.QuotedNewlineBecomesSpace | src/index.ts:22-36 | For `A` and `B` with no line break and an even number of `"` (so escaped `""` pairs are allowed), the text `"A\nB"` followed by `\n` becomes `"A B"` followed by `\n`. The embedded newline becomes one space. The record separator after the closing quote is kept. |
| FlattenerProperties.EscapedQuoteWithNewline | src/index.ts:22-36 | The field `"a""b\nc"` followed by `\n` becomes `"a""b c"` followed by `\n`. The escaped pair keeps the scan inside the quote. |
| FlattenerProperties.UnterminatedQuote | src/index.ts:27-42 | For `A` with no line break and an even number of `"`, the text `"A\n` with no closing quote is processed without failure. Its newline is treated as inside a quote and becomes a space. |
| FlattenerProperties.FlatIsSettled | src/index.ts:22-36 | The output has no line break inside a quoted region. |
| FlattenerProperties.FixedPointIffSettled | src/index.ts:15-43 | The scanner leaves a text unchanged if and only if that text has no line break inside a quoted region. |
| FlattenerProperties.FlatIdempotent | src/index.ts:15-43 | Applying the scanner twice in the same start state gives the same result as applying it once. |
| FlattenerProperties.FlattenIdempotent | src/index.ts:15-43 | `Flatten(Flatten(t)) == Flatten(t)`. |
| Walker.LowerAscii | src/index.ts:66 | One character of `toLowerCase` on ASCII: the result is never an upper-case letter, and it is either the character itself or, for `A`..`Z`, the letter at the same place in `a`..`z`. |
| Walker.ToLower | src/index.ts:66 | `entry.name.toLowerCase()` on ASCII: same length, every `A`..`Z` replaced by the letter at the same place in `a`..`z`, every other character kept, and no upper-case letter left. |
| Walker.CsvNameCharacterised | src/index.ts:66 | A name passes the lowercased `.csv` suffix test exactly when it ends in `.` followed by `c`, `s`, `v`, each in either case. |
| Walker.MirrorEntry | src/index.ts:61-74 | One entry produces at most one output entry, with the same name, and never a non-file, non-directory entry. It produces one exactly when it is a directory or a regular file with a CSV name. |
| Walker.Mirror | src/index.ts:57-75 | The names in the output listing are a subset of the input listing's names. |
| Walker.FindMirror | src/index.ts:57-59 | In a listing with unique names, looking up a name in the output finds exactly what the input entry of that name produced. |
| Walker.LookupMirror | src/index.ts:54-76 | At every relative path, the output entry is exactly what the input entry at that path produces. There is no output entry where the input has none. |
| Walker.MirrorFiles | src/index.ts:66-72 | An output file exists at a relative path if and only if the input has a regular file there whose name passes the `.csv` test. Its content is the flattened input content. |
| Walker.MirrorDirectories | src/index.ts:61-65 | An output directory exists at a relative path if and only if the input has a directory there. |
| Walker.MirrorHasNoOtherEntries | src/index.ts:61-74 | No symbolic link, device or other non-file, non-directory entry appears at any path of the output, for every input tree, well-formed or not. |
| Walker.MirrorHasNoOther | src/index.ts:61-74 | At every depth of the output tree, no entry is a non-file, non-directory entry, whatever the input tree holds. |
| Walker.LookupName | src/index.ts:58-59 | An entry found at a relative path carries the last name of that path, as `path.join` with `entry.name` builds it. |
| Walker.MirrorWellFormed | src/index.ts:58-65 | If names are unique in every input directory, they are unique in every output directory. |
| Walker.MirrorIdempotent | src/index.ts:54-76 | Walking the walker's own output reproduces that output. Directories are mirrored again and already-flattened files stay as they are. |
| Walker.MirrorAppend | src/index.ts:57-75 | Processing a listing is processing each entry in turn. The output for two concatenated listings is the concatenation of their outputs. |
| Walker.ExampleRun | src/index.ts:61-72 | For the tree `a.csv`, `sub/b.CSV`, `notes.txt`, the output holds `a.csv` and `sub/b.CSV` with flattened content and the directory `sub`, but no `notes.txt`. |

## Left out

- File-system and console I/O (`readdirSync`, `existsSync`, `mkdirSync`, `readFileSync`, `writeFileSync`, `console.log`, `console.error`) and `path.join`/`path.resolve`. The walker is modelled over an immutable tree value. The output tree is a value, so progress lines and directory-creation order are not modelled.
- `main` (src/index.ts:86-105): the environment-variable and default-path resolution, the missing-input check with exit status 1, and creating the output root. This is driver glue around the walker.
- Content already present under the output root, and the overwrite of files from an earlier run. The output root is modelled as empty. Re-running on unchanged input gives the same output because `Mirror` is a function.
- The input and output roots are assumed to be separate trees, and the run is assumed not to change the input. If the output root lay inside the input root, `main` would create it before the walk lists the input, and the walk would then descend into its own output.
- Directory listing order. The path-based theorems do not depend on it.
- Errors from unreadable entries or failed writes. They abort the run on the host and are not modelled.
- UTF-8 decoding and Unicode case folding. `toLowerCase` is modelled for ASCII letters only.
- Walker.LookupMirror: requires unique names in every directory (`WellFormed`), which any real file system guarantees. Without that requirement, a later entry with a duplicate name would overwrite an earlier one's output.
- Walker.MirrorFiles, Walker.MirrorDirectories and Walker.MirrorWellFormed: require `WellFormed` for the same reason.
