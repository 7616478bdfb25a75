# Cornell notes editor: a verified model

This project models the text-processing core of a browser Cornell-notes editor. The repository holds it twice, as `editor.js` and `script.js`. The editor holds:

- a topic;
- a summary;
- an ordered list of cue/notes pairs, each of which can be starred as important.

The model covers:

- exporting the notes as Markdown callout blocks (`generateMarkdown`) and reading them back (`loadFromMarkdown`);
- saving the state as a JSON object (`getAppState`) and loading it (`loadFromJson`);
- the "bulk add" dialog in both variants: the tolerant one of `editor.js` and the strict one of `script.js`;
- the per-pair buttons (star, remove, move up, move down) and the move-button enablement;
- clear-all;
- the download file name;
- the extension test that picks a loader for an uploaded file.

Modules:

- `Text`: the JavaScript string primitives the code calls, as total functions on `seq<char>`:
  - `trim`, with the ECMAScript white-space set written out;
  - `split('\n')`, `startsWith`, `endsWith`;
  - `IndexOf`, the search for the leftmost occurrence of a fixed text. It stands for `p.includes('---')` (`editor.js:306`) and for the literal header the summary expression looks for (`script.js:158`).
  - `JoinLines` is not called by the code. It is the inverse of `SplitLines` that the round-trip proofs use.
- `Notes`: the `Pair` and `Doc` values and the list edits.
- `MarkdownExport`: the specification function `Markdown` and the imperative `GenerateMarkdown`, which builds the same text with `+=` loops.
- `MarkdownImport`: the three regular expressions of the Markdown loader, written out by hand:
  - the topic is anchored at the start of the text;
  - the summary is the first `> [!SUMMARY] Summary` block;
  - the pairs come from the `exec` loop, a left-to-right scan without overlap.
- `MarkdownRoundTrip`: the qualified round trip. Export, then import, gives back the trimmed topic, the summary with each line trimmed, and exactly the pairs that were written, in order and with their flags. This holds under the conditions stated by `SafeDoc`.
- `Bulk`: JavaScript's `split` (the loop of ECMAScript's `RegExp.prototype[@@split]`, and of `String.prototype.split` for a string separator) for the four separators the dialogs use, and the block rules of both variants. Three separators are regular expressions: `/\n\s*\n/`, `/\n\s*-{3,}\s*\n/` and `/\n---\n/`. The fourth, `'---'` (`editor.js:308`), is a plain string. Joining the later pieces back with `join('---')` (`editor.js:312`) is `JoinDashes`.
- `JsonState`: the parsed JSON value as a datatype with optional properties, `getAppState`, and `loadFromJson`, both as written and corrected (see Findings).
- `Files`: the file-name slug, the suffixes and the extension dispatch.
- `EditorState`: the class `Editor`, with the fields `topic`, `summary` and `pairs`.
  - The container of note elements is the sequence `pairs`, and `createNotePair` appends to it.
  - Every handler is a method proved against the functions above.
  - The loops of `updateMoveButtons`, `getAppState`, `loadFromJson`, the `exec` loop of `loadFromMarkdown` and the bulk `forEach` are `while` loops with invariants.

Where the two JavaScript files define the same function identically, one member models both. Three behaviours of the code worth noting:

- A JSON state with no pairs comes back with one empty pair, not with an empty list (`script.js:148`).
- The Markdown round trip trims the topic, the summary lines and the pair texts. An empty topic comes back as `My Notes`.
- A JSON document that is `null` does change the editor before the load fails (see Findings).

## Model

| member | source | states |
|---|---|---|
| Notes.MovedUp | editor.js:165-170 | Moving up the first pair changes nothing. Otherwise the pair swaps with the one before it, every other position is unchanged, and the list is a permutation of the old one. |
| Notes.MovedDown | editor.js:171-176 | Moving down the last pair changes nothing. Otherwise the pair swaps with the one after it, every other position is unchanged, and the list is a permutation of the old one. |
| Notes.Removed | editor.js:161-164 | Only the pair at `i` is deleted: pairs before it keep their positions and pairs after it shift down by one. |
| Notes.Toggled | editor.js:157-160 | Only the flag of the pair at `i` flips. Its texts and every other pair are unchanged. |
| Notes.MoveDownUndoesMoveUp | editor.js:165-176 | Moving a pair up and then down again restores the list. |
| Notes.MoveUpUndoesMoveDown | script.js:87-98 | Moving a pair down and then up again restores the list. |
| Notes.ToggleTwice | script.js:79-82 | Starring twice is the identity. |
| Text.Trim | editor.js:222-223 | `trim()`: the result neither starts nor ends with ECMAScript white space. |
| MarkdownExport.CueLine | editor.js:222-224 | Defines the written cue: trimmed, with `⭐ ` in front when the pair is starred. `CueRoundTrip` proves that the import undoes it. |
| MarkdownExport.Emitted | editor.js:225 | Defines the test that decides whether a block is written: the written cue or the trimmed notes is non-empty. `DropRule` states it in terms of the pair. |
| MarkdownExport.Block | editor.js:226-230 | Defines one block: the question line, each line of the trimmed notes quoted, and a blank line. `BlockRead` proves that the scan reads it back as its pair. |
| MarkdownExport.Markdown | editor.js:219-244 | Defines the document that `GenerateMarkdown` builds. `MarkdownShape`, `SummaryAtEnd`, `NoSummaryBlock` and `RoundTrip` state its properties. |
| MarkdownExport.DropRule | editor.js:223-227 | A block is written exactly when the pair is starred or its trimmed cue or trimmed notes are non-empty. |
| MarkdownExport.EmittedPairs | editor.js:222-232 | No more pairs are written than there are, and every written pair passes the drop rule. |
| MarkdownExport.EmittedPairsAppend | editor.js:222-233 | The filter splits over concatenation, so blocks appear in the order of the pairs. |
| MarkdownExport.EmittedPairsAll | editor.js:226-232 | When every pair passes the drop rule, all of them are written. |
| MarkdownExport.MarkdownShape | editor.js:243 | The document is never empty, starts with `#`, and does not end in white space. |
| MarkdownExport.HeadingKept | editor.js:243 | When the topic does not end in white space, the document is the heading line, `# ` and the topic or `# My Notes` for an empty topic, alone or followed by a line break. |
| MarkdownExport.TrimmedSummary | editor.js:236-241 | The trimmed summary block is the `> [!SUMMARY] Summary` header followed by each summary line, trimmed and quoted. |
| MarkdownExport.SummaryAtEnd | editor.js:235-243 | A non-empty summary ends the document as that block. |
| MarkdownExport.NoSummaryBlock | editor.js:235-243 | An empty summary adds nothing: the document is the trimmed heading and notes part alone. |
| MarkdownRoundTrip.SummaryHeaderIff | editor.js:235-243 | When the topic and the pairs hold no `[!`, the document contains the summary header exactly when the summary is non-empty. |
| MarkdownExport.GenerateMarkdown | editor.js:219-244 | The `+=` loops over the pairs and the summary lines build exactly `Markdown(d)`. |
| MarkdownImport.TopicMatch | script.js:155 | The topic expression matches exactly when the text starts with `# `. The capture is the rest of the first line, ended by a line terminator or by the end of the text. |
| MarkdownImport.SummaryMatch | script.js:158-159 | The summary expression matches exactly when the text contains the summary header. |
| MarkdownImport.QuoteRun | script.js:158 | The run of quoted lines measured by `(?:> .*\n?)*` never goes past the end of the text. `QuoteRunShape` and `QuoteRunUnique` characterise it. |
| MarkdownImport.QuoteRunShape | script.js:158 | The run is empty or starts with `> `. Its only line breaks are `\n`, and every line after one starts with `> `. It cannot be extended: it stops at the end of the text, at another line terminator, or before a line that does not start with `> `. |
| MarkdownImport.QuoteRunUnique | script.js:158 | Any run of quoted lines that cannot be extended has exactly the length `QuoteRun` gives, so greedy matching picks the one maximal run. |
| MarkdownImport.StripQuotes | script.js:161 | Defines `replace(/^> /gm, '')`: one `> ` removed at the start of every line. `SummaryRoundTrip` and `PairsRoundTrip` prove that it undoes the quoting of the export. |
| MarkdownImport.PairAt | script.js:165 | A match at a position is never empty and never runs past the end of the text. |
| MarkdownImport.PairAtShape | script.js:165 | A match at a position starts with the question marker, holds a one-line cue followed by `\n`, and then the captured quoted lines. |
| MarkdownImport.MakePair | script.js:170-179 | A pair is important exactly when its trimmed cue starts with the star. Its cue and notes do not start or end with white space. |
| MarkdownImport.ParsedTopic | script.js:155-156 | Without a leading `# ` the topic stays empty. A set topic is trimmed. |
| MarkdownImport.ParsedSummary | script.js:158-163 | Without a summary header the summary stays empty. A set summary is trimmed. |
| MarkdownImport.ParseMarkdown | script.js:152-187 | The state always has a pair: the pairs of the scan, or one empty pair when the scan finds none. |
| MarkdownImport.Pairs | script.js:165-183 | Defines the pairs of the `exec` loop: a match at a position adds its pair and the scan resumes after it, otherwise the scan moves on one character. `NextMatchStep` and `EditorState.Editor.ScanMatches` tie it to the loop. |
| MarkdownImport.NextMatch | script.js:169 | The match `exec` returns starts at or after `lastIndex` and ends within the text. |
| MarkdownImport.NextMatchLeftmost | script.js:169 | `exec` from `lastIndex` returns the leftmost match at or after it, and `None` only when there is no match at or after it. |
| MarkdownImport.NoNextMatch | script.js:169 | When `exec` finds nothing more, the scan holds no further pair. |
| MarkdownImport.NextMatchStep | script.js:169-183 | One round of the `exec` loop is one step of the scan. The match contributes its pair and scanning resumes where the match ends. |
| MarkdownRoundTrip.CueRoundTrip | script.js:170-177 | Reading back a written cue line gives the trimmed cue and the original flag. The star is added on export and removed on import. |
| MarkdownRoundTrip.BlockTextRead | script.js:165-183 | A question line, quoted lines and a blank line read back as one pair, and the scan resumes after the blank line. |
| MarkdownRoundTrip.BlockRead | editor.js:226-231 | The scan reads a written block back as that pair, trimmed, and then continues with the text after it. |
| MarkdownRoundTrip.LastBlockRead | editor.js:243 | The last block reads back the same way after the final trim has shortened its last quoted line. |
| MarkdownRoundTrip.TopicRoundTrip | script.js:155-156 | For a one-line topic, reading back gives the trimmed topic, or `My Notes` when the topic is empty. |
| MarkdownRoundTrip.PairsRoundTrip | script.js:165-183 | Reading back gives exactly the written pairs, in order, with trimmed texts and their flags. |
| MarkdownRoundTrip.SummaryRoundTrip | script.js:158-163 | Reading back gives the summary with every line trimmed and the whole trimmed. |
| MarkdownRoundTrip.RoundTrip | script.js:152-187 | For a `SafeDoc` state, `ParseMarkdown(Markdown(d)) == ReadBack(d)`, which covers the topic, the summary and the pairs together. |
| MarkdownRoundTrip.RoundTripSettled | editor.js:219-244 | A safe state that is settled is read back unchanged. Settled means everything is already trimmed, the topic is non-empty, and every pair is written. |
| Bulk.SpacesToNewline | editor.js:291 | `\s*\n` at the start of a text yields the longest valid prefix, or `None` when no prefix is valid. |
| Bulk.SepLen | editor.js:291-297 | A separator match is never empty and never runs past the end of the text. |
| Bulk.SplitFrom | script.js:301 | `split` from a position on always returns at least one piece. |
| Bulk.Split | editor.js:291-297 | Defines `split` on a separator: the pieces between successive matches. `SplitNone`, `SplitAt`, `SplitOne` and `JoinSplitDashes` state its properties. |
| Bulk.SplitNone | editor.js:291 | Where the separator matches nowhere, `split` keeps the text in one piece. |
| Bulk.SplitAt | editor.js:297 | The first match ends the first piece, and splitting resumes after the match. |
| Bulk.SplitOne | script.js:301 | `split` returns a single piece exactly when the separator matches nowhere. |
| Bulk.JoinSplitDashes | editor.js:308-312 | Joining the pieces of `split('---')` with `---` gives back the text. |
| Bulk.TwoParts | script.js:302-308 | A pair comes only from exactly two parts, with both parts trimmed, and only when one of them is non-empty. |
| Bulk.BlankAddsNothing | editor.js:284-285 | White-space input adds nothing. |
| Bulk.EntriesAppend | editor.js:294-317 | The pairs of a list of blocks split over concatenation, so pairs follow block order. |
| Bulk.ImportedShape | editor.js:293-317 | An import adds at most one pair per block, and no added pair is starred. |
| Bulk.OneSeparator | editor.js:297 | A block with exactly one separator match splits into the text before it and the text after it. |
| Bulk.TwoSeparators | editor.js:297 | A block with two separator matches splits into three or more pieces. |
| Bulk.TolerantOneSeparator | editor.js:297-305 | With one separator line, the cue is the trimmed text before and the notes the trimmed text after. The pair is added only when one of them is non-empty. |
| Bulk.TolerantTwoSeparators | editor.js:297-305 | A block with two separator lines gives nothing. |
| Text.IndexOfLeftmost | editor.js:306-308 | The search for `---` finds its leftmost occurrence, and finds none exactly when the text holds none. |
| Bulk.Fallback | editor.js:306-314 | A block with no separator line but with a `---` gives the trimmed text around the first `---`. Later `---` stay in the notes, and the pair is added even when both parts are empty. |
| Bulk.NoSeparator | editor.js:306 | A block with neither a separator line nor a `---` gives nothing. |
| Bulk.TolerantEntry | editor.js:297-316 | Defines the tolerant block rule: two parts around a separator line, or else the `---` fallback. `TolerantOneSeparator`, `TolerantTwoSeparators`, `Fallback` and `NoSeparator` state its cases. |
| Bulk.StrictOneSeparator | script.js:301-308 | The strict rule on one `\n---\n`: the trimmed cue and notes around it, added only when one of them is non-empty. |
| Bulk.StrictNoSeparator | script.js:301-302 | Without `\n---\n` the strict rule gives nothing, with no fallback. |
| Bulk.StrictEntry | script.js:301-309 | Defines the strict block rule: exactly two parts around `\n---\n`. `StrictOneSeparator` and `StrictNoSeparator` state its cases. |
| Bulk.NormalizeLineEnds | editor.js:288 | Defines `replace(/\r\n/g, '\n')`. `NormalizeWithCRLF` proves that it undoes CRLF line endings. |
| Bulk.Imported | editor.js:283-317 | Defines the pairs an import adds: nothing for blank text, otherwise one entry per block. `BlankAddsNothing`, `ImportedShape` and `CRLFSameAsLF` state its properties. |
| Bulk.StrictIgnoresCRLF | script.js:296-301 | The strict variant does not normalise line endings: a block written with `\r\n` gives nothing. |
| Bulk.NormalizeWithCRLF | editor.js:288 | Normalising a text written with `\r\n` gives back the `\n` text. |
| Bulk.CRLFSameAsLF | editor.js:284-291 | The tolerant import of a text written with `\r\n` equals the import of its `\n` version. |
| JsonState.PairsJson | script.js:199-205 | `getAppState` writes one object per pair, in list order. |
| JsonState.AppState | script.js:197-213 | `getAppState` builds an object with all three properties present and one pair object per pair. |
| JsonState.PairFrom | script.js:144 | Absent properties take the defaults of `createNotePair`: `''`, `''` and `false`. |
| JsonState.PairsBefore | script.js:142-146 | `forEach` adds the pairs of the elements up to the first `null`, in array order, and all of them when there is no `null`. |
| JsonState.FromObject | script.js:138-148 | The topic and the summary are set when present and truthy and are `''` otherwise. The pairs follow array order, with the defaults applied, or are one empty pair when there are none. |
| JsonState.LoadJsonAsWritten | script.js:135-150 | Text that is not JSON changes nothing. A `null` document leaves an empty state with no pair. The load completes exactly for an object without `null` elements. |
| JsonState.NullDocumentWipes | script.js:136-139 | Loading `null` leaves the editor with no pair and reports an error. |
| JsonState.NullItemTruncates | script.js:142-146 | A `null` element stops the load after the pairs before it, and the one-empty-pair rule is never applied. |
| JsonState.LoadJson | script.js:135-150 | The corrected loader either completes, leaving at least one pair, or leaves the state exactly as it was. |
| JsonState.LoadJsonAgrees | script.js:135-150 | The corrected loader equals the code on every input that does not throw. |
| JsonState.PairsJsonRead | script.js:142-146 | Loading the pairs that `getAppState` wrote gives them back. |
| JsonState.JsonRoundTrip | script.js:197-213 | Loading the object built by `getAppState` restores the topic, the summary and the pairs exactly, or gives one empty pair when the list was empty. |
| Files.CollapseFacts | editor.js:205 | Replacing every run of non-word characters with `-` yields only slug characters and never `--`, and keeps the word characters in order. |
| Files.Collapse | editor.js:205 | Defines `replace(/[\s\W-]+/g, '-')`. `CollapseFacts` states its properties. |
| Files.Slug | editor.js:204-205 | Defines the file-name slug. `SlugShape`, `BlankSlug` and `SlugIdempotent` state its properties. |
| Files.SlugShape | editor.js:204-205 | A slug is non-empty, uses only `a-z0-9_-`, never holds `--`, and its word characters are those of the trimmed topic, lower-cased. |
| Files.BlankSlug | editor.js:204 | A blank topic gives `untitled-notes`. |
| Files.SlugIdempotent | editor.js:249-250 | Taking the slug of a slug changes nothing. |
| Files.SlugOfSlugText | editor.js:204-205 | A non-empty text of slug characters without `--` is its own slug. |
| Files.FileName | editor.js:250 | A download name ends in the suffix of its format. |
| Files.Kind | script.js:120-126 | A name ending in `.json` goes to the JSON loader, which is tested first. A name ending in `.md` and not `.json` goes to the Markdown loader. Anything else is unsupported. |
| Files.KindOfFileName | script.js:120-124 | A saved file is dispatched back to the loader of its own format. |
| EditorState.Editor.constructor | editor.js:329-330 | The page starts with empty inputs and one empty pair. |
| EditorState.Editor.AddPair | script.js:49-74 | `createNotePair` appends exactly one pair and changes nothing else. |
| EditorState.Editor.Remove | script.js:83-86 | The new list is `Removed(old, i)`, and the topic and summary are unchanged. |
| EditorState.Editor.MoveUp | script.js:87-92 | The new list is `MovedUp(old, i)`, and the topic and summary are unchanged. |
| EditorState.Editor.MoveDown | script.js:93-98 | The new list is `MovedDown(old, i)`, and the topic and summary are unchanged. |
| EditorState.Editor.ToggleStar | script.js:79-82 | The new list is `Toggled(old, i)`, and the topic and summary are unchanged. |
| EditorState.Editor.MoveButtons | editor.js:37-43 | Up is disabled exactly on the first pair and down exactly on the last. |
| EditorState.Editor.ClearEditor | script.js:189-193 | Both inputs are emptied and every pair is removed. |
| EditorState.Editor.ClearAll | editor.js:270-278 | After a confirmed clear-all the state is empty inputs and exactly one empty pair. |
| EditorState.Editor.GetAppState | script.js:197-213 | The push loop builds exactly `AppState` of the current state. |
| EditorState.Editor.SaveAsJson | editor.js:201-205 | Saving writes the `getAppState` object under the slug name with `.json`. |
| EditorState.Editor.SaveAsMarkdown | editor.js:246-250 | Saving writes `Markdown` of the state under the slug name with `.md`. |
| EditorState.Editor.LoadFromJson | script.js:135-150 | The new state and the outcome are those of the corrected `LoadJson`. |
| EditorState.Editor.LoadFromMarkdown | script.js:152-187 | The loader leaves exactly `ParseMarkdown(md)`. |
| EditorState.Editor.ScanMatches | script.js:165-183 | On a cleared editor, the `exec` loop appends exactly the pairs of the scan, in match order, and counts them. |
| EditorState.ReadMatch | script.js:170-181 | The loop body builds exactly the pair that `MakePair` specifies. |
| EditorState.ScanInvariant | script.js:169-183 | Each round keeps the invariant: the pairs added so far, followed by the pairs still ahead, are all the pairs. |
| EditorState.Editor.BulkImport | editor.js:283-327 | The pairs of `Imported(text, tolerant)` are appended after the existing ones. `count` is their number, and the topic and summary are unchanged. |
| EditorState.Editor.HandleFileUpload | script.js:115-133 | `.json` goes to the corrected JSON loader `LoadJson`, with a failure reported. `.md` goes to the Markdown loader. Any other name changes nothing and reports an unsupported type. |

## Left out

- DOM building and wiring are not modelled: the `innerHTML` templates, `querySelector`, event listeners, CSS classes, notifications and timers. They hold no stateable logic beyond the list edits modelled above.
- Cue and notes texts are modelled as stored verbatim. The code injects them into `<textarea>` elements through `innerHTML`, so text that carries HTML meaning is not preserved.
- Drag-and-drop reordering (`getDragAfterElement` and the drag events of `editor.js`) is not modelled. It depends on the browser's screen geometry.
- The FileReader, `Blob`, `URL.createObjectURL`, the download links and the `confirm()` dialog are not modelled. Uploads are given as a file name, the text and the outcome of `JSON.parse`; clear-all models only the confirmed branch.
- JSON text syntax is not modelled, since `JSON.parse` and `JSON.stringify` are library calls. A property is either absent or of its expected type; other JSON values (a `null` cue that would show as `null`, a number) are not modelled. `pairs` values that are not arrays are treated as absent, as the code does.
- `lastModified` is not modelled; it reads the wall clock.
- Unicode details are not modelled. White space is the ECMAScript WhiteSpace and LineTerminator set written out; `toLowerCase` changes only ASCII letters; `\w` is the ASCII word set, as in the code's regular expressions without the `u` flag.
- MarkdownRoundTrip.RoundTrip: its condition `SafeDoc` is stronger than strictly needed:
  - no field contains `[!`;
  - the topic and the trimmed cues are single lines;
  - notes and summary use `\n` as their only line break;
  - an unstarred cue does not start with the star.
- JsonState.LoadJson, EditorState.Editor.LoadFromJson, EditorState.Editor.HandleFileUpload: the editor's JSON loader, and so the `.json` branch of the upload handler, is the corrected one. On a failed load these members leave the state unchanged. The code as written wipes the editor first: a `null` document leaves it empty with no pair. That behaviour is `JsonState.LoadJsonAsWritten` (see Findings).
- `tailwind.config.js` is not modelled; it is build configuration.

## Findings

| source | as written | input that shows it | evidently intended | confidence | as-written member | corrected member |
|---|---|---|---|---|---|---|
| script.js:135-150 | `clearEditor()` runs before the first property read, so a parsed value that makes that read throw leaves the editor half-loaded. A `null` element of `pairs` does the same: the pairs before it are added, and the one-empty-pair rule is never reached. | a `.json` file whose text is `null`: the editor ends with an empty topic and summary and no pair at all, and the error "Error parsing file" is shown | a load that fails leaves the state unchanged, as it does for text that is not JSON; a completed load always leaves at least one pair | not executed | JsonState.NullDocumentWipes | JsonState.LoadJson |
