# Gemini chat dashboard — verified model of the core

The application is a single-page React dashboard. A user types questions,
optionally attaching a file, and a text-generation service answers them.
The application keeps a chat history of question/answer pairs, with a
sidebar listing the questions and a delete button on each. The dashboard
also has:

- a code-generation tab, which sends a description to the same service and
  shows the first fenced code block of the reply;
- a data tab, which parses CSV text into records and filters rows by
  case-insensitive substring matches on chosen columns.

This project models the logic of four pieces of that program in Dafny and
proves what each promises:

- `CsvParser`: `parseCSV` (`src/utils/csvParser.ts`). The text is cut at
  newlines, line 0 gives the headers, and each later line becomes a record
  by positional pairing. Values stay raw strings.
- `DataFilter`: the `DataFilter` component. The filter list is the class
  `FilterPanel`, whose methods `AddFilter`, `RemoveFilter` and
  `UpdateFilter` change the `filters` field. After every change the
  component's effect recomputes `filtered`, which always equals the pure
  `ApplyFilters` of the data (the invariant `Valid`).
- `CodeBlock`: the fence extraction of the code-generation tab, modelled as
  the pure `ExtractCode`, and the `CodeGenerator` class, whose
  `HandleGenerateCode` updates `generatedCode` and `loading`.
- `ChatApp`: the `App` component's chat state, a class with the fields
  `question`, `chatHistory`, `loading` and `selectedFile`, and the handlers
  that change them. Taken one at a time, every handler keeps the history
  `Paired`: alternately a user question and the one AI message that
  answers it. On a paired history the sidebar's delete button therefore
  removes exactly the chosen question and its answer. A delete while an
  answer is still pending breaks the pairing
  (`ChatApp.DeleteWhileAwaitingAnswer`).

Supporting modules:

- `Text`: the JavaScript string primitives the code uses (`split`, `join`,
  `indexOf`/`includes`, `trim`, `toLowerCase`).
- `SeqOps`: `Array.prototype.splice` with its start normalisation, plus the
  subsequence order.
- `Generation`: the outcome of a call to the generation service.
- `Wrappers`: `Option`, which stands for `undefined`/`null`.

The service call, the clock and the file reader are inputs to the methods:
the reply (`Generated(text)` or `Failed`), the timestamps, and whether
reading the selected file succeeded.

The CSV format here is the naive one the code implements. There is no
quoting, so section 2 of RFC 4180 (quoted fields) does not apply. CSV
values are not converted to numbers: the numeric typing seen on the
visualisation page comes from its papaparse loader, while `parseCSV` keeps
every value a string (`CsvParser.RawValues`).

## Model

| member | source | states |
|---|---|---|
| Text.Split | src/utils/csvParser.ts:2 | `split` on one character gives one more piece than there are separators, and no piece contains the separator |
| Text.JoinSplit | src/utils/csvParser.ts:2-3 | joining the pieces of a split with the separator gives the original text back |
| Text.SplitJoin | src/utils/csvParser.ts:2-3 | splitting a join of separator-free pieces gives the pieces back |
| Text.SplitTrailing | src/utils/csvParser.ts:2 | a separator at the end adds exactly one empty piece at the end |
| CsvParser.BuildRecord | src/utils/csvParser.ts:7-10 | the record built by the `reduce` has exactly the header names as keys |
| CsvParser.ParseCsv | src/utils/csvParser.ts:1-12 | one record per line after the first; every record has exactly the header names as keys |
| CsvParser.RecordField | src/utils/csvParser.ts:5-11 | record j holds, under the header at position k, field k of line j+1, or `undefined` when the line is shorter (for a header not repeated later) |
| CsvParser.LastWriteWins | src/utils/csvParser.ts:7-10 | a repeated header keeps the value of its last position |
| CsvParser.ExtraFieldsDropped | src/utils/csvParser.ts:6-10 | fields beyond the number of headers are ignored |
| CsvParser.NoNewlineNoRecords | src/utils/csvParser.ts:2-5 | text without a newline gives no records |
| CsvParser.TrailingNewline | src/utils/csvParser.ts:2-11 | a trailing newline appends exactly one record, built from the empty line, and keeps the earlier ones |
| CsvParser.EmptyLineRecord | src/utils/csvParser.ts:6-9 | an empty line gives `""` under the header whose last position is 0 and `undefined` under all others |
| CsvParser.OneDataLine | src/utils/csvParser.ts:1-12 | a header line plus one data line gives exactly the record pairing their fields |
| CsvParser.RawValues | src/utils/csvParser.ts:1-12 | values stay raw strings: carriage returns are kept and numbers are not converted |
| Text.Lower | src/components/DataFilter.tsx:38 | the result of `toLowerCase` holds no capital letter and equals the input up to case, character by character |
| Text.LowerUnique | src/components/DataFilter.tsx:38 | a capital-free string equal to the input up to case is its lower-case form |
| Text.LowerIdempotent | src/components/DataFilter.tsx:38 | lower-casing twice is the same as lower-casing once |
| Text.LowerIgnoresCase | src/components/DataFilter.tsx:38 | two strings equal up to case have the same lower-case form |
| Text.Contains | src/components/DataFilter.tsx:38 | `includes` holds exactly when the pattern occurs at some position |
| Text.IndexOf | src/components/DataFilter.tsx:38 | finds the first occurrence at or after the start, or reports that there is none |
| Text.ContainsEmpty | src/components/DataFilter.tsx:38 | every string includes the empty string |
| DataFilter.ApplyFilters | src/components/DataFilter.tsx:36-39 | the result is a subsequence of the data (order kept) and holds every copy of each row that passes all filters and no copy of any other row |
| DataFilter.NoFiltersKeepAll | src/components/DataFilter.tsx:37-38 | with no filters every row is kept |
| DataFilter.EmptyValuePasses | src/components/DataFilter.tsx:38 | a filter with an empty value keeps every row |
| DataFilter.EmptyValueFilterNeutral | src/components/DataFilter.tsx:36-39 | adding an empty-value filter does not change the result |
| DataFilter.FiltersCompose | src/components/DataFilter.tsx:37-39 | filtering by `fs + gs` equals filtering by `fs`, then by `gs` |
| DataFilter.MoreFiltersFewerRows | src/components/DataFilter.tsx:37-39 | when every filter of `fs` is also in `gs`, the rows `gs` keeps are a subsequence of those `fs` keeps |
| DataFilter.FilterIgnoresCase | src/components/DataFilter.tsx:38 | the match is case-insensitive: changing the case of the cell or of the filter value does not change whether a row passes |
| DataFilter.Passes | src/components/DataFilter.tsx:38 | the `every` callback: a filter with an empty value always passes, and a row passes exactly when the lower-cased filter value occurs in the lower-cased cell text; its effect on the rows is stated by `DataFilter.ApplyFilters`, and its case-insensitivity by `DataFilter.FilterIgnoresCase` |
| DataFilter.MissingColumnReadsUndefined | src/components/DataFilter.tsx:38 | a row without the column (for a name not inherited from `Object.prototype`) passes exactly when the lower-cased filter value occurs in "undefined" |
| DataFilter.FilterPanel.constructor | src/components/DataFilter.tsx:14-18 | no filters at mount, and every row is reported |
| DataFilter.FilterPanel.Refresh | src/components/DataFilter.tsx:16-18 | the effect reports the filter of the data by the current list |
| DataFilter.FilterPanel.AddFilter | src/components/DataFilter.tsx:20-22 | appends `{column: columns[0], value: ""}` and keeps the earlier entries; the reported rows do not change |
| DataFilter.FilterPanel.RemoveFilter | src/components/DataFilter.tsx:24-28 | `splice(index, 1)`: an index in range removes exactly that entry and keeps the order; an index at or past the end changes nothing; no reported row is lost |
| DataFilter.FilterPanel.UpdateFilter | src/components/DataFilter.tsx:30-34 | only the chosen field of entry `index` changes; an index out of range throws and changes nothing |
| SeqOps.Splice | src/components/DataFilter.tsx:26 | the elements before the normalised start stay, the removed run is gone, and the rest move down by the number removed |
| SeqOps.SpliceAt | src/components/DataFilter.tsx:26 | for a start inside the array exactly the run there is removed; at or past the end nothing changes |
| SeqOps.SubseqElements | src/components/DataFilter.tsx:37 | a subsequence is never longer and holds only elements of the sequence |
| CodeBlock.FirstFromIsIndexOf | src/components/CodeBlock.tsx:96 | the marker search is `indexOf` of "```" or of a newline from the same start |
| CodeBlock.FirstFrom | src/components/CodeBlock.tsx:96 | finds the first fence or newline at or after a position, or reports that there is none |
| CodeBlock.FindFence | src/components/CodeBlock.tsx:96-97 | a found fence is a match of the pattern |
| CodeBlock.FindFenceIsFirstMatch | src/components/CodeBlock.tsx:96-97 | the found fence is the first match in the regex engine's leftmost, lazy order; nothing is found only when there is no match |
| CodeBlock.ExtractCode | src/components/CodeBlock.tsx:98 | `match ? match[1].trim() : generatedText`: the code shown is never longer than the reply; its meaning is stated by `CodeBlock.FirstMatchExtracted` (the trimmed group of the first match) and `CodeBlock.NoFenceVerbatim` (the reply itself when nothing matches) |
| CodeBlock.FirstMatchExtracted | src/components/CodeBlock.tsx:96-98 | the result is the trimmed group of the first match |
| CodeBlock.NoFenceVerbatim | src/components/CodeBlock.tsx:98 | without a match the reply is returned verbatim and untrimmed |
| CodeBlock.FirstBlockFound | src/components/CodeBlock.tsx:96-97 | text after the first fenced block does not move the match |
| CodeBlock.FirstBlockOnly | src/components/CodeBlock.tsx:96-98 | text after the first fenced block does not change the extracted code |
| CodeBlock.FencedBlockExtracted | src/components/CodeBlock.tsx:96-98 | for a reply laid out as prefix, fence, tag, newline, body, fence, rest, the result is the trimmed body: the tag and the rest are dropped |
| CodeBlock.WorkedExample | src/components/CodeBlock.tsx:96-98 | "intro ```js\nconsole.log(1)\n``` outro" gives "console.log(1)" |
| Text.Trim | src/components/CodeBlock.tsx:98 | `trim` (also used at src/components/CodeBlock.tsx:85 and src/App.tsx:982) never lengthens its input; what it keeps is stated by `Text.TrimSpec` |
| Text.TrimSpec | src/components/CodeBlock.tsx:98 | `trim` keeps a slice with only white space around it, empty exactly for blank text, and with no white space at either end |
| Text.TrimLineBreak | src/components/CodeBlock.tsx:98 | a line followed by a newline trims to the line |
| CodeBlock.CodeGenerator.constructor | src/components/CodeBlock.tsx:78-81 | empty description and code, language "javascript", not loading |
| CodeBlock.CodeGenerator.HandleGenerateCode | src/components/CodeBlock.tsx:84-110 | a blank description does nothing and makes no call; otherwise the prompt is "Generate <language> code for the following description: <code>", the code shown is the extracted code or the error text, and `loading` ends false |
| ChatApp.UserView | src/App.tsx:1373-1374 | `chatHistory.filter(msg => msg.type === "user")`: every entry is a user message and the list is no longer than the history; its full meaning is stated by `ChatApp.UserViewSelects` and `ChatApp.UserViewOfPaired` |
| ChatApp.UserViewSelects | src/App.tsx:1373-1375 | the sidebar list is a subsequence of the history holding every copy of each user message and nothing else |
| ChatApp.UserViewOfPaired | src/App.tsx:1373-1375 | on a paired history, sidebar entry i is history entry 2i |
| ChatApp.PairedCount | src/App.tsx:1373-1375 | a paired history has even length and one sidebar entry per exchange |
| ChatApp.AppendExchange | src/App.tsx:1016-1039 | appending a question and its answer keeps the history paired and adds exactly that question to the sidebar |
| ChatApp.DeleteQuestion | src/App.tsx:1056-1062 | deleting sidebar entry i removes history entries 2i and 2i+1, keeps the history paired, and removes exactly entry i from the sidebar |
| ChatApp.DeletePairKeepsPaired | src/App.tsx:1056-1062 | `splice(2 * index, 2)` keeps the history paired for every index, negative ones included |
| ChatApp.DeleteWhileAwaitingAnswer | src/App.tsx:1015-1062 | deleting the newest question while its answer is pending removes that question alone, and the late answer leaves the history unpaired |
| ChatApp.App.constructor | src/App.tsx:912-915 | empty question and history, no file, not loading |
| ChatApp.App.HandleFileChange | src/App.tsx:961-975 | no file, or a file over 5 MiB, changes nothing; otherwise the file is selected and " [File: name]" is appended to the question; exactly 5 MiB is accepted |
| ChatApp.App.ProcessQuestion | src/App.tsx:1015-1054 | appends the user message and then exactly one AI message (reply or error text), clears the question and the file, sends the message content as the prompt, adds exactly that question to the sidebar, and keeps a paired history paired |
| ChatApp.App.GenerateAnswer | src/App.tsx:981-1004 | a blank question with no file changes nothing; a failed file read leaves history, question and file unchanged; otherwise the history grows by the user message (with " (File: name)" exactly when a file is selected) and one AI message; `loading` ends false; a paired history stays paired |
| ChatApp.App.DeleteHistoryItem | src/App.tsx:1056-1062 | `splice(2 * index, 2)` on any history: removes the entries at 2·index and 2·index+1 that exist (only the last entry when 2·index is the last position), keeps the order, changes nothing past the end; on a paired history it removes exactly sidebar entry `index` and keeps the history paired |
| ChatApp.App.ClearChat | src/App.tsx:1093-1099 | the history becomes empty |

## Left out

- The generation service calls (`getGenerativeModel`, `generateContent`, `response.text()`), in `src/App.tsx` and `src/components/CodeBlock.tsx`. They are a foreign library. The model sees only their outcome, `Generation.Reply`, given as a method parameter.
- `fileToBase64` and the `FileReader`, in `src/App.tsx`. This is browser I/O, and its result is never used. Only its success or failure (`ChatApp.FileRead`) is an input.
- `Date.now()`: timestamps are method parameters.
- Toasts and `console.error`. These are user-facing side effects with no state.
- `exportChat` and `copyToClipboard`. These are download and clipboard plumbing.
- The model temperature and token limit passed to the service: a floating-point temperature (0.7) and an integer token limit (1000, src/App.tsx:924). Both are opaque settings of the foreign call.
- `src/components/DataVisualization.tsx`. Its parsing is papaparse plus `fetch`, and the rest is chart rendering.
- `src/components/Debugger.tsx`. It patches the global console.
- The presentational components, keyboard shortcuts, theme and scrolling.
- ChatApp.App.GenerateAnswer: each submission runs as one atomic step, from the question to the stored answer. Two submissions cannot overlap, since Send is disabled while loading (src/App.tsx:1345). But the sidebar's delete buttons (src/App.tsx:1389, 1409) and Clear Chat (src/App.tsx:1236) stay enabled while an answer is pending. A delete or clear in that window lets the late answer land unpaired (`ChatApp.DeleteWhileAwaitingAnswer` shows the delete case), and later deletes then remove the wrong entries. The model does not interleave handlers, so its pairing invariant holds only for handlers taken one at a time; React's batched, asynchronous state updates are not modelled either.
- ChatApp.App.DeleteHistoryItem: on a history that is not paired the method still states the resulting list exactly; the sidebar and pairing guarantees are stated only for a paired history.
- Text.Lower: lower-cases ASCII capitals only. It does not model the full Unicode case mapping of `toLowerCase`.
- DataFilter.CellText: rows hold cells already converted with `String(...)`. The conversion of numbers, objects and `null` to text is not modelled. A missing column reads as "undefined" only when its name is not a property every JavaScript object inherits from `Object.prototype` (`constructor`, `toString`, `valueOf`, `hasOwnProperty`, `isPrototypeOf`, `propertyIsEnumerable`, `toLocaleString`, `__proto__`, …). For such a name `item[filter.column]` reads the inherited value, and `String(...)` of it is a text such as "function Object() { [native code] }". So a row without a `constructor` cell passes the filter value "object", while the model (`DataFilter.MissingColumnReadsUndefined`) says it fails.
- DataFilter.FilterPanel: `data` is fixed for the life of the component. The source's effect does not rerun when only the data changes, and that staleness is not modelled. Property keys are plain strings, so the special `__proto__` key of JavaScript objects is not modelled.
- DataFilter.FilterPanel.UpdateFilter: `updateFilter` writes the field into the entry object shared with the previous list (aliasing). The model replaces the entry by value, which gives the same resulting list.
- CsvParser.ParseCsv: the JavaScript record object's own key order is not modelled. Records are maps.
- CsvParser.BuildRecord: a header named `__proto__` is treated as an ordinary key. In JavaScript, assigning `obj["__proto__"]` in the `reduce` goes to the prototype setter, so the record gets no own key of that name; the model's key set includes it.
- Text.IsSpace: strings are sequences of Unicode scalar values. Lone surrogate code units cannot occur in the model.
