# Character extraction demo — a verified Dafny model

The application lets a user upload a text file, build an embedding index over
it, ask a language model to list the characters of the text in the fixed
format `Name: A. Description: B. Personality: C.`, edit the resulting list,
and ask the model for a story about the characters. The language model, the
embedding index and the network are outside services; this project models the
logic that sits around them, in three parts:

- **`Extraction`** (`api/retrieveandquery.ts`): the request handler's guard on
  the HTTP method, the `topK ?? 2` default, and the loop that applies the
  global regular expression
  `/Name:\s*([^\.]+)\.\s*Description:\s*([^\.]+)\.\s*Personality:\s*([^\.]+)\./g`
  to the model's reply and pushes one trimmed record per match. The regular
  expression is modelled element by element on strings (`Run`, `MatchPrefix`);
  `exec` with its `lastIndex` is `Exec`, which tries each position from
  `lastIndex` on; the `while` loop is the method `ExtractCharacters`, proved
  equal to the pure `Extract`. JavaScript's `\s` and `String.prototype.trim`
  use the same set of white-space characters, so both are modelled by one
  predicate `IsWs`.
- **`Story`** (`components/Story.tsx`): the character table's handlers (delete
  is a filter by id, save in edit mode is a map by id, save in add mode
  appends a record with id `length + 1`), the id the Save dialog picks, the
  filter that hides the prompt message, and the "Generate Story" request.
  React's setters swap in whole values, so each handler is a function from the
  old component state to the new one.
- **`Home`** (`pages/index.tsx`): the page as a class whose fields are the
  page's state (`needsNewIndex`, `buildingIndex`, `runningQuery`, `loading`,
  the text, the nodes, the answer, the characters), with one method per
  event. Each network round trip is a start method (the handler up to its
  `await`) and a finish method that takes the endpoint's reply as an input.
  Every method keeps the invariant `Valid()`: `loading == runningQuery` and a
  load and a query never run at once.

`Wrappers` holds the `Option` type used for missing JSON fields and for calls
that may throw; `Sequences` holds two facts about concatenation.

Outside services and foreign calls are parameters: the retriever and model
(`queryEngine` of `Extraction.Handler`), `JSON.parse` followed by the
truthiness test of its `characters` field (`parse`), `JSON.stringify`
(`stringify`), the file reader's result (`content` of `ChooseFile`), and the
replies of the two endpoints (arguments of the finish methods).

An edited name does not reach the story prompt. The code sends
`JSON.stringify({ characters })` of the component's prop, and the edits change
only the local copy (`components/Story.tsx:48-49, 89`).
`Story.GenerateIgnoresLocalEdits` and `Story.GenerateAfterEdits` prove that
local edits do not change the request.

Records that come back from the extraction endpoint carry no `id`. In the model
the id is therefore an `Option<int>`. Two consequences of the code follow and
are proved. Deleting any extracted row deletes every extracted row (every row
without an id), because the filter drops every row whose id is missing
(`Home.DeleteExtractedRow`, and `Story.DeleteMembership` for any list). Editing
a row without an id saves it under id `length + 1`, which overwrites whichever
rows have that id and leaves every row without an id, the edited one among
them, unchanged (`Story.EditWithoutIdOverwritesOther`).

## Model

| member | source | states |
|---|---|---|
| `Extraction.Handler` | api/retrieveandquery.ts:37-101 | A non-POST request gets status 405 with error "Method not allowed" and no payload. A POST asks the model with `topK` when given and 2 otherwise. When the library calls throw, no reply is sent. Otherwise the reply has status 200, no error, the model's text unchanged as `response` and, as `characters`, exactly the records extracted from that text. |
| `Extraction.ExtractCharacters` | api/retrieveandquery.ts:86-97 | The `exec`/`push` loop returns exactly `Extract(responseText)`: the trimmed records of the successive matches, in order. |
| `Extraction.ExecIsLeftmost` | api/retrieveandquery.ts:92 | `exec` from `lastIndex` returns a match of the pattern that starts at or after `lastIndex`, with no match starting between `lastIndex` and it. It returns none only when no match starts at or after `lastIndex`. |
| `Extraction.MatchesAreLeftmost` | api/retrieveandquery.ts:88-96 | The matches the loop visits are matches of the pattern. They do not overlap and come from left to right. No match starts before the first, in a gap between two, or after the last. |
| `Extraction.ExtractedFieldsWellFormed` | api/retrieveandquery.ts:87-95 | No extracted name, description or personality contains a period. None starts or ends with white space. |
| `Extraction.RecordCountBound` | api/retrieveandquery.ts:87-96 | Three times the number of records is at most the number of periods in the reply. |
| `Extraction.MatchCountBound` | api/retrieveandquery.ts:87-96 | From any position on, three times the number of matches is at most the number of periods that remain. |
| `Extraction.NoMatchNoRecords` | api/retrieveandquery.ts:88-96 | The list is empty exactly when the pattern matches at no position of the reply. |
| `Extraction.RoundTrip` | api/retrieveandquery.ts:86-97 | Records with trimmed, period-free fields, rendered as `Name: A. Description: B. Personality: C.` each and joined by white space, are extracted back exactly, in the same order. |
| `Extraction.RoundTripStep` | api/retrieveandquery.ts:86-97 | A well-formed record rendered in front of records that round-trip is extracted first, followed by those records. |
| `Extraction.ExtractEmit` | api/retrieveandquery.ts:86-97 | One rendered record followed by any text is extracted as that record followed by what the text yields. |
| `Extraction.ExtractAfterWs` | api/retrieveandquery.ts:86-97 | White space in front of a text adds no records and removes none. |
| `Extraction.MatchOfEmit` | api/retrieveandquery.ts:87 | The pattern matches a rendered well-formed record. It consumes exactly the record, and the three groups trim back to its fields. |
| `Extraction.MatchPrefixSpec` | api/retrieveandquery.ts:87 | A match exists exactly when every element of the pattern matches. A match starts with `Name:`. Its three groups are non-empty and period-free. It consumes a prefix of the text that contains at least three periods. |
| `Extraction.RunSpec` | api/retrieveandquery.ts:87 | A successful run of any sequence of pattern elements yields one non-empty, period-free group per capture. It consumes a prefix of the text, with at least one period per group. |
| `Extraction.GroupSpec` | api/retrieveandquery.ts:87 | `\s*([^\.]+)\.` matches exactly when the text does not start with a period and contains one. The group is non-empty and period-free and, once trimmed, equals the trimmed text before the first period. The match ends just after that period. |
| `Extraction.SkipWsSpec` | api/retrieveandquery.ts:87 | `\s*` consumes a prefix of white space and stops at the first character that is not white space. It consumes no period. |
| `Extraction.TrimSpec` | api/retrieveandquery.ts:93-95 | `trim` yields a string with no white space at either end. Its characters come from the input. A string that is already trimmed is unchanged. A string made only of white space becomes empty. |
| `Extraction.TrimPadded` | api/retrieveandquery.ts:93-95 | Trimming white space off both sides of a trimmed string gives that string back. |
| `Extraction.LeadingWsSpec` | api/retrieveandquery.ts:93-95 | The leading white space that `trim` removes is the longest prefix made only of white space. |
| `Extraction.TrailingWsSpec` | api/retrieveandquery.ts:93-95 | The trailing white space that `trim` removes is the longest suffix made only of white space. |
| `Extraction.RecordOfMatchWellFormed` | api/retrieveandquery.ts:93-96 | The record pushed for any match has trimmed, period-free fields. |
| `Story.Mount` | components/Story.tsx:40-52 | On mount the local list is a copy of the `characters` prop. The dialog is closed, nothing is selected, and there are no messages. |
| `Story.AddCharacter` | components/Story.tsx:54-57 | "Add Character" clears the selection and opens the dialog. The lists and messages are unchanged. |
| `Story.EditCharacter` | components/Story.tsx:59-62 | The edit icon selects that row's character and opens the dialog. The lists and messages are unchanged. |
| `Story.DeleteCharacter` | components/Story.tsx:64-66 | The trash icon replaces the local list by its filter on the id. The rest of the state is unchanged. |
| `Story.Delete` | components/Story.tsx:65 | The filter never grows the list, and no record left has the deleted id. |
| `Story.DeleteMembership` | components/Story.tsx:65 | A record is in the result exactly when it was in the list and its id differs: every record left was in the list and has another id, and every such record is left. |
| `Story.DeleteCounts` | components/Story.tsx:65 | Each record with another id keeps its number of copies. Records with that id all disappear. |
| `Story.DeleteKeepsOrder` | components/Story.tsx:65 | The result is a subsequence of the list: survivors keep their relative order. |
| `Story.DeleteConcat` | components/Story.tsx:65 | Deleting from a concatenation is concatenating the deletions. |
| `Story.DeleteAbsent` | components/Story.tsx:65 | Deleting an id that no record has changes nothing. |
| `Story.DeleteAllWithId` | components/Story.tsx:65 | Deleting an id that every record has empties the list. |
| `Story.DeleteIdempotent` | components/Story.tsx:65 | Deleting the same id twice gives the same list as deleting it once. |
| `Story.ReplaceByIdPointwise` | components/Story.tsx:71-73 | The edit-mode map keeps the length. At each position, a record with the saved id becomes the saved record and any other record is unchanged. |
| `Story.ReplaceByIdAbsent` | components/Story.tsx:71-73 | When no record has the saved id, an edit-mode save leaves the list as it was. |
| `Story.ReplaceByIdIdempotent` | components/Story.tsx:71-73 | Saving the same record twice is saving it once. |
| `Story.NewRecord` | components/Story.tsx:78 | The appended record has id `length + 1` and the dialog's three fields. |
| `Story.SaveCharacter` | components/Story.tsx:68-82 | Save keeps the length in edit mode and adds one record in add mode. The dialog closes on both paths. The prop, the selection and the messages are unchanged. |
| `Story.SaveEdit` | components/Story.tsx:69-74 | Edit mode: every record with the saved id becomes the saved record. Every other record is unchanged. The length stays the same. |
| `Story.SaveAdd` | components/Story.tsx:75-79 | Add mode: the old list followed by the saved record with id `length + 1`. |
| `Story.DialogRecord` | components/Story.tsx:188-207 | The dialog's record takes the selected character's id when it has one. With no selection, or a selected record without an id, the id is `length + 1`. The three fields are the dialog's inputs. |
| `Story.SubmitDialog` | components/Story.tsx:186-207 | Pressing Save always closes the dialog. |
| `Story.SubmitEditWithId` | components/Story.tsx:69-74 | Editing a character whose id is `k` keeps the length. It overwrites exactly the records with id `k`, using the dialog's fields (the id comes from line 190). |
| `Story.AddAfterDeleteRepeatsId` | components/Story.tsx:64-79 | The add-mode id ignores existing ids. With ids 1 and 2, deleting 1 and then adding gives two records with id 2. |
| `Story.EditWithoutIdOverwritesOther` | components/Story.tsx:68-82 | For any state where the selected record has no id, Save replaces the list by its edit-mode map with the record `{id: length + 1, …inputs}` (line 190). The length is kept, the rows with id `length + 1` become that record, and every other row, including every row without an id and so the edited one, is unchanged. |
| `Story.EditWithoutIdExample` | components/Story.tsx:68-82 | With rows `X` (no id) and `Y` (id 3), editing `X` rewrites `Y` and leaves `X` as it was. |
| `Story.FilterMessageContent` | components/Story.tsx:92-103 | The displayed content is either `""` or the message unchanged. It is `""` exactly when the message parses as JSON with a truthy `characters` field, or is itself empty. Unparsable content is shown as is. |
| `Story.ShownMessages` | components/Story.tsx:224-226 | The pane shows one paragraph per message, each the filtered content of that message. |
| `Story.GenerateStory` | components/Story.tsx:84-90 | "Generate Story" replaces the messages by exactly one user message. The character lists, the dialog and the selection are unchanged. |
| `Story.GenerateIgnoresLocalEdits` | components/Story.tsx:84-90 | The request's content is the JSON of the `characters` prop. Two states with the same prop send the same request, whatever their local lists. |
| `Story.GenerateAfterEdits` | components/Story.tsx:46-90 | After any local deletes, adds or edits, the request equals the one the freshly mounted component would send. |
| `Story.PromptIsHidden` | components/Story.tsx:92-103 | When the request JSON parses back with its `characters` field, the displayed list is a single empty paragraph. |
| `Home.AnswerAfter` | pages/index.tsx:140-148 | After a reply: a payload's message wins; otherwise a truthy error is shown; otherwise the previous answer stays. |
| `Home.RowsOf` | pages/index.tsx:198-201 | The page holds the extracted records field for field, one row each, in order, with no id. |
| `Home.DeleteExtractedRow` | components/Story.tsx:65 | Deleting any row of a freshly extracted list deletes all of its rows. Their ids are all missing, and a missing id equals a missing id. |
| `Home.Home.constructor` | pages/index.tsx:33-54 | Initially `needsNewIndex` holds and `buildingIndex`, `runningQuery` and `loading` do not. The character list and nodes are empty, the text is the bundled essay, and the answer is empty. "Load Book" is enabled and the panel hidden. |
| `Home.Home.ChooseFile` | pages/index.tsx:86-103 | With no file, nothing changes. A file that is not `text/plain` sets the text to "Error" and leaves every flag unchanged. A plain-text file sets the text to its content and `needsNewIndex` to true. The other flags, the answer, the nodes and the characters are unchanged. `Valid()` is kept. |
| `Home.Home.StartLoadBook` | pages/index.tsx:122-126 | Callable only when "Load Book" is enabled. It sets the answer to "Building index...", `buildingIndex` to true and `needsNewIndex` to false. Afterwards neither button is enabled and the panel is hidden. `Valid()` is kept. |
| `Home.Home.FinishLoadBook` | pages/index.tsx:138-150 | `buildingIndex` becomes false, whether an error or a payload came back. `needsNewIndex` is unchanged, so it stays false after an error. A payload stores its nodes and sets the answer to "Book Loaded!". An error alone sets the answer to the error. `Valid()` is kept. |
| `Home.Home.StartQuery` | pages/index.tsx:157-177 | Callable only when the panel is visible and "Extract Characters" is enabled. It sets the answer to "Running query..." and sets `runningQuery` and `loading` to true. `Valid()` is kept. |
| `Home.Home.FinishQuery` | pages/index.tsx:192-205 | `runningQuery` and `loading` become false. A payload sets the answer to its `response` and the characters to its records. An error alone sets the answer to the error. `Valid()` is kept, so `loading == runningQuery` and never a load during a query. |
| `Home.PanelAndButtons` | pages/index.tsx:122-173 | "Load Book" is enabled exactly when `needsNewIndex && !buildingIndex && !runningQuery`. The panel is visible exactly when all three flags are false, which is exactly when "Extract Characters" is enabled. The panel and an enabled "Load Book" never coexist. |
| `Home.LoadErrorOpensPanel` | pages/index.tsx:123-157 | A load that fails with an error leaves "Load Book" disabled and shows the extraction panel, with the nodes unchanged and the error as the answer. |
| `Home.UploadLoadExtract` | pages/index.tsx:86-205 | Upload a plain-text file, load it, and extract through `Extraction.Handler`. When the model answers, all three flags end false and the panel is visible; the text is the file's content, the nodes are the load's, the answer is the model's reply and the characters are the rows of the records extracted from it. When the model's reply is well-formed records in the requested format, the characters are exactly those records, one row each. When the endpoint's calls throw, `runningQuery` and `loading` stay true and both buttons stay disabled. |

## Left out

- The embedding index, the retriever, the query engine and the chat model (`api/retrieveandquery.ts:46-80`) are foreign library calls over floating-point embeddings. They are one function parameter, `queryEngine`, and top-K ranking is not modelled; `temperature` and `topP` only pass through and are left out.
- The chunk-and-embed endpoint `/api/splitandembed` is not part of this model. Its reply is the input of `FinishLoadBook`.
- `fetch`, `FileReader`, `JSON.parse`, `JSON.stringify`, `console.error` and `scrollIntoView` are I/O or foreign calls. Parsing and serialising are parameters, and the other calls have no modelled effect.
- The `useChat` hook's streaming (assistant messages arriving while `isLoading`, and the disabled "Generate Story" button) is left out. The messages are a plain sequence, and only `setMessages([])` followed by `append` is modelled.
- Home.Home.FinishLoadBook and Home.Home.FinishQuery model a reply that arrives and parses. When `fetch` or `result.json()` rejects (`pages/index.tsx:127-138, 178-192`), the rest of the handler never runs, so `buildingIndex`, or `runningQuery` and `loading`, stay true until the page reloads. The model has no finish event for that case: the flags simply stay as the start method left them, as `Home.UploadLoadExtract` shows for a failed query.
- Extraction.Handler: a body without `nodesWithEmbedding` (`.map` at `api/retrieveandquery.ts:49`) and a failing model call both make the handler throw; the model folds both into `queryEngine` returning `None`, and then sends no reply. What the framework answers to a thrown handler is not modelled.
- `Home.Home.ChooseFile` folds the reader's `onload` callback into the upload event. The interval between `readAsText` and `onload`, during which other events could run, is not modelled.
- The `parseInt`/`parseFloat` conversions of the form fields, chunk size and overlap, and the `query` text box are left out. They are only passed on to the endpoints.
- `components/book.tsx` (a mock that answers hard-coded data after a timer) and `components/CharacterTable.tsx` (pure rendering) are not part of this model.
- JSX, styling, the dialog and table components, and reading the dialog inputs through `document.getElementById` are left out. The inputs' values are the arguments of `Story.SubmitDialog`.
- `Story` does not declare the `onUpdateCharacters` prop passed at `pages/index.tsx:233`, and the local list is seeded from the prop only on mount. The model keeps the prop and the local list as separate fields and does not synchronise them. Remounting the component when the panel is shown again is not modelled.
- Code points are `char`s. Characters outside the Basic Multilingual Plane, which JavaScript strings hold as surrogate pairs, are not distinguished.
- Extraction.MatchPrefixSpec: states that a match uses up at least three periods, not exactly three, because the bound on the record count needs only that direction.
- Extraction.RunSpec: states at least one period per group rather than exactly one, for the same reason.
