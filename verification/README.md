# Aether UI editor core, modelled in Dafny

Aether UI is a browser editor in which a user describes a UI component in chat.
An AI backend generates or refines the component's JSX and CSS, and a live
preview renders it. This project models the editor's client-side state logic
from `src/components/aether-ui-main.tsx`, plus the recent-sessions list of
`src/app/page.tsx`, as pure Dafny functions, and proves properties of them:

- **Types** (`types.dfy`): messages, code versions and sessions, both as held
  in memory and as read back from storage, where an older record may lack
  `codeHistory`.
- **Text** (`text.dfy`): JavaScript's white-space class (shared by `trim` and
  `\s`) and the word class `\w`; `includes` as a specification and as a scan;
  and the greedy runs that the regular expressions use.
- **History** (`history.dfy`): each session's version timeline. Committing a
  version drops the redo branch, appends, keeps the last five and moves the
  cursor. Undo and redo move the cursor one slot within the timeline. A
  direct editor change replaces the shown code without recording a version.
- **Sessions** (`sessions.dfy`): the session list and its active id. It
  covers the fresh session with its placeholder code, new, select, delete,
  the update of the active session, and the startup load with the migration
  of records that have no history.
- **Orchestrator** (`orchestrator.dfy`): the prompt handler as one atomic
  step.
  - It has a guard, a user message that carries the pending image, and
    naming after the first prompt.
  - The backend call is Generate while the placeholder text is shown and
    Refine otherwise.
  - On success the response is committed with an assistant reply. On
    failure only a system error message is added.
  - The AI backend is a parameter: a function from request to response.
- **Preview** (`preview.dfy`): `preparedCode`, which turns the component
  source into something the live renderer can run. The render, export and
  declaration patterns each have two forms: a predicate that says what a
  match is, and a scan proved to find the leftmost match. The arrow-function
  pattern is modelled only as a scan. Its fallback (lines 410-415) appends
  the same render call as line 414 and is proved unreachable: every
  arrow-function match is also a match of the declaration pattern at the
  same place, so the declaration branch always wins first.
- **Recent** (`recent.dfy`): the landing page's five newest sessions and the
  click that opens one of them.

Identifiers from `uuidv4()`, the random name pick and the clock are parameters
of the operations that need them. Storage is represented by its decoded
contents: `None` when nothing is stored or the stored text cannot be parsed.

## Model

| member | source | states |
|---|---|---|
| `Text.IndexFrom` | src/components/aether-ui-main.tsx:226 | the scan for a substring returns the leftmost occurrence at or after its start, or none when there is none |
| `Text.IndexFindsContained` | src/components/aether-ui-main.tsx:386 | `includes` succeeds exactly when the substring occurs somewhere |
| `Text.Trim` | src/components/aether-ui-main.tsx:201 | `trim()` is empty exactly when the prompt is all white space, which is the blank-prompt test; otherwise it starts and ends with a non-space |
| `History.SliceTo` | src/components/aether-ui-main.tsx:259 | `slice(0, end)` gives a prefix: of length `end` when that is in range, the whole array when `end` is past the end |
| `History.LastN` | src/components/aether-ui-main.tsx:260 | `slice(-n)` keeps `min(n, length)` entries, and they are the last ones in order |
| `History.Advance` | src/components/aether-ui-main.tsx:258-260 | the new timeline is non-empty, holds at most five versions and ends with the new one; from a cursor inside the timeline its length is `min(cursor + 2, 5)` and the older entries are the ones up to the cursor, in order; from the newest slot it is the last five of the timeline with the new version appended |
| `History.AdvanceKeepsUpToCursor` | src/components/aether-ui-main.tsx:258-260 | from a cursor inside the timeline, truncating after the cursor, appending and keeping the last five gives `min(cursor + 2, 5)` entries, the older ones being those up to the cursor |
| `History.Commit` | src/components/aether-ui-main.tsx:251-268 | after a commit the session is synced, the timeline holds at most five versions and is advanced as `Advance` states, and the cursor is on the new version, which is shown; one reply is appended to the chat; nothing else changes |
| `History.CommitReadsTimeline` | src/components/aether-ui-main.tsx:251-268 | the timeline and cursor a commit leaves depend only on the timeline and cursor before it, so the update sees the same history whatever the first update changed in the chat, name or image |
| `History.CommitDropsRedoBranch` | src/components/aether-ui-main.tsx:258-260 | below the cap, a commit keeps exactly the versions up to the cursor and appends the new one |
| `History.LastNOfSuffix` | src/components/aether-ui-main.tsx:260 | the last `n` entries of a suffix that is at least `n` long are the last `n` entries of the whole |
| `History.LastNAbsorbs` | src/components/aether-ui-main.tsx:260 | trimming to the last five, appending and trimming again equals appending first and trimming once |
| `History.CommitAllKeepsLastFive` | src/components/aether-ui-main.tsx:259-267 | successive commits at the newest version keep exactly the five most recent versions, with the cursor on the last |
| `History.ShowSlot` | src/components/aether-ui-main.tsx:288-291 | spreading `{ ...codeHistory[i], currentVersion: i }` sets the cursor to `i` and shows slot `i`'s code and stylesheet, or only moves the cursor when the slot is missing; nothing else changes |
| `History.Undo` | src/components/aether-ui-main.tsx:285-293 | at version 0 or below undo changes nothing; otherwise the cursor moves back by one and, when that slot exists, the code and stylesheet shown are that slot's, whatever was shown before; past the end only the cursor moves; nothing else changes; a synced session stays synced |
| `History.Redo` | src/components/aether-ui-main.tsx:295-303 | at the last version redo changes nothing; otherwise the cursor moves forward by one and, when that slot exists, the code and stylesheet shown are that slot's; below -1 only the cursor moves; nothing else changes; a synced session stays synced |
| `History.UndoDiscardsEdit` | src/components/aether-ui-main.tsx:285-293 | after edits typed into either editor, undo shows the slot before the cursor exactly as an undo without the edits would: the edited text is gone |
| `History.RedoAfterUndo` | src/components/aether-ui-main.tsx:285-303 | on a synced session, redo restores exactly what an effective undo left |
| `History.UndoAfterRedo` | src/components/aether-ui-main.tsx:285-303 | on a synced session, undo restores exactly what an effective redo left |
| `History.RunKeepsSynced` | src/components/aether-ui-main.tsx:251-303 | any sequence of commits, undos and redos keeps the cursor in range, the shown code equal to the cursor's version, and at most five versions |
| `History.EditJsx` | src/components/aether-ui-main.tsx:642 | an edit in the component editor sets the component code (empty for no value) and nothing else; a synced session stays synced exactly when the text is unchanged |
| `History.EditCss` | src/components/aether-ui-main.tsx:652 | the same as `EditJsx`, for the stylesheet |
| `Sessions.Fresh` | src/components/aether-ui-main.tsx:79-94 | a new session gets a name from the fifteen, a single system message, the placeholder component and stylesheet, and one version holding them; its cursor is 0, no image is pending and it shows the placeholder text |
| `Sessions.PlaceholderCarriesMarker` | src/components/aether-ui-main.tsx:81 | the placeholder component contains the text that marks a session with no real component |
| `Sessions.FindId` | src/components/aether-ui-main.tsx:159 | `find` by id succeeds exactly when some session has the id; the session it returns has that id and no earlier session has it |
| `Sessions.Active` | src/components/aether-ui-main.tsx:158-160 | there is an active session exactly when the active id names a session; it belongs to the list and carries that id |
| `Sessions.NewSession` | src/components/aether-ui-main.tsx:172-176 | the fresh session is appended and becomes active; the store is well formed; ids stay distinct if the new one is new |
| `Sessions.Select` | src/components/aether-ui-main.tsx:178-182 | selecting a known id makes it active; selecting an unknown id changes nothing; the list never changes |
| `Sessions.RemoveId` | src/components/aether-ui-main.tsx:193 | the filter keeps exactly the sessions with another id; the length drops by the number of sessions with the id; distinct ids stay distinct |
| `Sessions.RemoveIdKeepsOrder` | src/components/aether-ui-main.tsx:193 | the filter distributes over concatenation, so survivors keep their order |
| `Sessions.UniqueCountsAtMostOne` | src/components/aether-ui-main.tsx:193 | with distinct ids, exactly one session has an id that is present |
| `Sessions.RemoveLeavesSurvivor` | src/components/aether-ui-main.tsx:185-195 | with two or more sessions with distinct non-empty ids, the filter leaves at least one session, and no empty id |
| `Sessions.RemoveKeepsOtherIds` | src/components/aether-ui-main.tsx:193 | every id other than the deleted one is still present after the filter |
| `Sessions.Delete` | src/components/aether-ui-main.tsx:184-197 | with at most one session a delete changes nothing; otherwise the list is filtered and the active id is kept unless it was deleted; deleting the active session removes exactly one and activates the first survivor; a well-formed store with distinct non-empty ids stays so |
| `Sessions.ApplyToActive` | src/components/aether-ui-main.tsx:162-170 | the update is applied to the sessions with the active id and to no other; the active id and the length are unchanged |
| `Sessions.ApplyToActiveKeepsStore` | src/components/aether-ui-main.tsx:162-170 | an update that keeps the id leaves the store well formed with distinct ids, and the updated session becomes the active one |
| `Sessions.Migrate` | src/components/aether-ui-main.tsx:120-129 | a record without a history gets one version holding its code, at cursor 0, synced; a record with a history passes through unchanged; all other fields are copied |
| `Sessions.Stored` | src/components/aether-ui-main.tsx:151 | a session written to storage carries its history and its code, id and cursor |
| `Sessions.StoredThenMigrated` | src/components/aether-ui-main.tsx:120-129 | a record written by the editor passes through the load-time migration unchanged: writing then loading gives the same session |
| `Sessions.MigrateAll` | src/components/aether-ui-main.tsx:120 | every record is migrated, in order |
| `Sessions.Load` | src/components/aether-ui-main.tsx:111-145 | the loaded store is well formed; with nothing stored, or an empty list, it holds one fresh active session; otherwise it holds the migrated records, and the stored active id is restored when it is non-empty and names one of them, else the first is active |
| `Sessions.UndoActive` | src/components/aether-ui-main.tsx:285-293 | without an active session, or with the active session at version 0 or below, nothing changes; otherwise the step back computed from the active session (the first with the active id) is spread onto every session with that id, and every other session, the length and the active id are unchanged; with distinct ids the store stays well formed and its active session is the undone one |
| `Sessions.RedoActive` | src/components/aether-ui-main.tsx:295-303 | without an active session, or with the active session at its newest version, nothing changes; otherwise the step forward computed from the active session is spread onto every session with that id, and every other session, the length and the active id are unchanged; with distinct ids the store stays well formed and its active session is the redone one |
| `Orchestrator.SessionName` | src/components/aether-ui-main.tsx:213 | a prompt of at most 40 characters is the name; a longer one gives its first 40 characters followed by `...` |
| `Orchestrator.ImageArg` | src/components/aether-ui-main.tsx:232 | the image goes to the backend exactly when there is one and it is not empty |
| `Orchestrator.UserMessage` | src/components/aether-ui-main.tsx:203-208 | the user message carries the prompt, the pending image and the first drawn id |
| `Orchestrator.AssistantMessage` | src/components/aether-ui-main.tsx:245-249 | the acknowledgement is an assistant message without image that quotes the prompt |
| `Orchestrator.ErrorMessage` | src/components/aether-ui-main.tsx:272-273 | the failure report is a system message with the fixed error text and no image |
| `Orchestrator.Request` | src/components/aether-ui-main.tsx:226-241 | the request is Generate exactly when the shown code contains the placeholder text; Refine carries the prompt, the current code and the stylesheet; both carry the image when it is non-empty |
| `Orchestrator.Normalize` | src/components/aether-ui-main.tsx:243 | a failure gives no version; a generated response gives its code and stylesheet; a refined response gives its code and its stylesheet, or the empty string when the stylesheet is missing |
| `Orchestrator.Accept` | src/components/aether-ui-main.tsx:203-220 | the first update appends the user message built from the active session (with its pending image) to the chat, clears the image, names the session when the prompt is the active session's first, and changes nothing else |
| `Orchestrator.Respond` | src/components/aether-ui-main.tsx:203-273 | both updates of an accepted prompt, with the request, name and message taken from the active session: a failure adds the user and error messages and leaves code and history alone; a success adds the user and assistant messages and commits the backend's version |
| `Orchestrator.Submit` | src/components/aether-ui-main.tsx:199-283 | a blank prompt, or one sent while loading, changes nothing; otherwise the chat grows by the user message with the image, then a reply; the image is cleared; the session is named after its first prompt; a failure leaves the code and history alone and adds the error message; a success commits the backend's version as `Commit` does, with the assistant reply |
| `Orchestrator.RenamedOnce` | src/components/aether-ui-main.tsx:210-214 | after an accepted prompt the session no longer counts as before its first prompt (`isFirstUserPrompt`), so a later prompt keeps the name |
| `Orchestrator.SubmitActive` | src/components/aether-ui-main.tsx:199-283 | a blank prompt, a prompt while loading, or no active session changes nothing; otherwise the updates computed from the active session are spread onto every session with the active id, and every other session, the length and the active id are unchanged; with distinct ids the store stays well formed and its active session is the submitted one |
| `Orchestrator.RespondActive` | src/components/aether-ui-main.tsx:162-170 | `updateActiveSession` applies the response updates to exactly the sessions with the active id; with distinct ids the store stays well formed and its active session is the updated one |
| `Orchestrator.FirstPromptGenerates` | src/components/aether-ui-main.tsx:226 | the first prompt of a fresh session goes to Generate and counts as its first user prompt |
| `Orchestrator.AfterGenerateRefines` | src/components/aether-ui-main.tsx:226-268 | once generated code without the placeholder text has been committed, the next prompt goes to Refine with that code |
| `Preview.RenderAt` | src/components/aether-ui-main.tsx:389 | the scan at a position accepts exactly when `\brender\s*\(` matches there |
| `Preview.FindRender` | src/components/aether-ui-main.tsx:389 | the scan accepts exactly when `\brender\s*\(` matches at or after the start |
| `Preview.ExportAt` | src/components/aether-ui-main.tsx:394 | `export default\s+` matches at a position exactly when the scan returns an end there, and that end is the only one possible |
| `Preview.FindExport` | src/components/aether-ui-main.tsx:394 | the scan returns the leftmost `export default\s+` match, or none when there is none |
| `Preview.StripExportDefault` | src/components/aether-ui-main.tsx:394 | `replace` cuts out the leftmost match and leaves a source without one unchanged |
| `Preview.StripSemicolon` | src/components/aether-ui-main.tsx:394 | only a semicolon that ends the whole text is removed |
| `Preview.KeywordLength` | src/components/aether-ui-main.tsx:398 | at most one of `function`, `class` and `const` starts at a position, and the length given is that keyword's length |
| `Preview.DeclAt` | src/components/aether-ui-main.tsx:397-399 | the declaration pattern matches at a position exactly when the scan returns a capture there, and that capture is the only one possible |
| `Preview.FindDecl` | src/components/aether-ui-main.tsx:397-404 | the scan returns the leftmost declaration match with its capitalised name, or none when there is none |
| `Preview.FindArrow` | src/components/aether-ui-main.tsx:411 | every hit of the arrow-pattern scan is a declaration match at the same place |
| `Preview.ArrowName` | src/components/aether-ui-main.tsx:411-414 | the arrow pattern captures a name exactly when its scan hits, and that name is captured by some declaration match |
| `Preview.ArrowAt` | src/components/aether-ui-main.tsx:411 | every match of the arrow-function pattern is also a match of the declaration pattern at the same place, with the same capture |
| `Preview.ArrowFallbackUnreachable` | src/components/aether-ui-main.tsx:410-415 | when the declaration pattern finds nothing, the arrow pattern finds nothing either |
| `Preview.Transform` | src/components/aether-ui-main.tsx:396-427 | with a declaration match, a render call for the first captured name is appended; with none, the source is wrapped in a `div`; either way the result calls `render(` |
| `Preview.PreparedCode` | src/components/aether-ui-main.tsx:383-429 | empty source renders `null`; source with the placeholder text renders the placeholder; source already calling `render(` is returned unchanged; any other source is cleaned and transformed; every result calls `render(` |
| `Preview.WithRenderSuffix` | src/components/aether-ui-main.tsx:407 | a source followed by the appended invocation calls `render(` |
| `Preview.TransformAppends` | src/components/aether-ui-main.tsx:397-407 | with a declaration match, transforming appends the render call for the captured name to the cleaned source and changes nothing before it |
| `Preview.TransformKeepsMarkerOut` | src/components/aether-ui-main.tsx:396-427 | transforming a source that lacks the placeholder text never creates it |
| `Preview.PreparedIdempotent` | src/components/aether-ui-main.tsx:383-429 | preparing the prepared code again returns it unchanged, except when cleaning is what produced the placeholder text |
| `Preview.CleaningUncoversPlaceholder` | src/components/aether-ui-main.tsx:386-394 | on a concrete source, cleaning joins the placeholder text, so the second preparation differs from the first |
| `Preview.PreparedCodeFixed` | src/components/aether-ui-main.tsx:383-429 | the corrected preparation agrees with the original except where cleaning uncovers the placeholder text, and there it renders the placeholder |
| `Preview.PreparedCodeFixedIdempotent` | src/components/aether-ui-main.tsx:383-429 | the corrected preparation is idempotent on every input |
| `Recent.Insert` | src/app/page.tsx:23 | inserting into a newest-first list keeps it newest first, and the result holds the old entries plus the new one |
| `Recent.SortNewest` | src/app/page.tsx:23 | the sort returns a permutation of the stored list, newest first |
| `Recent.PrefixIsNewest` | src/app/page.tsx:24 | the first entries of a newest-first list are newest first, and no later entry is newer than any of them |
| `Recent.RecentSessions` | src/app/page.tsx:17-29 | with nothing stored the list is empty; otherwise it holds `min(5, n)` stored sessions, newest first, all of them when there are at most five; no session left out is newer than one shown |
| `Recent.OpenRecentActivates` | src/app/page.tsx:31-34 | clicking a listed session with a non-empty id makes it the active session when the editor loads |

## Left out

- Ask-about-code, element selection and `selectedElementId`: these are
  separate flows and a view-layer aid, not part of the session and version
  logic.
- Image upload is left out: reading the file through `FileReader` is I/O.
  The model starts from the `uploadedImage` it produces.
- Copy to clipboard, zip download, toasts, panel layout and scrolling are UI
  effects with no state.
- Storage is not modelled. The write-back on every change, JSON encoding and
  decoding, and the `try`/`catch` around loading are replaced by the decoded
  value: `None` for nothing stored or unreadable text.
- The AI flows' prompts and the network are replaced by a function parameter
  from request to response.
- Concurrency is not modelled. The submit handler is one atomic step, so a
  response that arrives after the user switches session is not modelled.
- `History.Commit` does not model the fallbacks of the commit update
  (lines 255-256): `Array.isArray(s.codeHistory) ? … : [{ jsxCode, cssCode }]`
  for a session without a history array, and `s.currentVersion ?? 0` for a
  missing cursor. The typed session always has both fields.
- `Sessions.Migrate` takes the stored `currentVersion` as an integer. A
  record that has a history but no `currentVersion` is not modelled.
- `Recent.SortNewest` orders by `createdAt` as an integer timestamp.
  Unparsable dates (`NaN` in the comparator) are not modelled. The sort is
  stable, but stability is not proved.
- Lengths count characters, not UTF-16 code units, so `substring(0, 40)` on
  text outside the Basic Multilingual Plane is not modelled exactly.
- Deleting with duplicate ids: `Sessions.Delete` filters every session with
  the id and picks the first survivor. The source does the same, but the
  contract about the new active session assumes distinct ids, as uuids are.
- `Preview.FindArrow` is not given a match predicate for
  `const\s+([A-Z]\w*)\s*=\s*\([^)]*\)\s*=>` and is not proved to find the
  leftmost match, because its branch is never taken: every hit is a
  declaration match, which the earlier branch already handles.
- The last `try` block of `preparedCode` (lines 418-424) only inspects the
  code and changes nothing, so it is not modelled.

## Findings

| source | as written | input that shows it | evidently intended | confidence | as-written member | corrected member |
|---|---|---|---|---|---|---|
| src/components/aether-ui-main.tsx:386-394 | the placeholder test runs on the source before `export default` is removed; the cleaned text is wrapped in `render(<div>…</div>)` | `Yexport default our component will appear here`: the first preparation gives `render(<div>Your component will appear here</div>)`, and preparing that gives `render(<div>Your component will appear here.</div>)` | preparing the prepared code again changes nothing (a render call is passed through as it is) | high, not executed | `Preview.CleaningUncoversPlaceholder` | `Preview.PreparedCodeFixedIdempotent` |
