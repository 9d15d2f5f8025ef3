# Memo app data layer and view model, in Dafny

This project models the core of a single-user memo application: a browser
app written in TypeScript and React, keeping its data in IndexedDB through
Dexie. The model has four parts:

- **The database** (`db.dfy`, module `Db`). It holds the two object stores,
  `memos` and `comments`. Each is a map from primary key to record, with its
  own auto-increment key generator, following section 2.11 ("Key
  generators") of the W3C Indexed Database API:
  - a generator starts at 1;
  - a generated key is the generator's current number;
  - storing under an explicit key moves the generator past that key;
  - generation fails once the current number exceeds 2^53;
  - a rejected request changes nothing.

  The class invariant says two things. Every record carries its own key as
  `id`. Each generator is ahead of every key its table has ever held, so a
  deleted key is never handed out again. Whether `open()` succeeded is a
  constant of the instance: when it failed, every request rejects.
- **The repository** (`memo_db.dfy`, module `MemoDb`). These are the
  functions of `memoDB.ts`. Each catches store failures and turns them into
  a missing result.
  - Writes are methods on the shared database instance.
  - Reads are functions of the database state.
  - `importMemos` is a loop proved against `ImportAll`, a fold over the
    incoming array. Import idempotence and the export-then-import round trip
    are proved about that fold.
- **The views.** Each React component becomes a class:
  - the page (`memo_page.dfy`) holds the in-memory list and its handlers;
  - the memo card (`memo_item.dfy`);
  - the comment (`comment_item.dfy`);
  - the stand-alone form (`memo_form.dfy`).

  A callback a component fires is an out-parameter of the handler. The list
  rebuilds (`map`, `filter`, spread and prepend) are pure functions with
  their own lemmas. A handler that writes to the store calls the repository
  method, so its contract states both the new list and the new store.
- **Shared pieces.** `memo_types.dfy` holds the record types and the two
  comment-list rebuilds: the in-place replacement the card and the page
  both use, and the deletion filter the page uses. `text.dfy` gives ECMAScript's
  `trim`, one-character `split`, and `join`. `sorting.dfy` gives the
  stable sort behind `Array.prototype.sort` with a numeric comparator.

The code is modelled as written, including behaviour that looks
unintended:

- `addMemo` stores the memo's `comments` field as given; it does not strip
  it.
- A failed `addComment` still has its id-less comment merged into the list.
- A comment edit from the card goes out through the memo-update path
  (`onEdit`). The page's `handleEditComment`, which writes nothing to the
  store, is therefore never reached from the card.
- Deleting a memo leaves its comments in the comments table.
- After an import, the list shows the imported array, even where the store
  kept a local record with the same id (`ImportedListCanDisagree`).

Ids are compared as `Option<int>`, because in JavaScript
`undefined === undefined` holds. `put` of an id-less memo inserts a new
record under a generated key. In the model, the page then replaces every
id-less entry in its list with the edited memo. This is the model's
behaviour, and it follows from leaving out Dexie's key write-back (see
"Left out"). In the running program, a successful `put` writes the new key
into the memo before the page compares ids, so no entry matches. Only
after a rejected `put` does the page compare two missing ids.

## Model

| member | source | states |
|---|---|---|
| MemoTypes.ReplaceCommentIn | src/components/MemoItem.tsx:84-86 | the comment list keeps its length; every comment whose id equals the edited comment's id (both missing counts as equal) becomes the edited comment, the others stay in place |
| MemoTypes.WithoutComment | src/pages/MemoPage.tsx:97 | a comment is kept exactly when it was present and its id differs from the deleted id; an undefined id drops every id-less comment |
| MemoTypes.WithoutCommentConcat | src/pages/MemoPage.tsx:97 | the filter distributes over concatenation, so the kept comments stay in their order and each occurrence is kept |
| Text.TrimStart | src/components/MemoItem.tsx:68 | the result is a suffix of the input, everything dropped is ECMAScript white space, and the result does not start with white space |
| Text.TrimEnd | src/components/MemoItem.tsx:68 | mirror image of TrimStart: a prefix, only white space dropped, no trailing white space |
| Text.Trim | src/components/MemoForm.tsx:18 | the result is a slice of the input with only white space before and after it, and none at its own ends; it is empty exactly when the input is all white space |
| Text.TrimUnchanged | src/components/MemoForm.tsx:29 | a string with no white space at either end trims to itself |
| Text.TrimIdempotent | src/components/MemoForm.tsx:29 | trimming twice is trimming once |
| Text.Split | src/components/MemoForm.tsx:29 | splitting on a character gives one more piece than the character's occurrences, and no piece holds the separator |
| Text.JoinSplit | src/components/MemoForm.tsx:29 | the split loses nothing: joining its pieces with the separator gives back the input |
| Text.SplitJoin | src/components/MemoForm.tsx:29 | the split is a left inverse of the join: splitting the join of separator-free pieces gives back the pieces |
| Text.TrimEach | src/components/MemoForm.tsx:29 | same length, each piece trimmed at its own position |
| Text.SplitTags | src/pages/MemoPage.tsx:171 | tag `i` is the `i`-th comma-separated piece of the text, trimmed; the tag count is the comma count plus one (empty input gives one empty tag); no tag holds a comma or white space at its ends |
| Text.SplitCommaSpaceJoin | src/pages/MemoPage.tsx:170 | splitting on commas the tags joined with `", "` gives the first tag, then every later tag behind one space |
| Text.TagsRedisplay | src/pages/MemoPage.tsx:170-171 | the hashtag field shows the tags joined with `", "` (`Text.Join` models `Array.prototype.join`: the pieces with the glue between neighbours, and no pieces give the empty string); reading that text back gives the same tags, for any non-empty list of tags without commas or outer white space (such as any list the field produced) |
| Sorting.Insert | src/pages/MemoPage.tsx:186 | inserting into a sorted list keeps it sorted, adds exactly the element, and puts it first among equal keys |
| Sorting.SortBy | src/components/MemoItem.tsx:192 | the result is sorted by the key, a permutation of the input, and stable: for every key value, the elements carrying it keep their input order |
| Db.KeyFor | src/db/db.ts:12-13 | an explicit id is used as given and `add` rejects it when taken; without an id the key is the generator's current number, which fails only above 2^53 and is then fresh and above every stored key |
| Db.Advance | src/db/db.ts:12-13 | the generator never goes back and moves past every stored key not above 2^53 |
| Db.AdvanceStaysAhead | src/db/db.ts:12-13 | storing a key keeps the generator ahead of every key the table has held |
| Db.AscendingKeys | src/db/memoDB.ts:39-40 | the keys of a table listed once each, in ascending order |
| Db.Rows | src/db/memoDB.ts:39-40 | one row per stored record, and a record is listed exactly when it is stored |
| Db.CommentsOf | src/db/memoDB.ts:44 | a comment is kept exactly when it was present and its `memoId` equals the memo's id |
| Db.CommentsOfConcat | src/db/memoDB.ts:44 | the filter works piece by piece, so the kept comments stay in store order |
| Db.CommentsOfAscending | src/db/memoDB.ts:44 | filtering comments read by ascending id keeps them ascending, so each appears once and in store order |
| Db.MemoAppDatabase.constructor | src/db/db.ts:9-24 | both tables start empty, both generators at 1, and `isOpen` is the outcome of `open()` |
| Db.MemoAppDatabase.MemosAdd | src/db/memoDB.ts:9 | the result is the key rule's answer (or DatabaseClosed); a success stores the memo under that key with `id` set to it, never overwriting, and a generated key is above every key ever held, and that key joins the keys the table has held; a rejection changes nothing |
| Db.MemoAppDatabase.MemosPut | src/db/memoDB.ts:19 | stores the memo at its id, replacing any record there, or under a generated key when it has none; the stored key joins the keys the table has held; a rejection changes nothing |
| Db.MemoAppDatabase.MemosDelete | src/db/memoDB.ts:29 | removes exactly that key when the database is open (an absent key is not an error) and leaves everything else |
| Db.MemoAppDatabase.MemosGet | src/db/memoDB.ts:108 | asking without an id is a DataError; otherwise the lookup finds a record exactly when one is stored under that key, and what it finds is the record stored there |
| Db.MemoAppDatabase.MemosToArray | src/db/memoDB.ts:39 | on an open database, every stored memo once and nothing else, in strictly ascending order of id; a closed database rejects |
| Db.MemoAppDatabase.CommentsAdd | src/db/memoDB.ts:65 | as MemosAdd, on the comments table, leaving the memos table and its held keys alone |
| Db.MemoAppDatabase.CommentsDelete | src/db/memoDB.ts:85 | removes exactly that comment key when open; deleting without a key is a DataError and changes nothing; everything else is left alone |
| Db.MemoAppDatabase.CommentsToArray | src/db/memoDB.ts:40 | on an open database, every stored comment once and nothing else, in strictly ascending order of id; a closed database rejects |
| Db.MemoAppDatabase.CommentsWhereMemoId | src/db/memoDB.ts:76 | the index query lists exactly the stored comments with that `memoId`, in strictly ascending order of id |
| MemoDb.AddMemo | src/db/memoDB.ts:7-14 | an id comes back exactly when the store took the memo; the memos table then holds the memo under that id, and a generated id is the generator's number and above every key ever held; otherwise nothing changes |
| MemoDb.UpdateMemo | src/db/memoDB.ts:17-24 | on success the same memo comes back and the table holds it at its id (or a generated key when it has none), with no other record touched; on failure nothing changes |
| MemoDb.DeleteMemo | src/db/memoDB.ts:27-34 | only that memo is removed; the comments table, including the memo's comments, is unchanged |
| MemoDb.Join | src/db/memoDB.ts:42-45 | one entry per memo, each unchanged except that its comments are the filter of the given comments by its id, in their order; so exactly the comments whose `memoId` is its id |
| MemoDb.StoredMemosAscending | src/db/memoDB.ts:39 | the memos table is read in strictly ascending order of id |
| MemoDb.StoredCommentsAscending | src/db/memoDB.ts:40 | the comments table is read in strictly ascending order of id |
| MemoDb.JoinOfStore | src/db/memoDB.ts:39-45 | joining the two tables' rows lists every stored memo once, ascending, each with exactly its stored comments, each once and by ascending id |
| MemoDb.GetMemos | src/db/memoDB.ts:37-51 | on a closed database the result is empty; otherwise it lists every stored memo once in store order (ascending id), each with exactly its stored comments, each once and in store order, replacing any stored `comments` field |
| MemoDb.AbsentMemoNotListed | src/db/memoDB.ts:37-51 | a memo not in the store is not in the listing |
| MemoDb.GetMemo | src/db/memoDB.ts:54-60 | a memo comes back exactly when the database is open and holds that id |
| MemoDb.AddComment | src/db/memoDB.ts:63-71 | on success the comment is stored with `memoId` forced to the argument and comes back with its new id, which is the generator's number when it had none; on failure it comes back unchanged and nothing is stored |
| MemoDb.GetComments | src/db/memoDB.ts:74-80 | lists exactly the stored comments of that memo, by ascending id, or nothing when the database is closed |
| MemoDb.JoinMatchesIndex | src/db/memoDB.ts:42-45 | the comments `getMemos` attaches to a memo are the ones `getComments` returns for it |
| MemoDb.DeleteComment | src/db/memoDB.ts:83-90 | with an id and an open database, only that comment is removed and its id comes back; an undefined id is rejected, caught, and changes nothing; the memos table is unchanged |
| MemoDb.ExportMemos | src/db/memoDB.ts:93-102 | the export lists every stored memo once, by strictly ascending id, and nothing from the comments table; a closed database gives the empty export |
| MemoDb.ImportStep | src/db/memoDB.ts:107-111 | one pass stops the loop exactly when the database is closed or the memo has no id; otherwise it adds the memo under its id exactly when that id is absent, advancing the generator, and changes nothing when present |
| MemoDb.ImportAll | src/db/memoDB.ts:107-112 | the loop over the array stops exactly when it had stopped already, or the database is closed and the array non-empty, or some memo has no id |
| MemoDb.StoppedStays | src/db/memoDB.ts:106-115 | once a rejection ends the import loop, the remaining memos change nothing |
| MemoDb.ImportKeepsLocal | src/db/memoDB.ts:108-111 | importing never removes or overwrites a stored memo, adds only memos from the array under their own ids, and the generator never goes back |
| MemoDb.ImportPrefixGrows | src/db/memoDB.ts:106-115 | inserts made before a failure stay: the table only grows as the loop runs |
| MemoDb.ReimportUnchanged | src/db/memoDB.ts:108-111 | re-running the import over any prefix of an array, from where the whole array's import left the table, keeps the table and generator as they were |
| MemoDb.ImportIdempotent | src/db/memoDB.ts:105-116 | importing the same array twice leaves the store as the first import left it |
| MemoDb.ExportImportRoundTrip | src/db/memoDB.ts:93-116 | importing an export into an empty table rebuilds exactly the exported table |
| MemoDb.ImportMemos | src/db/memoDB.ts:105-116 | the loop leaves the memos table and generator exactly as the fold over the array says, and never touches comments |
| MemoPageView.ReplaceMemo | src/pages/MemoPage.tsx:56 | the list keeps its length; entries with the edited memo's id are replaced wholesale, all others are unchanged and in place |
| MemoPageView.ReplaceMemoIdempotent | src/pages/MemoPage.tsx:56 | applying the same edit twice is applying it once |
| MemoPageView.ReplaceMemoAbsent | src/pages/MemoPage.tsx:56 | an edit whose id no entry carries leaves the list unchanged |
| MemoPageView.RemoveMemo | src/pages/MemoPage.tsx:62 | an entry stays exactly when it was present and its id is not the deleted id |
| MemoPageView.RemoveMemoConcat | src/pages/MemoPage.tsx:62 | removal works piece by piece, so remaining entries keep their order |
| MemoPageView.RemoveMemoAbsent | src/pages/MemoPage.tsx:62 | removing an id no entry carries leaves the list unchanged |
| MemoPageView.RemoveMemoIdempotent | src/pages/MemoPage.tsx:62 | removing twice is removing once |
| MemoPageView.PrependComment | src/pages/MemoPage.tsx:78-86 | the list keeps its length; memos with that id gain the comment in front and are otherwise unchanged; other memos are unchanged |
| MemoPageView.RemoveComment | src/pages/MemoPage.tsx:95-101 | the list keeps its length; only memos with that id lose the comments with that comment id, which for an undefined id are all their id-less comments |
| MemoPageView.WithoutCommentAbsent | src/pages/MemoPage.tsx:97 | filtering out an id no comment carries changes nothing |
| MemoPageView.PrependThenRemove | src/pages/MemoPage.tsx:78-101 | deleting a freshly added comment by its new id gives back the list as it was before the add |
| MemoPageView.ReplaceComment | src/pages/MemoPage.tsx:108-123 | the list keeps its length; only memos with that id have the comment replaced, other memos are unchanged |
| MemoPageView.ReplaceCommentKeepsCounts | src/pages/MemoPage.tsx:112-116 | a comment edit keeps every memo's comment count and puts the edited comment where its id was |
| MemoPageView.DisplayOrder | src/pages/MemoPage.tsx:185-186 | the displayed list is a permutation of the list, sorted by id descending with a missing id as 0, stable among equal keys |
| MemoPageView.MemoPage.constructor | src/pages/MemoPage.tsx:9-14 | no memos and an empty, closed form |
| MemoPageView.MemoPage.FetchMemos | src/pages/MemoPage.tsx:17-28 | the list becomes what `getMemos` returns (empty on a closed database) |
| MemoPageView.MemoPage.ToggleForm | src/pages/MemoPage.tsx:137 | the form's open flag flips |
| MemoPageView.MemoPage.SetTitle | src/pages/MemoPage.tsx:151 | the title field holds the typed text |
| MemoPageView.MemoPage.SetCategory | src/pages/MemoPage.tsx:158 | the category field holds the typed text |
| MemoPageView.MemoPage.SetContent | src/pages/MemoPage.tsx:164 | the content field holds the typed text |
| MemoPageView.MemoPage.SetHashtagsText | src/pages/MemoPage.tsx:171 | the hashtag list becomes the split and trimmed text, one tag per comma plus one |
| MemoPageView.MemoPage.HandleAddMemo | src/pages/MemoPage.tsx:31-51 | with title, category and content all non-empty, the id-less memo is stored under the generator's key, prepended to the list without that id, and the form is cleared and closed; otherwise nothing changes |
| MemoPageView.MemoPage.HandleEditMemo | src/pages/MemoPage.tsx:54-57 | the store holds the edited memo at its id (a new key when it has none) and the list is ReplaceMemo of it |
| MemoPageView.MemoPage.HandleDeleteMemo | src/pages/MemoPage.tsx:60-63 | the memo leaves both the store and the list; its comments stay in the store |
| MemoPageView.MemoPage.HandleAddComment | src/pages/MemoPage.tsx:66-89 | the comment is prepended to its memo in the list, with its new id when the store took it and without one when it did not; the store gains it exactly in the first case |
| MemoPageView.MemoPage.HandleDeleteComment | src/pages/MemoPage.tsx:92-104 | the comment leaves the store and the named memo's comments; with an undefined comment id the store is unchanged while the memo still loses every id-less comment; memos are untouched |
| MemoPageView.MemoPage.HandleEditComment | src/pages/MemoPage.tsx:107-124 | the list is ReplaceComment of the edit; no store is involved |
| MemoPageView.MemoPage.HandleImport | src/pages/MemoPage.tsx:126-128 | the list becomes the imported array |
| MemoPageView.ImportFile | src/components/MemoHeader.tsx:38-39 | after importing a parsed array the store is the import fold's result and the list is the array itself; every imported memo whose id a different local memo held is in the list while the store keeps the local memo |
| MemoPageView.ImportedListCanDisagree | src/components/MemoHeader.tsx:38-39 | for every array and store: an imported memo whose id a different local memo holds is not what the store ends with there, since the store keeps the local memo |
| MemoItemView.ShownComments | src/components/MemoItem.tsx:191-193 | the card lists `min(visible, n)` comments: the tail of the ascending-id sort, ascending, taken from the memo's comments, and holding every comment with a higher id than one it lists |
| MemoItemView.ShowMore | src/components/MemoItem.tsx:175 | "more" is offered exactly when the window hides some comment |
| MemoItemView.ShowLess | src/components/MemoItem.tsx:183 | "less" is offered exactly when the window lists every comment and there are more than five |
| MemoItemView.ButtonsExclusive | src/components/MemoItem.tsx:175-183 | "more" and "less" are never offered together |
| MemoItemView.EditedMemo | src/components/MemoItem.tsx:54-60 | title, content, category and update time take the new values; id, creation time, hashtags and comments are kept |
| MemoItemView.WithEditedComment | src/components/MemoItem.tsx:84-91 | only the comments change; their count is kept and the comment with the edited id is replaced in place |
| MemoItemView.MemoItem.constructor | src/components/MemoItem.tsx:19-26 | closed, not editing, edit fields copied from the memo, one page (5) of comments |
| MemoItemView.MemoItem.ReceiveMemo | src/components/MemoItem.tsx:18 | a new memo prop replaces the memo and leaves the card's own state |
| MemoItemView.MemoItem.Shown | src/components/MemoItem.tsx:191-193 | the card lists no more than the window and the memo's comments, and lists all of them exactly when "more" is not offered |
| MemoItemView.MemoItem.ToggleContent | src/components/MemoItem.tsx:29-31 | the open flag flips |
| MemoItemView.MemoItem.ToggleComments | src/components/MemoItem.tsx:34-36 | the comments-open flag flips |
| MemoItemView.MemoItem.LoadMore | src/components/MemoItem.tsx:39-41 | the window grows by 5 and stays a positive multiple of 5 |
| MemoItemView.MemoItem.LoadLess | src/components/MemoItem.tsx:44-46 | the window goes back to 5 |
| MemoItemView.MemoItem.StartEditing | src/components/MemoItem.tsx:108 | the edit form is shown |
| MemoItemView.MemoItem.SetNewTitle | src/components/MemoItem.tsx:125 | the edit form's title holds the typed text |
| MemoItemView.MemoItem.SetNewContent | src/components/MemoItem.tsx:130 | the edit form's content holds the typed text |
| MemoItemView.MemoItem.SetNewCategory | src/components/MemoItem.tsx:136 | the edit form's category holds the typed text |
| MemoItemView.MemoItem.CancelEditing | src/components/MemoItem.tsx:145 | the edit form closes; the typed fields are kept |
| MemoItemView.MemoItem.HandleEditMemo | src/components/MemoItem.tsx:53-64 | sends EditedMemo of the card's fields, keeping id, creation time, hashtags and comments; closes the edit form and toggles the card |
| MemoItemView.MemoItem.SetNewComment | src/components/MemoItem.tsx:212 | the comment input holds the typed text |
| MemoItemView.MemoItem.HandleAddComment | src/components/MemoItem.tsx:67-72 | a request goes out exactly when the trimmed input is non-empty; it carries the memo's id and the untrimmed text, and the input is cleared; otherwise the input stays |
| MemoItemView.MemoItem.HandleDeleteComment | src/components/MemoItem.tsx:75-79 | a request with the comment's optional id and the memo's id goes out exactly when confirmed |
| MemoItemView.MemoItem.HandleDeleteMemo | src/components/MemoItem.tsx:49-51 | the memo's own id goes out |
| MemoItemView.MemoItem.HandleEditComment | src/components/MemoItem.tsx:82-94 | the memo goes out through the memo-update path with the edited comment in place of the one with its id, the comment count kept and no other comment added |
| CommentItemView.SavedComment | src/components/CommentItem.tsx:24-32 | something is sent exactly when the draft differs from the text; it is the comment with the draft and the new time, keeping id, `memoId` and creation time |
| CommentItemView.SavedEditReplacesComment | src/components/CommentItem.tsx:26-31 | a saved edit, applied by the card, puts the draft text at the comment's position |
| CommentItemView.CommentItem.constructor | src/components/CommentItem.tsx:14-15 | not editing, the draft equal to the comment's text |
| CommentItemView.CommentItem.ReceiveComment | src/components/CommentItem.tsx:13-15 | a new `comment` prop replaces the record (the card keys comments by id, MemoItem.tsx:195-199) and the draft and editing flag are kept |
| CommentItemView.ResaveSendsNothing | src/components/CommentItem.tsx:26-31 | once a saved edit is the comment, saving the same draft again sends nothing |
| CommentItemView.CommentItem.StartEditing | src/components/CommentItem.tsx:55 | editing starts |
| CommentItemView.CommentItem.HandleEditChange | src/components/CommentItem.tsx:18-20 | the draft follows the text area |
| CommentItemView.CommentItem.HandleSaveEdit | src/components/CommentItem.tsx:23-34 | sends SavedComment of the draft (nothing when unchanged) and ends editing either way |
| CommentItemView.CommentItem.HandleCancelEdit | src/components/CommentItem.tsx:37-40 | ends editing and restores the draft to the comment's text |
| CommentItemView.CommentItem.HandleDelete | src/components/CommentItem.tsx:43-47 | the comment's own id goes out exactly when confirmed |
| MemoFormView.FormMemo | src/components/MemoForm.tsx:23-33 | the memo carries the client-chosen id, the typed fields, one timestamp for creation and update, no comments, and SplitTags of the typed hashtags: one comma-free tag per comma plus one |
| MemoFormView.Submission | src/components/MemoForm.tsx:18-33 | a submit produces a memo exactly when the title is not blank (trims to something non-empty), and that memo is FormMemo of the fields |
| MemoFormView.TagsRejoin | src/components/MemoForm.tsx:29 | when no piece has surrounding white space, the tags joined with commas give back the typed text |
| MemoFormView.MemoForm.constructor | src/components/MemoForm.tsx:10-13 | all four fields start empty |
| MemoFormView.MemoForm.SetFields | src/components/MemoForm.tsx:56-80 | the fields hold the typed text |
| MemoFormView.MemoForm.HandleSubmit | src/components/MemoForm.tsx:15-44 | `onMemoAdded` fires exactly when Submission produces a memo; a blank title stops the submit with no store call and no change; otherwise the memo goes to `addMemo` (stored exactly when its id is free and the database is open) and all four fields are cleared |

## Left out

- Dexie writes a generated key back into the object passed to `add` and `put`. This is not modelled: the page's list keeps the id-less record it built, and `updateMemo` returns the memo as passed.
- Storage I/O failures other than a failed `open()`, an exhausted key generator, a taken key and a lookup without a key. Quota errors, aborted transactions and version upgrades are left out.
- JSON serialisation, `Blob` bytes, `FileReader`, the MIME check, the download anchor and `alert`. The export is the sequence of stored memos; the file chooser's import is `ImportFile` applied to an already-parsed array.
- `src/components/MemoHeader.tsx` beyond its import decision, and the routing and static pages. These are presentation with no state of their own.
- Clock values (`new Date().toISOString()`, `Date.now()`) are method parameters. `window.confirm` is a boolean parameter. `console.error` logging is dropped.
- The non-null assertion `memo.id!`: the card sends the memo's `Option<int>` id as it is. The page's handlers take an `int` memo id, so a card whose memo has no id is outside the model. The comment id (`comment.id!`) is carried as an `Option<int>` all the way to the page.
- MemoDb.ImportMemos: keys above 2^53 lose precision as JavaScript numbers. The model keeps them exact, so ids that large are stored as given.
- Asynchronous scheduling: each handler is one atomic step on the current state. Interleaved awaits, and the stale `memos` a handler closure can capture, are outside the model.
- The database is one shared instance in the source. Here it is passed to every operation as a parameter.
- Text: only the ECMAScript white space and line terminator characters listed in `Text.IsSpace` are trimmed. No Unicode normalisation is done.
- Index entries for the `title`, `category`, `hashtags` and other indexed fields are not modelled. Only the `memoId` index is queried.
