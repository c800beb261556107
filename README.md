# Cloud drive backend: file records, the file controller and the text helpers

This project models in Dafny the part of the cloud-drive backend that decides
what happens to file and folder records. That part is the request handlers of
`backend/controllers/fileController.js`, the `File` record declared in
`backend/models/File.js`, and the two text helpers `extractKeyPoints` and
`extractTopics` of `backend/services/pdfService.js`. The project proves what
each handler does to the collection and what each helper returns.

- `wrappers.dfy` (module `Wrappers`) defines `Option`, and `Result` with the
  error responses the handlers send. Each error carries its status (400, 403,
  404 or 500) and its message text.
- `jsstring.dfy` (module `JsString`) defines the JavaScript string primitives
  the core relies on: the regular-expression classes `\s` and `\w`, `trim()`,
  lower-casing, and number-to-string conversion.
- `file_model.dfy` (module `FileModel`) defines the `File` record: the
  constructor with the schema's defaults, the `required` validators, the
  viewer/editor enum, and the owner, share and editor access rules.
- `sorting.dfy` (module `Sorting`) is a sort by a total preorder. It
  stands in for the database's `.sort(...)` and for `Array.prototype.sort`.
- `tree.dfy` (module `Tree`) covers the folder tree formed by `parent` links.
  - `Cascade` is the set of records a delete request reaches.
  - `MarkDeleted` is the store after a soft delete.
  - `PurgeLog` says when a log of writes is a valid permanent delete. Each
    file's object is deleted once, right before its record is removed. No
    folder's object is deleted. A child's record is removed before its
    parent's.
- `file_controller.dfy` (module `FileController`) holds the class `FileStore`.
  - Its state is the collection (`nodes`, record id to record), the log of
    writes sent to object storage and the collection (`effects`), and the
    next fresh id.
  - Every handler is a method of `FileStore`, including the recursive
    `DeleteFile` and its loop over a folder's children.
- `pdf_text.dfy` (module `PdfText`) models the text helpers.
  - `String.prototype.split` on a whitespace run is modelled with and without
    the `(?<=[.!?])` look-behind.
  - `extractKeyPoints` is a function.
  - The counting `forEach` of `extractTopics` is a method with a loop.

The `File` schema declares no `deleted` or `deletedAt` field, but the
controller assigns both when it moves records to the trash
(`fileController.js:388-389`, `:411-412`). The modelled record carries both
fields, and the trash writes are taken to be stored.

The collection keeps one invariant, `FileStore.Valid`:
- every record's parent has a smaller id than the record itself;
- every record is well formed: its name is trimmed and non-empty, it has at
  most one share entry per user, and `deleted` agrees with `deletedAt`.

The source does not enforce the first part. `parent` is taken from the
request body unchecked (`fileController.js:23` and `:72`). No handler checks
that the parent exists or was created before the record, and ObjectIds can be
predicted. So a client can make a record the parent of an earlier record, or
of itself. On such a cycle, the query for children at `:371` finds the folder
again, and the recursive delete never ends. The model imposes the ordering:
`FileStore.Insert` always gives a new record an id above its parent's, and no
handler changes a record's `parent`.

A delete reaches only the children of folders (`:371` runs only for a
folder). A record whose parent is a file is never reached, and a permanent
delete of an ancestor leaves it orphaned in the collection.

## Model

| member | source | states |
|---|---|---|
| FileModel.ParsePermission | backend/models/File.js:45-49 | `permission \|\| 'viewer'` on the enum: empty or `viewer` gives Viewer, `editor` gives Editor, and exactly every other string is refused |
| FileModel.NewNode | backend/models/File.js:4-59 | `new File({...})`: the name is stored as `Trim` of the given name (no blank at either end, empty exactly when the given name is all blanks). Type, size, owner, parent, kind and path are as given; the record is unstarred, unshared and not deleted, created and updated at `now` |
| FileModel.PassesValidation | backend/models/File.js:5-21 | the `required: true` validators: the stored name, type and path are non-empty |
| FileModel.IsOwner | backend/controllers/fileController.js:209 | the owner check `file.owner.toString() === req.user.id` |
| FileModel.IsSharedIn | backend/controllers/fileController.js:161 | the query `'sharedWith.user': u` on a share list: some entry names the user |
| FileModel.IsShared | backend/controllers/fileController.js:210-212 | `sharedWith.some(share => share.user === u)` on a record |
| FileModel.IsEditor | backend/controllers/fileController.js:357-359 | an editor share for the user; every editor is also in the share list |
| FileModel.MayView | backend/controllers/fileController.js:209-219 | the view check of the download URL and the star toggle: owner or in the share list |
| FileModel.MayDelete | backend/controllers/fileController.js:356-366 | the delete check: owner or an editor share |
| FileModel.MayShare | backend/controllers/fileController.js:276-282 | only the owner may share, and whoever may share may also delete and view |
| FileModel.NewNodeWellFormed | backend/models/File.js:4-59 | a new record that passes validation is well formed: not deleted, not starred and shared with no one. Its owner and parent are as given, and its name is already trimmed |
| FileModel.ValidationOfNewNode | backend/models/File.js:5-21 | a new record passes the `required` validators exactly when its name is not all blanks (the name is trimmed first) and its type and path are non-empty |
| FileModel.DeleteImpliesView | backend/controllers/fileController.js:356-366 | whoever passes the delete check (owner or editor share) also passes the view check |
| FileModel.ViewerShareIsViewOnly | backend/controllers/fileController.js:209-219 | a non-owner whose share entries are all `viewer` may view the record but may neither delete nor share it |
| JsString.Trim | backend/models/File.js:8 | the result is a contiguous slice of the input with only blanks before and after it. It has no blank at either end, and it is empty exactly when the input is all blanks |
| JsString.TrimUnpadded | backend/models/File.js:8 | a string with no blank at either end is left unchanged by `trim()` |
| JsString.TrimIdempotent | backend/models/File.js:8 | trimming twice is trimming once |
| JsString.ToLowerAscii | backend/services/pdfService.js:87 | ASCII-only lower-casing: each of `A`..`Z` goes to the letter at the same place in `a`..`z`, and `\w` maps into `[a-z0-9_]`. It is applied only to `\w` characters, where it agrees with `toLowerCase()`; the two other characters that lower-case into ASCII are handled by `CleanChar` |
| JsString.Decimal | backend/controllers/fileController.js:70 | `Date.now()` in a template literal: a non-empty string of digits that reads back as the number, with no leading zero |
| Sorting.InsertBySorted | backend/controllers/fileController.js:128 | inserting into a sorted sequence keeps it sorted |
| Sorting.SortBy | backend/services/pdfService.js:115 | the result is a permutation of the input and is sorted by the given preorder |
| Sorting.PermutationKeepsNoDuplicates | backend/services/pdfService.js:114-115 | a permutation of a sequence without repetitions has none |
| Sorting.PrefixIsTop | backend/services/pdfService.js:114-116 | in a sorted sequence without repetitions, nothing left out of the first `n` elements strictly precedes any of them |
| FileController.NameLeTotal | backend/controllers/fileController.js:128 | any two names are comparable in the `name: 1` order |
| FileController.NameLe | backend/controllers/fileController.js:128 | the `name: 1` order, character by character; a prefix comes before any extension of it |
| FileController.FoldersFirst | backend/controllers/fileController.js:128 | `{ isFolder: -1, name: 1 }`: a folder comes before a file, and a file never comes before a folder |
| FileController.NewestFirst | backend/controllers/fileController.js:165 | `{ updatedAt: -1 }`: entries updated at the same time tie, and an older entry never comes before a newer one |
| FileController.NameLeTransitive | backend/controllers/fileController.js:128 | the `name: 1` order is transitive |
| FileController.NameLeAntisymmetric | backend/controllers/fileController.js:128 | two names tie in the `name: 1` order only when they are equal |
| FileController.FoldersFirstIsTotalPreorder | backend/controllers/fileController.js:128 | `{ isFolder: -1, name: 1 }` is a total preorder |
| FileController.FoldersFirstTies | backend/controllers/fileController.js:128 | two listing entries tie only if both are files or both are folders, with the same name |
| FileController.NewestFirstIsTotalPreorder | backend/controllers/fileController.js:165 | `{ updatedAt: -1 }` is a total preorder |
| FileController.FindShare | backend/controllers/fileController.js:303-305 | `sharedWith.find` gives the first entry for the user, or no entry when none exists |
| FileController.Upsert | backend/controllers/fileController.js:302-320 | after granting, the list holds the user with the new permission and grew by at most one entry |
| FileController.UpsertKeepsOthers | backend/controllers/fileController.js:302-320 | granting leaves every other user's entry in place and unchanged. The list grows by one exactly when the user had no entry, and then the new entry is appended |
| FileController.UpsertSingleEntry | backend/controllers/fileController.js:302-320 | after granting, the user has exactly one entry, carrying the new permission, and users stay unique |
| FileController.UpsertTwice | backend/controllers/fileController.js:307-312 | a second grant to the same user replaces the first |
| FileController.FileStore.Insert | backend/controllers/fileController.js:26 | `save()` of a new document stores it under an id not used before and keeps the collection invariant |
| FileController.FileStore.Save | backend/controllers/fileController.js:390 | `save()` of a changed record replaces that record and nothing else |
| FileController.FileStore.FindByIdAndDelete | backend/controllers/fileController.js:385 | removes exactly that record and logs the removal |
| FileController.FileStore.DeleteObject | backend/controllers/fileController.js:384 | logs the object delete and changes no record |
| FileController.FileStore.UploadFile | backend/controllers/fileController.js:7-51 | with no upload: 400 and nothing stored. If validation fails: 500 and nothing stored. Otherwise exactly one new record is stored: the requester's file, with the default fields, under a fresh id |
| FileController.FileStore.CreateFolder | backend/controllers/fileController.js:53-101 | an empty name gives 400. A name of blanks only gives 500. Otherwise exactly one new folder record of the requester is stored, under a fresh id and the `folders/...` key |
| FileController.FileStore.Listing | backend/controllers/fileController.js:125-128 | `find(query).sort(order)`: every matching record exactly once, in the given order |
| FileController.FileStore.GetFiles | backend/controllers/fileController.js:104-154 | exactly the records whose parent is the requested one (the root when none is given) and that the requester owns or is shared on, trashed records included. Folders come first, then names ascending |
| FileController.FileStore.GetSharedFiles | backend/controllers/fileController.js:157-191 | exactly the records that list the requester in `sharedWith`, most recently updated first |
| FileController.FileStore.GetFileUrl | backend/controllers/fileController.js:194-243 | 404 for an unknown id, 403 without view access, 400 for a folder. It succeeds exactly in the remaining case and returns the file's object key |
| FileController.FileStore.ShareFile | backend/controllers/fileController.js:246-338 | each of the six refusals (missing email, bad permission, unknown record, not owner, unknown user, self) answers before any change. Success happens exactly in the remaining case and replaces `sharedWith` by the upsert of the target |
| FileController.FileStore.ToggleStar | backend/controllers/fileController.js:430-472 | 404 or 403 (no view access) leave the collection unchanged. Otherwise only `starred` flips, and its new value is returned |
| FileController.StarToggledTwice | backend/controllers/fileController.js:458 | two toggles restore the collection |
| FileController.StarToggled | backend/controllers/fileController.js:458 | only that record changes, and only its `starred` flag, which flips |
| FileController.FolderPath | backend/controllers/fileController.js:70 | a folder's key is `folders/<owner>/`, then digits that read back as the clock value, then `-` and the name as given |
| FileController.FileStore.DeleteFile | backend/controllers/fileController.js:341-427 | 404 and 403 change nothing. A soft delete marks exactly the cascade as trashed at `now`. A permanent delete removes exactly the cascade and appends a valid purge trace. A call made with the stub response reports 500 |
| FileController.FileStore.PurgeCascade | backend/controllers/fileController.js:395-408 | children first, then the object of a file, then the record. Together these remove exactly the cascade, with a valid purge trace |
| FileController.FileStore.TrashCascade | backend/controllers/fileController.js:409-419 | children first, then the record itself. Together these mark exactly the cascade as trashed, and no object is touched |
| FileController.FileStore.PurgeChildren | backend/controllers/fileController.js:369-393 | the loop over `File.find({ parent })` purges exactly what the cascade reaches from the children, in any order of the query result |
| FileController.FileStore.PurgeChild | backend/controllers/fileController.js:374-385 | one child: a folder is handed to the handler again; a file has its object and then its record deleted |
| FileController.FileStore.TrashChildren | backend/controllers/fileController.js:369-393 | the loop trashes exactly what the cascade reaches from the children |
| FileController.FileStore.TrashChild | backend/controllers/fileController.js:374-391 | one child: a folder is handed to the handler again; a file is marked trashed |
| Tree.Cascade | backend/controllers/fileController.js:368-393 | the records a permitted delete reaches include its root. All of them are the root or later records of the collection |
| Tree.Children | backend/controllers/fileController.js:371 | `File.find({ parent })` returns only stored records whose `parent` is that record, and under the id ordering each has a larger id than the parent |
| Tree.DescendantIsYounger | backend/controllers/fileController.js:369-393 | a descendant has a larger id than its ancestor, so the tree has no cycle |
| Tree.DescendantTransitive | backend/controllers/fileController.js:369-393 | a descendant of a descendant is a descendant |
| Tree.SiblingSubtreesDisjoint | backend/controllers/fileController.js:371-374 | the subtrees of two children of one folder share no record |
| Tree.CascadeStep | backend/controllers/fileController.js:369-393 | a record other than the root is reached exactly when its parent is a reached folder and the cascade enters it (a file, or a folder the requester may delete) |
| Tree.CascadeInSubtree | backend/controllers/fileController.js:369-393 | the cascade stays inside the subtree of its root |
| Tree.ChildReached | backend/controllers/fileController.js:374-391 | every file child of a reached folder is reached with no check of its own. A folder child is reached when the requester may delete it |
| Tree.SkippedFolderPrunesSubtree | backend/controllers/fileController.js:374-381 | a folder below the root that the requester may not delete is skipped, and so is everything under it |
| Tree.CascadeCoversSubtree | backend/controllers/fileController.js:369-393 | when every record below the root hangs from a folder, and the requester may delete every folder below the root, the cascade reaches the whole subtree. A record whose parent is a file is not reached |
| Tree.CascadeFrame | backend/controllers/fileController.js:377-381 | the cascade from a record depends only on the parent, kind and access fields in its subtree. The re-entered handler therefore sees the same cascade as the caller would |
| Tree.BelowFrame | backend/controllers/fileController.js:374-381 | what the cascade reaches from a set of children is the same in two stores that agree on those children's cascades |
| Tree.MarkDeleted | backend/controllers/fileController.js:388-390 | trashing keeps the set of record ids |
| Tree.MarkDeletedMarks | backend/controllers/fileController.js:388-390 | each record of the set gets `deleted` and `deletedAt = now` and keeps every other field; every record outside the set is unchanged |
| Tree.Trashed | backend/controllers/fileController.js:388-389 | `deleted = true; deletedAt = now`: the record is marked deleted at `now`, keeps its parent, kind, owner and shares, and every other field |
| Tree.TrashedWellFormed | backend/controllers/fileController.js:411-412 | a trashed record stays well formed |
| Tree.MarkDeletedTwice | backend/controllers/fileController.js:388-390 | trashing one set and then another is trashing their union |
| Tree.MarkDeletedKeepsShape | backend/controllers/fileController.js:411-413 | trashing changes no parent, kind or access field, and keeps the tree ordered |
| Tree.PurgeLogBlobOnce | backend/controllers/fileController.js:382-403 | in a purge trace, the object of each purged file is deleted exactly once, and no object of a purged folder is |
| Tree.PurgeLogEmpty | backend/controllers/fileController.js:369-393 | purging nothing writes nothing |
| Tree.PurgeLogSingle | backend/controllers/fileController.js:396-403 | the handler's own writes for one record (its object if it is a file, then its record) are a purge trace for that record |
| Tree.PurgeLogConcat | backend/controllers/fileController.js:374-393 | traces of disjoint sets chain into one trace, provided no record of the second set has its parent in the first |
| Tree.PurgeLogAppend | backend/controllers/fileController.js:382-385 | purging one more record whose parent is not yet purged extends a trace |
| Tree.PurgeLogExtend | backend/controllers/fileController.js:374-393 | a trace for one set followed by a trace, taken on what is left, for a second set is a trace for both |
| Tree.PurgeLogTransfer | backend/controllers/fileController.js:377-381 | a trace stays valid against any store holding the same purged records |
| Tree.ChildFrame | backend/controllers/fileController.js:374-381 | when a child folder's call starts, the store holds that child's whole subtree untouched, and the child's cascade avoids what was already processed |
| Tree.FolderChildPurged | backend/controllers/fileController.js:375-381 | the re-entered call on a child folder extends the permanent delete by exactly that child's cascade |
| Tree.FileChildPurged | backend/controllers/fileController.js:382-385 | deleting a file child's object and then its record extends the permanent delete by that child |
| Tree.FolderChildTrashed | backend/controllers/fileController.js:375-381 | the re-entered call on a child folder extends the soft delete by exactly that child's cascade |
| Tree.FileChildTrashed | backend/controllers/fileController.js:386-391 | trashing a file child extends the soft delete by that child |
| Tree.RootPurged | backend/controllers/fileController.js:395-404 | once the children are processed, the record's own writes complete the purge of its cascade |
| Tree.RootTrashed | backend/controllers/fileController.js:409-414 | once the children are processed, trashing the record completes the soft delete of its cascade |
| PdfText.FirstBreak | backend/services/pdfService.js:75-76 | the first place at or after a position where the separator matches. It does not match anywhere before that place |
| PdfText.RunEnd | backend/services/pdfService.js:75-76 | the greedy `\s+` match takes the whole whitespace run |
| PdfText.SplitFrom | backend/services/pdfService.js:75-76 | the first piece is the text up to the first place where the separator matches |
| PdfText.Split | backend/services/pdfService.js:76 | `split` on the whole text gives at least one piece, and no piece contains a place where the separator matches |
| PdfText.PiecesHaveNoBreak | backend/services/pdfService.js:75-76 | no piece holds a place where the separator matches: words hold no blank, and sentences hold no blank after a stop mark |
| PdfText.RunsAreMaximal | backend/services/pdfService.js:75-76 | no piece after the first starts with whitespace |
| PdfText.SentencesEndInStopMarks | backend/services/pdfService.js:75-76 | with the look-behind, every sentence but the last ends in `.`, `!` or `?` |
| PdfText.PiecesFromInput | backend/services/pdfService.js:75-76 | every character of a piece comes from the input |
| PdfText.GapsFrom | backend/services/pdfService.js:75-76 | the separators between the pieces: one fewer than the pieces, each a non-empty whitespace run |
| PdfText.SplitReassembles | backend/services/pdfService.js:75-76 | the pieces, with the separators put back between them, are the input |
| PdfText.TrimAll | backend/services/pdfService.js:78 | `.map(s => s.trim())` keeps the number of sentences; each result has no blank at either end, is no longer than its sentence, and is empty exactly when that sentence is all blanks |
| PdfText.TrimmedStayTrimmed | backend/services/pdfService.js:77-78 | a trimmed sentence is left unchanged by a second `trim()` |
| PdfText.LongOnes | backend/services/pdfService.js:77 | the filter keeps only sentences longer than 20 characters |
| PdfText.LongOnesAreGiven | backend/services/pdfService.js:77 | the filter keeps only sentences it was given |
| PdfText.LongIndices | backend/services/pdfService.js:77 | the positions holding a long sentence, increasing |
| PdfText.LongIndicesComplete | backend/services/pdfService.js:77 | every position holding a long sentence is among them |
| PdfText.LongOnesAtIndices | backend/services/pdfService.js:77 | the filter's output is the sentences at those positions, in order |
| PdfText.ExtractKeyPoints | backend/services/pdfService.js:73-82 | at most five key points, each trimmed and longer than 20 characters |
| PdfText.KeyPointsAreFirstLongSentences | backend/services/pdfService.js:73-82 | the key points are the first five long sentences (or all of them when there are fewer), trimmed, in the order of the text. No long sentence is skipped |
| PdfText.CleanChar | backend/services/pdfService.js:87 | lower-casing and then replacing `[^\w\s]` leaves only `[a-z0-9_]` and whitespace. A `\w` character becomes its lower case, whitespace is kept, the Kelvin sign becomes `k`, U+0130 becomes `i` and a blank, and every other character becomes a blank |
| PdfText.Clean | backend/services/pdfService.js:87 | the cleaned text holds only `[a-z0-9_]` and whitespace and is never shorter than the input. Without U+0130 it has the input's length, and each character is the cleaning of the input character at the same place |
| PdfText.WordsAreLowerWordChars | backend/services/pdfService.js:87-90 | every word of the cleaned text is made of `[a-z0-9_]` only |
| PdfText.Words | backend/services/pdfService.js:90 | `cleanedText.split(/\s+/)`: at least one word, and no word holds whitespace |
| PdfText.FilterWords | backend/services/pdfService.js:103-105 | kept words are not stop words and are longer than 3 characters. Each passing word keeps its number of occurrences |
| PdfText.CountFrequencies | backend/services/pdfService.js:108-111 | the table counts exactly the given words, each as often as it occurs. The keys are those words, each once, in the order of their first occurrence (`FirstOccurrences`). This is insertion order; the source's `Object.entries` puts integer-like keys first |
| PdfText.FirstOccurrencesInOrder | backend/services/pdfService.js:108-111 | every key comes from the words, and of two keys the earlier one occurs before the later one first does |
| PdfText.Entries | backend/services/pdfService.js:114 | `Object.entries` holds a pair exactly when its word is a key and its number is that word's count, and distinct keys give distinct pairs |
| PdfText.ByCountDescIsTotalPreorder | backend/services/pdfService.js:115 | `(a, b) => b[1] - a[1]` orders by decreasing count consistently |
| PdfText.Ranked | backend/services/pdfService.js:114-115 | the entries, permuted and sorted by decreasing count |
| PdfText.TopWords | backend/services/pdfService.js:114-117 | `.slice(0, 5)` takes five words, or every word when there are fewer |
| PdfText.RankedEntries | backend/services/pdfService.js:114-115 | the ranked entries are exactly the table's (word, count) pairs, each once |
| PdfText.TopWordsRanked | backend/services/pdfService.js:114-117 | the top words are counted, distinct and in order of decreasing count |
| PdfText.TopWordsComplete | backend/services/pdfService.js:114-117 | a counted word that is left out was pushed out by five words counted at least as often |
| PdfText.FewWordsAllKept | backend/services/pdfService.js:116 | with fewer than five counted words, all of them are kept |
| PdfText.CountsAreOccurrences | backend/services/pdfService.js:90-111 | the table counts exactly the passing words of the text, each as often as it occurs in the text |
| PdfText.TopicsFromCounts | backend/services/pdfService.js:85-120 | ranking a table that counts the text's filtered words gives at most five distinct topics. Each is a passing word of the text, and they come in order of decreasing occurrence count. A passing word left out means there are five topics, each occurring at least as often |
| PdfText.ExtractTopics | backend/services/pdfService.js:85-120 | at most five distinct topics, each a word of the text that passes the filter and is made of `[a-z0-9_]`, in order of decreasing occurrence count. A passing word left out means there are five topics, each occurring at least as often |
| PdfText.FrequenciesAsWritten | backend/services/pdfService.js:108-111 | the object as written never gets `__proto__` as an own key, and every key it has is one of the words |
| PdfText.AsWrittenCountsOtherWords | backend/services/pdfService.js:108-111 | apart from `constructor` and `__proto__`, the object as written holds each word with its plain count |
| PdfText.ProtoWordIsLost | backend/services/pdfService.js:108-111 | the word `__proto__`, though it occurs twice, is never counted |
| PdfText.ConstructorCountIsText | backend/services/pdfService.js:108-111 | the word `constructor` gets a string as its count, not a number |

## Findings

| source | as written | input that shows it | evidently intended | confidence | as-written member | corrected member |
|---|---|---|---|---|---|---|
| backend/services/pdfService.js:108-111 | `frequencies` is a plain `{}`, so `frequencies[word]` falls through to `Object.prototype`. Assigning a number to `__proto__` is ignored, so the word is never counted | a text holding the word `__proto__` (which passes the filter: it is not a stop word and is longer than 3) | every passing word is counted | high; not executed | PdfText.ProtoWordIsLost | PdfText.CountFrequencies |
| backend/services/pdfService.js:108-111 | `frequencies["constructor"]` is first the inherited `Object` function, so `(… \|\| 0) + 1` concatenates text instead of adding | a text holding the word `constructor` | its count is the number of occurrences | high; not executed | PdfText.ConstructorCountIsText | PdfText.CountFrequencies |

The rest of the model counts with `CountFrequencies`, a table that starts
empty. `AsWrittenCountsOtherWords` shows that the as-written object agrees
with it on every other word.

## Left out

- Express plumbing is not modelled: request parsing, the JSON bodies of the responses, and logging. Each handler returns its payload or an error that carries its status and message.
- The stub response object of the recursive call is modelled only by its net effect: a child call that succeeds reports 500, and its caller ignores the outcome.
- MongoDB and Mongoose are replaced by a map from id to record: no `populate`, no query engine, no connection failures.
- Database and storage failures, which the handlers turn into 500, are not modelled; every write succeeds.
- ObjectId parsing is not modelled: a malformed id, which makes `findById` throw and the handler answer 500, is not distinguished from an unknown one.
- Record ids are natural numbers, allocated fresh and greater than the parent's. This stands in for ObjectIds and gives the ordering that rules out cycles. The model therefore excludes a `parent` that names a later record or the record itself, and with them a delete that never terminates on a cycle of `parent` links.
- Writes that touch several records are not atomic in the source, and concurrent requests are not modelled. The model executes one request at a time.
- Authentication is out of scope: the requester's id is an input.
- Clocks are inputs: one `now` per request.
- FileController.FileStore.DeleteFile: the source calls `new Date()` once per record it trashes, so its records can get slightly different `deletedAt` values; the model stamps them all with the same time.
- Object storage is modelled only as entries in the effect log: the upload middleware, the object upload and the object delete call are not.
- FileController.FileStore.GetFileUrl: returns the object key that the source passes to `getSignedUrl`, not the signed URL.
- Whether Mongoose stores `deleted` and `deletedAt`, which the schema does not declare, is not modelled: the model assumes both fields are saved.
- PdfText.ExtractTopics: the order among topics with equal counts is left open. The source's order follows the object's key order, where integer-like keys come before the others in ascending numeric order.
- PdfText.ExtractTopics: the source's count for the word `constructor` is a string, and the subtraction in its comparator then yields NaN. The model counts that word like any other (see Findings).
- PdfText.ExtractKeyPoints: lengths are counted in characters. JavaScript counts UTF-16 code units, so a character outside the Basic Multilingual Plane counts twice in the source.
- The `User` model is taken to load and `User.findOne` to work: `ShareFile` receives the registered users as a map. As written, `backend/models/User.js:28` reads `module.exportsmongoose.model(...)` with no `=`, which throws when the module loads, so the `require` at `backend/controllers/fileController.js:3` fails and no handler runs; the model describes the handlers as they behave once that line exports the model.
- `extractTextFromPDF`, `summarizeText` and `generatePDFSummary` are not part of this model: PDF parsing and a network call to a summarisation service.
- The trash listing, restore, empty-trash and summary endpoints are not registered by the routes, and no controller implements them, so there is no behaviour of theirs to model.
- PdfText.ExtractKeyPoints: the source filters on the trimmed length and then trims. The model trims first and then filters on the length, which keeps the same strings.
