# Wardrobe app core, modelled in Dafny

Two pieces of the wardrobe app have behaviour that can be stated and proved.

- `toPascalCase` (utils/string.ts) turns a label such as `"denim jacket"` into `"DenimJacket"`.
  It is a global regular-expression `replace` with a callback, followed by a second `replace` that strips white space.
  Module `PascalCase` (pascal_case.dfy) models the regular-expression scan as the JavaScript engine runs it.
  It then proves the scan equal to a simpler reference in which every input character decides its own fate.
  The properties callers rely on are proved from that reference.
- `uploadWardrobeItem` (firestore/wardrobe.ts) writes one clothing item in up to five remote calls:
  - the per-user wardrobe document;
  - the image blob;
  - the blob's download URL;
  - a patch of the document with `imageUrl`;
  - the global detail record.

  Any failure is caught and logged, and nothing is rolled back.
  Module `Wardrobe` (wardrobe.dfy) models this in two layers:
  - pure functions for the names derived from the new document id: the extension, the blob name and the `userId-docId` composite id;
  - a class `Stores` whose fields are the two document collections and the blob bucket (as maps), the id counter and the error log.
    Its method `UploadWardrobeItem` makes the calls one after another and is proved against `Upload`.
    `Upload` is a function describing the stores after one run. The ordering, early-return and no-rollback properties are lemmas about `Upload`.

  Which remote calls fail, and which URL the server returns, is the `Network` parameter.
  Document ids come from a counter (`AutoId`). The class invariant guarantees that a generated id, and the blob path built from it, were never used before.

`Wrappers` (wrappers.dfy) holds `Option`.

The file extension is `jpg` when there is no image URI, when the URI is empty, and when the text after its last `.` is empty (a URI ending in `.`): `split(".").pop()` is then the empty string, which `|| "jpg"` replaces.
types/item.ts declares `id` as a number, but firestore/wardrobe.ts writes string ids. The model follows firestore/wardrobe.ts.

## Model

| member | source | states |
|---|---|---|
| PascalCase.IsWordChar | utils/string.ts:3 | `\w` without the `u` flag: ASCII letters, ASCII digits and `_` (no contract; RenderedWord and ConvertWord state what it decides) |
| PascalCase.IsSpace | utils/string.ts:3 | `\s`: the ECMAScript white-space and line-terminator code points; WordCharIsNotSpace shows no `\w` character is one |
| PascalCase.IsBoundary | utils/string.ts:3 | `\b`: the characters on either side of the position differ in being `\w`, an index out of range counting as not `\w` (no contract; MatchAt states its use) |
| PascalCase.ToUpper | utils/string.ts:5 | `toUpperCase` on one character: ASCII lower-case letters move to upper case, every other character is kept (no contract; ConvertWord states its effect) |
| PascalCase.Upper | utils/string.ts:5 | `toUpperCase` on a match, character by character (no contract; CharMatchIsRendered states its effect) |
| PascalCase.IsAsciiUpper | utils/string.ts:3 | `[A-Z]`: the ASCII capital letters (no contract; MatchAt states its use) |
| PascalCase.IsWordStart | utils/string.ts:3 | `^\w` or `\b\w`: a `\w` character at the start or right after a character that is not `\w` (no contract; MatchAt and ConvertAppend state its use) |
| PascalCase.SpaceRun | utils/string.ts:3 | the `\s+` alternative takes the longest run of white space starting at the position, and stops before the first character that is not white space |
| PascalCase.MatchAt | utils/string.ts:3 | the regular expression matches at a position exactly when the character there is white space, an ASCII capital, or a word-initial `\w`; a match is one character or a run of white space |
| PascalCase.IsBlank | utils/string.ts:4 | decides which matches disappear: white space, and under `NumericZero` (the code's `+match === 0`) also "0"; on the texts the expression can match, `Number` gives 0 exactly for those (no contract; CharMatchIsRendered and SpaceRunIsRendered state its effect) |
| PascalCase.Callback | utils/string.ts:4-5 | the callback never lengthens a match |
| PascalCase.Replaced | utils/string.ts:3-6 | the first `replace` is no longer than its input |
| PascalCase.StripSpaces | utils/string.ts:7 | the second `replace` leaves no white space, empties a white-space string and leaves a string without white space unchanged |
| PascalCase.Convert | utils/string.ts:2-7 | both `replace` passes with a given callback test (no contract of its own; ConvertIsRendered and ConvertAppend characterise it) |
| PascalCase.ToPascalCase | utils/string.ts:1-8 | the result is no longer than the input and contains no white space |
| PascalCase.ToPascalCaseIntended | utils/string.ts:4 | with the test the comment proposes, the result is no longer than the input and contains no white space |
| PascalCase.RenderedSplit | utils/string.ts:3-6 | the per-character reference of a range is the reference of its two halves, concatenated |
| PascalCase.RenderedSpaces | utils/string.ts:4 | white-space characters contribute nothing to the reference |
| PascalCase.CharMatchIsRendered | utils/string.ts:3-5 | the callback on a one-character match gives exactly that character's fate: gone for white space or a word-initial "0", upper-cased otherwise |
| PascalCase.SpaceRunIsRendered | utils/string.ts:4 | the callback drops a white-space run, as the reference drops each of its characters |
| PascalCase.CopyStep | utils/string.ts:3 | a character where nothing matches is copied unchanged |
| PascalCase.MatchStep | utils/string.ts:3-5 | a match is replaced by its characters' fates and the scan resumes after it |
| PascalCase.ScanStep | utils/string.ts:3-6 | one step of the scan, match or copy, produces the reference of the characters it consumed |
| PascalCase.ReplacedIsRendered | utils/string.ts:3-6 | the regular-expression scan computes exactly the per-character reference |
| PascalCase.RenderedPrefix | utils/string.ts:3-6 | a character's fate depends only on what precedes it |
| PascalCase.RenderedHasNoSpace | utils/string.ts:3-6 | no fate contains white space |
| PascalCase.SecondPassIsIdentity | utils/string.ts:4-7 | the second `replace` never changes the first pass's output |
| PascalCase.ConvertIsRendered | utils/string.ts:1-8 | both passes together compute the per-character reference |
| PascalCase.ConvertAppend | utils/string.ts:3-7 | appending a character appends nothing if it is white space or (as written) a word-initial "0", its upper case if it starts a word, and itself otherwise |
| PascalCase.ConvertPrefix | utils/string.ts:1-8 | the output for a prefix of the input is a prefix of the output |
| PascalCase.RenderedShift | utils/string.ts:3 | after a character that is not `\w`, the fates of the rest do not depend on what came before it |
| PascalCase.RenderedAfterNonWord | utils/string.ts:3 | the reference splits at a character that is not `\w` |
| PascalCase.ConvertAfterNonWord | utils/string.ts:3-7 | whatever follows a character that is not `\w` is converted as if it stood alone |
| PascalCase.ConvertTrailingSpace | utils/string.ts:4-7 | trailing white space adds nothing |
| PascalCase.ConvertAcrossSpace | utils/string.ts:3-7 | a white-space run between two parts disappears entirely and the part after it is converted as if it stood alone |
| PascalCase.ConvertAcrossPunctuation | utils/string.ts:3 | punctuation passes through unchanged and the part after it starts a new word |
| PascalCase.VisibleCountAppend | utils/string.ts:7 | counting the characters that are not white space is additive |
| PascalCase.IntendedKeepsVisibleChars | utils/string.ts:4 | with the intended test, the output length is exactly the number of characters that are not white space |
| PascalCase.IntendedAgreesWithoutInitialZero | utils/string.ts:4 | the code as written and the intended test agree on every input with no word-initial "0" |
| PascalCase.ConvertEmpty | utils/string.ts:1-8 | the empty string converts to the empty string |
| PascalCase.RenderedWord | utils/string.ts:3-5 | inside a run of `\w` characters only the first can change; the rest are copied |
| PascalCase.ConvertWord | utils/string.ts:3-5 | a single word has its first character upper-cased, and no later character is lower-cased or changed |
| PascalCase.TwoWords | utils/string.ts:3-7 | two words joined by a space: the space goes and each word is capitalised |
| PascalCase.ExampleDenimJacket | utils/string.ts:1-8 | "denim jacket" gives "DenimJacket" and "denim JACKET" gives "DenimJACKET": the space goes and a later capital is not lower-cased |
| PascalCase.LeadingZeroDropped | utils/string.ts:4 | as written, a word that starts with "0" loses it, and the next character is not capitalised |
| PascalCase.ExampleLeadingZero | utils/string.ts:4 | as written, "0abc" gives "abc" |
| PascalCase.IntendedKeepsLeadingZero | utils/string.ts:4 | with the intended test, "0abc" is kept whole |
| Wardrobe.WardrobeEntry | firestore/wardrobe.ts:27-33 | the wardrobe document holds exactly name, clothingType, clothingCategory, sustainabilityScore (copied from `itemData`) and the server timestamp, and no `imageUrl` |
| Wardrobe.DetailEntry | firestore/wardrobe.ts:53-58 | the detail record holds every `itemData` field (which wins a clash), plus `id` = `userId-docId`, `imageUrl` and the timestamp where `itemData` does not bring them |
| Wardrobe.Split | firestore/wardrobe.ts:35 | `split` gives at least one piece, no piece contains the separator, and there is more than one piece exactly when the separator occurs |
| Wardrobe.JoinSplit | firestore/wardrobe.ts:35 | joining the pieces of `split` gives back the string |
| Wardrobe.LastIndexOf | firestore/wardrobe.ts:35 | the index found holds the character sought and no later index does, or it is -1 when the character does not occur |
| Wardrobe.LastPiece | firestore/wardrobe.ts:35 | the last piece of `split(".")` contains no '.' |
| Wardrobe.LastPieceAfterLastDot | firestore/wardrobe.ts:35 | the last piece of `split(".")` is the text after the last '.' |
| Wardrobe.FileExtension | firestore/wardrobe.ts:35 | the extension is never empty and contains no '.'; it is "jpg" without an image URI |
| Wardrobe.ExtensionAfterLastDot | firestore/wardrobe.ts:35 | the extension is the text after the last '.' of the URI, and "jpg" when that text is empty |
| Wardrobe.ExtensionWithoutDot | firestore/wardrobe.ts:35 | a non-empty URI without a '.' is its own extension |
| Wardrobe.FileName | firestore/wardrobe.ts:36 | the blob name `${docId}.${ext}` (no contract; FileNameKeepsExtension and BlobPathNamesDoc read its parts back) |
| Wardrobe.FileNameKeepsExtension | firestore/wardrobe.ts:35-36 | reading the extension back off the blob name `docId.ext` gives `ext` |
| Wardrobe.DetailId | firestore/wardrobe.ts:54 | the composite id `${userId}-${docId}` (no contract; DetailIdInjective shows it determines both parts) |
| Wardrobe.BlobPath | firestore/wardrobe.ts:42-43 | the blob's path `${bucket}/${userId}/` followed by the blob name (no contract; BlobPathInjective and BlobPathNamesDoc read it back) |
| Wardrobe.BlobPathNamesDoc | firestore/wardrobe.ts:36-43 | the document a blob path belongs to, read back between its last '/' and its last '.', is the document id the path was built from |
| Wardrobe.SeparatedInjective | firestore/wardrobe.ts:54 | a join with a separator that the left part lacks can be undone |
| Wardrobe.DetailIdInjective | firestore/wardrobe.ts:54 | the composite id `userId-docId` determines the user and the document, when user ids contain no '-' |
| Wardrobe.SeparatedInjectiveRight | firestore/wardrobe.ts:54 | a join with a separator that the right part lacks can be undone |
| Wardrobe.DetailIdInjectiveByDocId | firestore/wardrobe.ts:54 | the composite id `userId-docId` determines the user and the document for any user ids, since generated document ids contain no '-' |
| Wardrobe.BlobPathInjective | firestore/wardrobe.ts:42-43 | two users' blobs never share a path, when user ids contain no '/' |
| Wardrobe.AutoId | firestore/wardrobe.ts:34 | each generated id is one character longer than the one before, and contains no '-', '/' or '.' |
| Wardrobe.HasImage | firestore/wardrobe.ts:38 | `!imageUri` is false: the URI is present and not the empty string (no contract; UploadWithoutImage states what the early return leaves) |
| Wardrobe.WithImageUrl | firestore/wardrobe.ts:49-51 | `update({ imageUrl })` adds or replaces `imageUrl` with the URL and keeps every other field unchanged |
| Wardrobe.CaughtStep | firestore/wardrobe.ts:19-62 | the call whose rejection the `catch` receives, if any (no contract of its own; CaughtIsFirstFailure states that it is the first call made that fails) |
| Wardrobe.Upload | firestore/wardrobe.ts:19-62 | the whole effect of one run on the stores, the id counter and the error log (no contract of its own; every Upload lemma below and UploadWardrobeItem's ensures refer to it) |
| Wardrobe.NewPathIsFresh | firestore/wardrobe.ts:36-43 | the new image's path belongs to the id generated now, so no earlier blob has it |
| Wardrobe.CaughtIsFirstFailure | firestore/wardrobe.ts:19-62 | the call that throws is the first call made that fails; nothing throws exactly when the last call made succeeds |
| Wardrobe.UploadKeepsValid | firestore/wardrobe.ts:34-59 | a run keeps fresh every generated id and every blob path built from one |
| Wardrobe.UploadKeepsEarlierWrites | firestore/wardrobe.ts:19-62 | no rollback and no overwrite: every earlier document and every earlier blob stays in place unchanged, and the error log grows by at most one entry |
| Wardrobe.FreshWritesKeepEarlierOnes | firestore/wardrobe.ts:34-59 | a run writes only at the new document id, the new blob path and the new detail key, so when those are unused nothing earlier is overwritten |
| Wardrobe.UploadWithoutImage | firestore/wardrobe.ts:38-40 | without an image no blob, patch or detail record is written; the wardrobe document is written and nothing is logged, unless `addDoc` itself fails, in which case no document is written and the failure is logged |
| Wardrobe.DetailFollowsPatchedItem | firestore/wardrobe.ts:46-59 | a detail record appears only after the upload, URL fetch and patch all succeeded; it is stored under a fresh key, its `id` field is `userId-docId` unless `itemData` brings its own `id`, and it carries the URL the wardrobe document was patched with unless `itemData` brings its own `imageUrl` |
| Wardrobe.FailedUploadLeavesBareItem | firestore/wardrobe.ts:34-62 | a failed blob upload leaves the wardrobe document without an image and writes no detail record, and the failure is logged |
| Wardrobe.UploadThrowsAt | firestore/wardrobe.ts:34-62 | a run that throws at a step leaves exactly the writes made before it, writes no detail record and logs that step |
| Wardrobe.UploadCompletes | firestore/wardrobe.ts:34-59 | a run that throws nothing writes the document (patched when there is an image) and, when there is an image, the blob and the detail record, and logs nothing |
| Wardrobe.Stores.constructor | firestore/wardrobe.ts:21-26 | the stores start empty, with the bucket given |
| Wardrobe.Stores.AddWardrobeDoc | firestore/wardrobe.ts:34 | `addDoc` fails exactly when the network says so; otherwise it writes the document under a fresh id and changes nothing else |
| Wardrobe.Stores.PutFile | firestore/wardrobe.ts:42-46 | `putFile` stores the local file with its content type at the path, or fails and stores nothing |
| Wardrobe.Stores.GetDownloadUrl | firestore/wardrobe.ts:48 | the URL is returned only for a stored blob when the call does not fail |
| Wardrobe.Stores.PatchImageUrl | firestore/wardrobe.ts:49-51 | the patch sets `imageUrl` on an existing document and keeps its other fields; a failure changes nothing |
| Wardrobe.Stores.AddDetailDoc | firestore/wardrobe.ts:59 | `addDoc` on the detail collection writes the record under the next id, or fails and writes nothing |
| Wardrobe.Stores.LogError | firestore/wardrobe.ts:60-62 | the catch block appends the failing step to the log and touches no store |
| Wardrobe.Stores.UploadWardrobeItem | firestore/wardrobe.ts:12-63 | the stores after the call are exactly `Upload` of the stores before it, and the id-freshness invariant holds again |
| Wardrobe.Stores.UploadSteps | firestore/wardrobe.ts:19-62 | the `try` block, from given stores with fresh ids: adding the document, the early return without an image, and the image steps leave the stores exactly as `Upload` describes |
| Wardrobe.Stores.AttachImage | firestore/wardrobe.ts:42-62 | once the wardrobe document is written and there is an image, the remaining calls leave the stores as `Upload` describes |
| Wardrobe.Stores.RecordImageUrl | firestore/wardrobe.ts:49-62 | once the blob is stored and its URL fetched, the patch and the detail record leave the stores as `Upload` describes |
| Wardrobe.Stores.AddDetailRecord | firestore/wardrobe.ts:52-62 | once the wardrobe document carries the URL, adding the detail record leaves the stores as `Upload` describes |

## Left out

- `console.log` and the error object passed to `console.error` are not modelled. The log records only which call threw.
- The Firebase SDK is not modelled: the real collection and document references, path normalisation, retries and the reasons a call fails. A call fails when the `Network` parameter lists it; `getDownloadURL` also fails for a missing blob and `update` for a missing document, though within one run the blob and the document it reads are always present.
- Random document ids are not modelled. They are replaced by a counter whose ids are fresh by construction.
- `serverTimestamp()` is kept as a sentinel value, not resolved to a time.
- The collection and bucket names come from the app's constants module, which is not part of this model. The bucket is a constructor parameter, and the collections are the class's fields.
- Wardrobe.WardrobeEntry requires that `itemData` has name, clothingType, clothingCategory and sustainabilityScore. firestore/wardrobe.ts:28-31 reads these four fields; an absent one would reach `addDoc` as `undefined`, and what Firestore does with such a value is not modelled.
- Wardrobe.Stores.UploadWardrobeItem carries the same requirement on `itemData`, for the same reason.
- Wardrobe.Stores.UploadWardrobeItem runs its `try` block through four helper methods (UploadSteps, then AttachImage, RecordImageUrl and AddDetailRecord, one per stage). This only splits the one block; the calls are made in the source's order.
- Wardrobe.Stores.AddDetailDoc does not itself state that its key is fresh. Freshness of every generated id is stated once, by Wardrobe.UploadKeepsValid and Wardrobe.UploadKeepsEarlierWrites.
- `toUpperCase` is modelled for ASCII only. The callback upper-cases only matched `\w` characters, and those are ASCII without the `u` flag.
- The rest of the app is not part of this model: screens, navigation, the session wrapper over Firebase Auth, the AI classification and the category-compatibility mapping.
- Concurrency is not modelled. The calls are awaited one after another, so no two of them overlap.

## Findings

| source | as written | input that shows it | evidently intended | confidence | as-written member | corrected member |
|---|---|---|---|---|---|---|
| utils/string.ts:4 | `+match === 0` drops a matched "0" as well as white space, so a word that starts with "0" loses that digit | "0abc" gives "abc"; "size 0 dress" gives "SizeDress" | drop only white space (the `match.trim() === ''` test in the comment), so "0abc" stays "0abc" | medium, not executed | PascalCase.LeadingZeroDropped | PascalCase.IntendedKeepsVisibleChars |
