# Multimodal API server: upload and user metadata routes

This project is a Dafny model of the two request handlers of the AIMLAB multimodal API server,
with proofs of what they guarantee.

- **POST /api/upload**, in `multimodal/routes/upload.js`, takes up to three files for one
  conversational turn: a video, an audio recording and an utterance transcript.
  - A per-field extension whitelist guards them, with a case-insensitive extension.
  - The middleware limits are one file per field, three files in all, and 100 MiB per file.
  - The `X-User-ID`, `X-Session-ID` and `X-Turn-ID` headers are required.
  - Each file is stored verbatim under `uploads/<user>/<session>/<turn>/<original name>`.
  - The response lists the stored files with `file_count` and `total_size`.
- **POST /api/user**, in `multimodal/routes/user.js`, stores a user's profile. The profile has
  gender, age, occupation, a GAD-7 score and a PHQ-9 score.
  - The profile comes either from an uploaded JSON file or from inline fields; the file wins.
  - The user id is checked first. Malformed JSON is refused after that, before validation and
    before any write.
  - Inline numbers are read with `parseInt`.
  - `validateUserData` collects every range violation: age 0-150, GAD-7 0-21, PHQ-9 0-27.
  - The record stored under `uploads/<user>/` is layered as `{ user_id, ...metadata, created_at }`.
  - The response carries a `source` tag.

Both routes have a catch block that maps an error to a status.

The modules follow the program's structure:

- `JsStrings`: the string built-ins the routes use. These are `includes`, `toLowerCase`,
  `join`, and Node's POSIX `path.extname`, which is modelled character by character.
- `JsValues`: the JavaScript values that reach the metadata route, with truthiness, ECMAScript
  `ToNumber` (used by `isNaN`, `<` and `>`), and `parseInt` with no radix. Turning an object
  with an own "toString" into a primitive throws a TypeError, and so does turning an array that
  holds one; both are modelled.
- `JsObjects`: objects as ordered own-property lists, with property read, property definition
  and object spread.
- `FileStore`: the file system as a class with a map from paths to contents and a set of
  directories. `ensureDir` and `writeFile` are methods on it.
- `Multer`: the upload middleware's checks as a validator over the file parts of a request.
- `Upload` and `UserMetadata`: the two routes.

Each handler is an imperative module-level method that takes the `FileSystem` as a parameter and
modifies it. Its postcondition gives the response and the new store for every path through the
handler. The pure parts are functions, with lemmas
relating them. They cover the filters, the record built from inline fields, the validation, the
record layering, the MIME table and the catch-block mappings.

Inline fields and uploaded files are checked differently. An inline `age: "abc"` becomes
`parseInt("abc")`, which is NaN. NaN is falsy, so `validateUserData` does not flag it
(`UserMetadata.InlineNonNumericPasses`). A non-numeric string that arrives in an uploaded JSON
file stays a string and is flagged (`UserMetadata.FlaggedIff`). An object with an own
"toString" as `age`, `gad7_result` or `phq9_result`, in either place, makes the handler throw,
and the catch block answers 500 (`UserMetadata.HandleUserMetadata`). Inline `gender` and
`occupation` pass through `v || null` and are never converted, and no other field of an uploaded
file is read.

## Model

| member | source | states |
|---|---|---|
| JsStrings.IncludesIff | multimodal/routes/upload.js:153 | `s.includes(t)` holds exactly when `t` occurs at some position of `s` |
| JsStrings.ToLower | multimodal/routes/upload.js:25 | lower-casing keeps the length |
| JsStrings.ToLowerIdempotent | multimodal/routes/upload.js:78 | lower-casing an already lower-cased extension changes nothing |
| JsStrings.ToLowerDotPrefix | multimodal/routes/upload.js:25 | lower-casing ".x" gives "." followed by the lower-cased x |
| JsStrings.JoinIncludes | multimodal/routes/user.js:77 | every item of `xs` occurs in `xs.join(sep)`, whatever the separator |
| JsStrings.PlainBaseName | multimodal/routes/upload.js:25 | a name with no '/' is its own last segment |
| JsStrings.ExtName | multimodal/routes/upload.js:25 | `path.extname` is either "" or a '.' followed by a text with no '.' and no '/' |
| JsStrings.ExtNameOfSuffix | multimodal/routes/upload.js:25 | a name "base.x", with a non-empty base and an x free of '.' and '/', has extension ".x" |
| JsStrings.NoExtWithoutInnerDot | multimodal/routes/upload.js:25 | a segment whose only '.' is its first character, or that has no '.', has no extension |
| JsValues.TrimStart | multimodal/routes/user.js:65 | `parseInt`'s white-space skip returns a suffix of the input that does not start with white space |
| JsValues.Truthy | multimodal/routes/user.js:140 | defines JavaScript truthiness: undefined, null, false, 0, NaN and "" are falsy; `OutOfRangeIff` and `FlaggedIff` use it |
| JsValues.DigitRun | multimodal/routes/user.js:65 | the run `parseInt` reads is all digits and stops at the first non-digit |
| JsValues.StringToNumber | multimodal/routes/user.js:140 | defines `Number(s)` for a string: trimmed, "" is 0, radix-prefixed integers and signed decimal literals, NaN otherwise; `StringToNumberOfDigits` states it for digit strings |
| JsValues.ConversionThrows | multimodal/routes/user.js:140 | defines when turning a value into a primitive throws: an object with an own "toString", or an array holding such a value |
| JsValues.RangeCheck | multimodal/routes/user.js:140 | defines `v && (isNaN(v) or v < 0 or v > max)`, with falsy values left unconverted and a throwing conversion; `OutOfRangeIff` states its meaning |
| JsValues.OutOfRange | multimodal/routes/user.js:140 | the check holds without throwing; `OutOfRangeIff` states when |
| JsValues.OutOfRangeIff | multimodal/routes/user.js:140 | the test `v && (isNaN(v) or v < 0 or v > max)` throws exactly when converting v throws. It holds exactly when v is truthy, converts, and does not read as a number in [0, max] |
| JsValues.ParseInt | multimodal/routes/user.js:65-68 | `parseInt(v)` throws exactly when turning v into a string throws; otherwise it yields NaN or a finite integer |
| JsValues.ParseIntValue | multimodal/routes/user.js:65-68 | what `parseInt` reads from a value whose conversion does not throw is NaN or a finite integer |
| JsValues.ParseIntString | multimodal/routes/user.js:65-68 | `parseInt` of a string yields NaN or a finite integer |
| JsValues.ParseIntNumber | multimodal/routes/user.js:65-68 | `parseInt` of a number yields NaN or a finite integer |
| JsValues.ParseIntSigned | multimodal/routes/user.js:65-68 | after the white space, `parseInt` yields NaN or a finite integer |
| JsValues.ParseIntSkipsSpace | multimodal/routes/user.js:65-68 | leading white space does not change what `parseInt` reads |
| JsValues.ParseIntSignedDigits | multimodal/routes/user.js:65-68 | a digit run after an optional '-' reads as its decimal value, negated after '-' |
| JsValues.ParseIntOfDigits | multimodal/routes/user.js:65-68 | `parseInt` of a non-empty digit string is its decimal value |
| JsValues.ParseIntReadsDecimalPrefix | multimodal/routes/user.js:65-68 | after optional white space and '-', `parseInt` reads the longest digit run as its decimal value, with the sign applied |
| JsValues.ParseIntNonDigit | multimodal/routes/user.js:65-68 | a string starting with neither white space, a sign nor a digit reads as NaN |
| JsValues.StringToNumberOfDigits | multimodal/routes/user.js:140 | `Number(d)` of a digit string is its decimal value, as `isNaN` and `<` read it |
| JsObjects.Get | multimodal/routes/user.js:140 | reading a key that is not there gives `undefined` |
| JsObjects.Put | multimodal/routes/user.js:89 | defining an existing key keeps the key order, and a new key goes last |
| JsObjects.GetAt | multimodal/routes/user.js:62-69 | in an object with distinct keys, each key reads back its own value |
| JsObjects.GetPut | multimodal/routes/user.js:89 | after defining k as v, k reads v and every other key reads as before |
| JsObjects.GetPutSame | multimodal/routes/user.js:89 | after defining k as v, k reads v, whatever the object held |
| JsObjects.Spread | multimodal/routes/user.js:88 | defines `{...base, ...src}` as src's properties defined on base one at a time, in src's order; `SpreadKeys` and `GetSpread` state its keys and values |
| JsObjects.PutKeepsDistinct | multimodal/routes/user.js:86-90 | defining a property never repeats a key |
| JsObjects.SpreadKeepsDistinct | multimodal/routes/user.js:86-90 | a spread never repeats a key |
| JsObjects.GetSpread | multimodal/routes/user.js:86-90 | after `{...base, ...src}`, a key of src has src's value and any other key has base's |
| JsObjects.SpreadKeys | multimodal/routes/user.js:86-90 | a spread keeps base's keys first and in order, and its keys are those of base and src together |
| FileStore.Ancestry | multimodal/routes/user.js:82-83 | a path is in the set exactly when it is a non-empty prefix of the given path: the path itself and every parent that `recursive: true` creates |
| FileStore.FileSystem.EnsureDir | multimodal/routes/upload.js:59 | `ensureDir` adds the path and its ancestors to the directories and changes no file |
| FileStore.FileSystem.WriteFile | multimodal/routes/upload.js:87 | `writeFile` sets exactly one path's content, creating or overwriting it, and changes no directory |
| Multer.CollectAcceptsIff | multimodal/routes/upload.js:11-16 | the middleware accepts a request exactly when every part meets the count limit, the declared single-file fields, the filter and the size limit; it then passes all parts on unchanged |
| Multer.CheckPart | multimodal/routes/upload.js:11-16 | defines the checks on one part, first failure winning: the file count, a declared field not seen before, the filter, the size; `CollectAcceptsIff` states their effect |
| Multer.Collect | multimodal/routes/upload.js:11-16 | defines the middleware as the part checks in arrival order, stopping at the first error; `CollectAcceptsIff` states when it accepts |
| Multer.SizeRejectionNeedsLargePart | multimodal/routes/upload.js:13-14 | a `LIMIT_FILE_SIZE` rejection happens only when some part is over the size limit |
| Upload.RoleOf | multimodal/routes/upload.js:19-23 | a field name stands for a slot exactly when it is "video", "audio" or "utterance" |
| Upload.FileFilter | multimodal/routes/upload.js:17-33 | the filter throws exactly for a field that is not a slot; a rejection's message contains "Invalid file type"; an accepted name is non-empty and has an extension |
| Upload.InvalidTypeMessageIncludes | multimodal/routes/upload.js:31 | the rejection message of each slot contains "Invalid file type" |
| Upload.NoEmptyExtension | multimodal/routes/upload.js:20-22 | no listed extension is empty |
| Upload.EmptyNameHasNoExtension | multimodal/routes/upload.js:25-28 | a name without an extension, the empty name among them, is in no slot's list |
| Upload.FilterAcceptsIff | multimodal/routes/upload.js:25-29 | a part of a slot's field is accepted exactly when its lower-cased extension is in that slot's list |
| Upload.FilterCaseInsensitive | multimodal/routes/upload.js:25-29 | "base.x" is accepted for a slot exactly when ".x", lower-cased, is in its list |
| Upload.UpperCaseVideoAccepted | multimodal/routes/upload.js:20-29 | any name "base.MP4" is accepted as a video |
| Upload.WhitelistsDisjoint | multimodal/routes/upload.js:20-22 | no extension is listed for two slots |
| Upload.AcceptedNameDeterminesField | multimodal/routes/upload.js:20-28 | a name the filter accepts for two fields is accepted for one field only |
| Upload.AcceptedNamesDiffer | multimodal/routes/upload.js:20-28 | names accepted by two different slots are different names |
| Upload.FilteredNamesDistinct | multimodal/routes/upload.js:19-28 | files that passed the filter in different slots have different names, so their storage paths differ |
| Upload.IntakeAdmissible | multimodal/routes/upload.js:11-41 | every part of an accepted request is in a slot's field, no field is repeated, the filter accepted it, and it is at most 100 MiB |
| Upload.IntakeGivesFilteredFiles | multimodal/routes/upload.js:37-41 | after the middleware, each present slot holds a part of its own field that passed the filter and is at most 100 MiB |
| Upload.SlotHoldsAdmissiblePart | multimodal/routes/upload.js:37-41 | the part in a slot of an accepted request has that slot's field, passed the filter and is at most 100 MiB |
| Upload.FoundPartAdmissible | multimodal/routes/upload.js:37-41 | the part found for a field of an accepted request passed the filter and is at most 100 MiB |
| Upload.IntakeKeepsEveryPart | multimodal/routes/upload.js:37-41 | every part of an accepted request appears in `req.files` |
| Upload.PartInItsSlot | multimodal/routes/upload.js:37-41 | each part of an accepted request is the part in the slot of its field |
| Upload.FindUnique | multimodal/routes/upload.js:37-41 | when no field name repeats, the part found under a part's field is that part |
| Upload.Find | multimodal/routes/upload.js:37-41 | the part found for a field is one of the request's parts with that field, and no part is found only when none has it |
| Upload.TurnDir | multimodal/routes/upload.js:58 | the turn directory is the upload root followed by the user, session and turn ids, in that order |
| Upload.ClassifyError | multimodal/routes/upload.js:142-164 | a `LIMIT_FILE_SIZE` error is 413; a 400 comes only from a message containing "Invalid file type" and repeats it; the status is 400, 413 or 500 |
| Upload.ClassifyErrorStatus | multimodal/routes/upload.js:146-163 | 413 exactly for `LIMIT_FILE_SIZE`, checked first; 400 exactly for another error whose message contains "Invalid file type"; otherwise 500 "Upload failed" with the error's message |
| Upload.FilterRejectionClassified | multimodal/routes/upload.js:153-158 | the filter's own rejection would be answered with 400 and its message |
| Upload.StoreFile | multimodal/routes/upload.js:82-94 | one write block stores the part's bytes at `<dir>/<originalname>` and records its name, size and path |
| Upload.Artifacts | multimodal/routes/upload.js:82-124 | defines `uploaded_files` in insertion order video, audio, utterance; `ArtifactsMatchSlots` states its entries |
| Upload.StoreAll | multimodal/routes/upload.js:82-124 | defines the store after the three write blocks in order; `StoredAtPaths` and `StoreAllFrame` state what it holds |
| Upload.TotalSize | multimodal/routes/upload.js:137 | defines the size fold of `total_size`; `TotalSizeIsSum` states it |
| Upload.HandleUpload | multimodal/routes/upload.js:42-140 | without all three ids the answer is 400 and nothing changes; otherwise the turn directory is ensured. A non-multipart request then fails with 500 and no file is written. Otherwise each present part is written in the order video, audio, utterance, and the answer is 201 with the entries, their count and total size |
| Upload.ArtifactsMatchSlots | multimodal/routes/upload.js:82-124 | `uploaded_files` has one entry for each present slot and no other. Each entry's `filename` and `originalName` are the client's name, its `size` is the part's size and its `path` is `<dir>/<name>`. There are at most 3 entries |
| Upload.TotalSizeAppend | multimodal/routes/upload.js:137 | the size fold over two lists is the sum of their folds |
| Upload.TotalSizeIsSum | multimodal/routes/upload.js:137 | `total_size` is the sum of the sizes of the present parts, 0 when there are none |
| Upload.AcceptedRequestBounds | multimodal/routes/upload.js:136-137 | for an accepted request, `file_count` is at most 3 and `total_size` at most 300 MiB |
| Upload.StoredAtPaths | multimodal/routes/upload.js:82-124 | when the slots' names differ, each present slot's bytes end up at `<dir>/<originalname>`, whatever the path held before |
| Upload.StoreAllFrame | multimodal/routes/upload.js:82-124 | every path that is not a present slot's `<dir>/<originalname>` is left as it was |
| Upload.MimeTypeFitsRole | multimodal/routes/upload.js:64-79 | every whitelisted extension, in any case, maps to a MIME type string of its slot's kind |
| Upload.MimeType | multimodal/routes/upload.js:64-79 | defines getMimeType with the table lookup on the lower-cased key: a member of Object.prototype for such a name, the table's MIME type or "application/octet-stream" otherwise |
| Upload.PrototypeNamesUndotted | multimodal/routes/upload.js:78 | no name of Object.prototype is empty or starts with '.' |
| Upload.MimeTypeOfExtName | multimodal/routes/upload.js:64-79 | getMimeType of any `path.extname` result gives a string, never an inherited member |
| Upload.MimeTypeDefault | multimodal/routes/upload.js:64-79 | exactly the arguments that are in no list and do not name a member of Object.prototype map to "application/octet-stream" |
| Upload.MimeTypeIgnoresCase | multimodal/routes/upload.js:78 | the MIME type does not depend on the extension's case |
| UserMetadata.JsonFilter | multimodal/routes/user.js:17-24 | the JSON filter never throws, and it rejects only with "Only JSON files are allowed" |
| UserMetadata.JsonExtension | multimodal/routes/user.js:19 | "base.x" has the lower-cased extension ".json" exactly when x is "json" in any case |
| UserMetadata.JsonFilterByName | multimodal/routes/user.js:19-23 | a file "base.x" is accepted exactly when its type is "application/json" or x is "json" in any case |
| UserMetadata.UserIntakeBounds | multimodal/routes/user.js:11-28 | an accepted request has at most one file, in the field "metadata"; it passed the JSON filter and is at most 10 MiB |
| UserMetadata.NonJsonFileRefused | multimodal/routes/user.js:17-23 | a single non-JSON file is refused with the filter's error, which the catch block maps to 400 "Invalid file type" |
| UserMetadata.IntOrNull | multimodal/routes/user.js:65-68 | `v ? parseInt(v) : null` throws exactly when converting v throws; it is null exactly for a falsy v, and otherwise NaN or an integer |
| UserMetadata.InlineFieldsDistinct | multimodal/routes/user.js:62-69 | the five inline field names are pairwise different |
| UserMetadata.InlineProps | multimodal/routes/user.js:62-69 | the object literal has exactly the keys gender, age, occupation, gad7_result and phq9_result, in that order, none repeated |
| UserMetadata.InlineRecord | multimodal/routes/user.js:62-69 | building the inline record throws exactly when `parseInt` throws on age, gad7_result or phq9_result. Otherwise the record has exactly the keys gender, age, occupation, gad7_result and phq9_result, in that order |
| UserMetadata.Metadata | multimodal/routes/user.js:49-70 | defines the document the handler validates: the parsed file, "not JSON" for a file that does not parse, the inline record, or the error building it threw |
| UserMetadata.InlineReading | multimodal/routes/user.js:60-70 | without a file, reading the request throws exactly when `parseInt` throws on a numeric field, and otherwise gives the inline record |
| UserMetadata.FileTakesPrecedence | multimodal/routes/user.js:50-70 | when a file is sent, the metadata is its parse result, or "not JSON", whatever the inline fields say, and reading it never throws |
| UserMetadata.InlineField | multimodal/routes/user.js:65-68 | when the inline record is built, each checked field is `v ? parseInt(v) : null` of the body's field |
| UserMetadata.InlineTextFields | multimodal/routes/user.js:64-66 | when the inline record is built, its gender and occupation are the body's values when truthy and null otherwise |
| UserMetadata.InlineDigits | multimodal/routes/user.js:65-68 | an inline field holding a non-empty digit string is stored as the integer it spells |
| UserMetadata.NumberOutOfRange | multimodal/routes/user.js:140-150 | a finite number or NaN fails a check exactly when it is finite and outside [0, max] |
| UserMetadata.Property | multimodal/routes/user.js:140 | defines `data.f` for a readable document: an object's own property, `undefined` for any other value |
| UserMetadata.Flagged | multimodal/routes/user.js:140-150 | defines a field's check as holding without throwing; `ViolationReported` and `FieldCheckIff` state it |
| UserMetadata.FieldCheckIff | multimodal/routes/user.js:140-150 | a field's check throws exactly when converting the field throws, and otherwise holds exactly when the field is flagged |
| UserMetadata.OwnToStringThrows | multimodal/routes/user.js:140 | an object with an own "toString", alone or inside an array, cannot be converted: `parseInt` and the range check both throw on it |
| UserMetadata.IntOrNullConverts | multimodal/routes/user.js:65-68 | what `x ? parseInt(x) : null` gives, when it does not throw, is null or a number, so converting it to a primitive never throws |
| UserMetadata.InlineRecordConverts | multimodal/routes/user.js:62-79 | the built inline record holds only null or numbers, so validating it never throws |
| UserMetadata.InlineFlaggedIff | multimodal/routes/user.js:65-68 | an inline field is flagged exactly when its `parseInt` reading is an integer z with z < 0 or z > max |
| UserMetadata.InlineNonNumericPasses | multimodal/routes/user.js:65-68 | an inline field whose text starts with neither white space, a sign nor a digit, such as "abc", becomes NaN and is not reported |
| UserMetadata.ListedMembership | multimodal/routes/user.js:137-153 | of three different items, each is in the list of flagged items exactly when its flag is set |
| UserMetadata.ListedOrdered | multimodal/routes/user.js:137-153 | of three different items, none is listed twice and they keep their order |
| UserMetadata.ListedEmpty | multimodal/routes/user.js:137-153 | the list of flagged items is empty exactly when no flag is set |
| UserMetadata.MessagesDistinct | multimodal/routes/user.js:141-149 | the three messages are pairwise different |
| UserMetadata.Violations | multimodal/routes/user.js:137-153 | defines the pushed messages as those of the flagged fields in check order; `ViolationReported`, `ViolationsOrdered` and `NoViolations` state their meaning |
| UserMetadata.MessagesOrdered | multimodal/routes/user.js:137-153 | for i < j, the i-th pushed message belongs to a field checked before the j-th one's |
| UserMetadata.ViolationReported | multimodal/routes/user.js:137-153 | all three fields are checked, none stopping the others: a field's message is in the list exactly when that field is out of range |
| UserMetadata.ViolationInMessage | multimodal/routes/user.js:73-78 | the message of the 400 answer includes the message of every flagged field, so all violations are reported in one answer |
| UserMetadata.ViolationsOrdered | multimodal/routes/user.js:137-153 | the messages keep the order age, GAD-7, PHQ-9, so none occurs twice |
| UserMetadata.NoViolations | multimodal/routes/user.js:137-153 | the list is empty exactly when no field is out of range |
| UserMetadata.CheckField | multimodal/routes/user.js:140-150 | one `if (data.f && (…)) errors.push(…)` step: it throws exactly when converting the field throws, and otherwise pushes the field's message exactly when the field is flagged, keeping the earlier messages |
| UserMetadata.ValidateUserData | multimodal/routes/user.js:137-153 | the method throws exactly when the document is null or undefined, or when converting a checked field throws, with the matching TypeError message. Otherwise it returns the list of violations |
| UserMetadata.BoundsInclusive | multimodal/routes/user.js:140-150 | an integer is flagged exactly when it is below 0 or above the field's maximum, so 0 and the maximum pass |
| UserMetadata.FlaggedIff | multimodal/routes/user.js:140-150 | a falsy value passes unconverted; a value whose conversion throws makes the check throw; any other truthy value that reads as NaN is flagged |
| UserMetadata.DecimalString | multimodal/routes/user.js:88 | an array index's name is non-empty |
| UserMetadata.DecimalStringInjective | multimodal/routes/user.js:88 | different array indices have different names |
| UserMetadata.OwnPropsDistinct | multimodal/routes/user.js:88 | what a spread copies has no repeated key |
| UserMetadata.RecordLayering | multimodal/routes/user.js:86-90 | the stored record starts with "user_id", and the metadata's fields override the header's id. "created_at" holds the time of the request. Every other key holds the metadata's value, the keys are exactly those three sources', and none repeats |
| UserMetadata.FinalRecord | multimodal/routes/user.js:86-90 | defines `{ user_id, ...userMetadata, created_at }` as a spread onto `{ user_id }` followed by defining created_at; `RecordLayering` states its layering |
| UserMetadata.CreatedAtIsNow | multimodal/routes/user.js:89 | the record's `created_at` is the time of the request, whatever the metadata held |
| UserMetadata.ClassifyError | multimodal/routes/user.js:111-133 | 413 exactly for `LIMIT_FILE_SIZE`, checked first; 400 "Invalid file type" exactly for another error whose message contains "Only JSON files are allowed"; otherwise 500 "Failed to save user metadata" with the error's message |
| JsStrings.MissingCharNotIncluded | multimodal/routes/user.js:122 | a text lacking some character of the needle does not include it |
| UserMetadata.ServerErrorFor | multimodal/routes/user.js:122-132 | an error whose message has no 'J', and so cannot contain "Only JSON files are allowed", is answered with 500 and its message |
| UserMetadata.ThrownErrorsAre500 | multimodal/routes/user.js:111-133 | the two TypeErrors the handler's own code can throw are answered with 500 "Failed to save user metadata" and their message |
| UserMetadata.HandleUserMetadata | multimodal/routes/user.js:28-109 | a missing or empty user id gives 400. A file that does not parse gives 400 "Invalid JSON file". An error thrown while building the inline record or validating gives 500 with its message. A document with violations gives 400 with them joined by ", ". In all of these no directory or file is touched. Otherwise the user directory is ensured and the layered record is written to `<user>/<name>`: the uploaded file's name when it has one, "user_metadata.json" otherwise. The answer is then 201 with the path, the stored `created_at` and the source tag "file" or "json_data" |

## Left out

- I/O failure: `ensureDir` and `writeFile` always succeed in the model. A failed write would reach the catch blocks as a 500 with the error's message. Partial writes and concurrent requests for the same path are not modelled.
- Multipart parsing is abstract: a request is a sequence of parts with field name, original name, declared type and bytes.
  - The middleware skips a part with an empty file name; the model does not.
  - The middleware reduces a file name to its base name; the model does not.
  - It applies size limits while streaming; the model checks the size once per part.
- The middleware's errors actually reach the server's error handler, which is not part of this model. The route catch blocks are modelled as written, so the model makes no end-to-end status claim for filter, count or size errors. `multimodal/server.js` and `multimodal/config.js` are not part of this model, and the upload root is a parameter.
- `JSON.parse` and `JSON.stringify`: the parse result of the uploaded file is an input, and the store holds the record as a value rather than as text. Stringify's rendering of NaN as `null` and its indentation are therefore not modelled.
- The clock: `new Date().toISOString()` is an input, `now`.
- Numbers are exact reals, not doubles: rounding, `-0` and digit strings too long for a double are not modelled.
- `JsValues.ParseIntNumber`: for a number below 1e-6 in magnitude, `parseInt` reads the leading digit of its exponent notation. The model reads the first non-zero decimal digit. This is the same result apart from double rounding.
- `JsStrings.ToLower`: only A-Z are lower-cased. The extensions compared are all ASCII, so other characters never decide a comparison.
- Strings are sequences of code points, not UTF-16 units.
- Property reads of `req.body` fields see own properties only; inherited properties of the body object are not modelled.
- An `undefined` `req.body` is not modelled: the body parsers always set it to an object.
- `path.join`'s normalisation (`..`, `.`, repeated `/`) is not modelled. Ids and file names are single path segments used verbatim, as the code uses them without sanitising.
- Console logging and the unused header-case fallbacks (`req.headers['X-User-ID']` and the like) are not modelled, because Node lower-cases header names.
- `getMimeType` (modelled as `Upload.MimeType`) is defined in the handler but never called there; it is modelled on its own. An inherited member it returns is named, not modelled as a value.
- Put: a new key goes last in the model. JavaScript enumerates array-index keys ("0", "5", ...) first, in ascending order, and only then the other keys in creation order. The model does not capture that order for array-index keys.
- SpreadKeys: the statement that `base`'s keys come first and in order holds in the model only. In JavaScript an array-index key of `src` is enumerated before `base`'s other keys.
- RecordLayering: "user_id" is the first key only when the metadata has no array-index key. A metadata file `[1,2]` or `{"5":1}` puts "0" and "1", or "5", before "user_id" in the stored record, which the model does not capture. The values under each key are as stated.
- ConversionThrows: a property value is never a function, since it comes from `JSON.parse` or the form parser. So an own "toString" always makes the conversion throw, and a callable one is not modelled. The thrown message is V8's text; the model relies only on it not containing "Only JSON files are allowed".
