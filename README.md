# File management service: storage core in Dafny

This project models the storage core of a Spring Boot file management
service. Uploaded files go through a validator, their bytes go to a GridFS
bucket, and a metadata record is saved for each of them in a MongoDB
repository. A REST controller exposes upload, download, listing and
deletion. An exception handler turns every failure into an HTTP error
response.

The model is in these modules:

- `FileValidator` (FileValidator.dfy) is the pure validation chain. It checks, in this order, for a null file, an empty file, the size limit, an allowed MIME type, an allowed extension, and whether the MIME type matches the extension. The first failing check decides the rejection and its Portuguese message.
- `StorageConfig` (StorageConfig.dfy) holds the `storage.*` properties and their defaults. It also computes the byte limit `maxFileSizeMb * 1024 * 1024` in 64-bit `long` arithmetic, which wraps on overflow.
- `StorageState` (StorageState.dfy) describes the two stores as a value: a map from blob id to bytes and the sequence of metadata records. It defines what `store`, `delete` and `storeMultiple` do to them. The lemmas proved here are:
  - the invariant every operation keeps: fresh ids, and each record describes its own blob by size and checksum;
  - that a successful store adds exactly one blob and one record;
  - that a delete right after a store undoes it;
  - that the batch loop collects every StorageException and goes on, so a batch fails iff some store raised, and that it stops at any other exception.
- `StorageService.StorageServiceImpl` (StorageServiceImpl.dfy) is the service as a class. Its fields are the bucket, the records and the id counters. Its methods change these fields step by step, in the order the service does. Each method is proved to leave exactly the state the matching `StorageState` function describes. `storeMultiple` is a `for` loop whose invariant is that prefix function.
- `Exceptions` and `ExceptionHandler` (Exceptions.dfy, GlobalExceptionHandler.dfy) model two things. The first is the exception classes and their superclasses, which decide the handler: the one declared for the closest class. The second is the error response each handler builds, namely its status, label, message, path and sub-errors.
- `FileApi` (FileApiController.dfy) models the controller. It covers:
  - the `isViewable` rule and the `Content-Disposition` choice;
  - download, which looks the record up by name and then loads its blob;
  - the JSON replies of both upload endpoints;
  - a lemma mapping each service failure to the HTTP status the handler returns.

Several inputs become parameters. The outside world's behaviour during a store attempt is an `Env` value:
- the clock reading;
- whether opening the upload stream for the GridFS write throws an IOException, which `storeFile` turns into a StorageException before anything is written;
- whether the second read of the upload stream (for the checksum) throws;
- whether the repository save throws.

SHA-256 in lower-case hex is a function parameter of the service, `sha256Hex`. Blob ids and record ids are natural-number counters.

## Model

| member | source | states |
|---|---|---|
| Text.StartsWith | src/main/java/com/azvtech/file_management/controller/FileApiController.java:135-137 | `startsWith` holds iff the prefix is no longer than the string and equals its first characters |
| Text.LastIndexOf | src/main/java/com/azvtech/file_management/validation/FileValidator.java:59 | `lastIndexOf` is -1 iff the character is absent; otherwise the character is at that index and does not occur after it |
| Text.Show | src/main/java/com/azvtech/file_management/validation/FileValidator.java:53 | `String.valueOf`/`%s` of a nullable string: the string itself, or `"null"` |
| Text.Join | src/main/java/com/azvtech/file_management/storage/StorageServiceImpl.java:88 | `String.join`: empty for no parts, the part alone for one, and the parts separated by the separator |
| Text.LowerCase | src/main/java/com/azvtech/file_management/validation/FileValidator.java:64 | `toLowerCase` keeps the length |
| Text.LowerCaseAt | src/main/java/com/azvtech/file_management/validation/FileValidator.java:64 | each character of the lower-cased string is the lower-cased character at the same place |
| Text.NatToString | src/main/java/com/azvtech/file_management/controller/FileApiController.java:103 | `String.valueOf` of a count is a non-empty string of decimal digits with no leading zero (except for 0 itself) |
| Text.IntToString | src/main/java/com/azvtech/file_management/validation/FileValidator.java:45 | `String.valueOf` of a `long` is non-empty, starts with '-' iff the value is negative, and the digits after any sign read back as the value's magnitude |
| Text.ParseNatToString | src/main/java/com/azvtech/file_management/controller/FileApiController.java:103 | the decimal rendering of a count reads back as that count |
| StorageConfig.TruncDivTruncates | src/main/java/com/azvtech/file_management/validation/FileValidator.java:44-45 | Java's `long` division rounds toward zero: the remainder is smaller than the divisor in magnitude and has the dividend's sign, negative dividends included |
| StorageConfig.MaxFileSizeBytes | src/main/java/com/azvtech/file_management/storage/StorageServiceImpl.java:41-45 | the limit is `mb * 1048576` whenever that product fits in a `long` |
| StorageConfig.DefaultLimit | src/main/java/com/azvtech/file_management/config/StorageProperties.java:16-17 | the default of 50 MB gives a limit of 52,428,800 bytes |
| StorageConfig.HugeLimitWrapsToZero | src/main/java/com/azvtech/file_management/storage/StorageServiceImpl.java:44 | a configured 2^53 MB overflows `long` and yields a limit of 0 bytes |
| FileValidator.Extension | src/main/java/com/azvtech/file_management/validation/FileValidator.java:63-64 | the extension is shorter than the name it is taken from |
| FileValidator.ExtensionIsAfterLastIndexOf | src/main/java/com/azvtech/file_management/validation/FileValidator.java:63-64 | the extension is the lower-cased substring after `lastIndexOf('.')` |
| FileValidator.ExtensionExamples | src/main/java/com/azvtech/file_management/validation/FileValidator.java:76-77 | only the text after the last dot counts and case is folded (`a.b.JPG` gives `jpg`); a trailing dot gives the empty extension |
| FileValidator.IsMimeTypeMatchesExtension | src/main/java/com/azvtech/file_management/validation/FileValidator.java:85-94 | the type must equal the canonical type of a known extension (pdf, jpg, jpeg, png, gif, txt); an unknown extension matches any type |
| FileValidator.ValidateEmptyFile | src/main/java/com/azvtech/file_management/validation/FileValidator.java:35-39 | passes iff the file has at least one byte; otherwise EmptyFile |
| FileValidator.ValidateFileSize | src/main/java/com/azvtech/file_management/validation/FileValidator.java:41-47 | passes iff the size is at most the limit; otherwise TooLarge carrying the limit |
| FileValidator.ValidateContentType | src/main/java/com/azvtech/file_management/validation/FileValidator.java:49-55 | passes iff a content type is present and allowed; otherwise UnsupportedMimeType carrying the (possibly null) type |
| FileValidator.ValidateFileExtension | src/main/java/com/azvtech/file_management/validation/FileValidator.java:57-70 | passes iff the name exists, contains a dot and its extension is allowed; InvalidFilename without name or dot, DisallowedExtension otherwise |
| FileValidator.ValidateMimeTypeConsistency | src/main/java/com/azvtech/file_management/validation/FileValidator.java:72-83 | passes iff the declared type matches the extension; otherwise MimeExtensionMismatch |
| FileValidator.Validate | src/main/java/com/azvtech/file_management/validation/FileValidator.java:23-33 | validation passes iff the file meets every condition of the policy (`Acceptable`, which imposes no order) |
| FileValidator.ValidateReportsFirstFailure | src/main/java/com/azvtech/file_management/validation/FileValidator.java:23-33 | the reported rejection is the first failing check in the order null, empty, size, type, name, extension, consistency |
| FileValidator.SizeAtLimitPasses | src/main/java/com/azvtech/file_management/validation/FileValidator.java:42 | a file exactly at the limit is never refused as too large (the comparison is strict) |
| FileValidator.TooLargeMessageShowsConfiguredLimit | src/main/java/com/azvtech/file_management/validation/FileValidator.java:41-47 | the size rejection's message (one of the validator's seven messages) shows the configured limit in MB: for every configured value, negative ones included, whose byte count does not wrap, `maxFileSize / (1024 * 1024)` gives back the configured megabytes |
| Exceptions.Ancestry | src/main/java/com/azvtech/file_management/exception/StorageException.java:3-24 | each exception class is followed by its superclasses, nearest first, ending at `Exception` |
| StorageState.Message | src/main/java/com/azvtech/file_management/storage/StorageServiceImpl.java:52-106 | a failure has a modelled message iff it is raised as a StorageException |
| StorageState.ToException | src/main/java/com/azvtech/file_management/exception/StorageException.java:3-24 | a failure is thrown as a StorageException (subclass) iff it is a storage failure, and then carries its message; a missing file or blob is a StorageFileNotFoundException and only a duplicate is a DuplicateFileException; anything else is a plain exception |
| StorageState.FindRecord | src/main/java/com/azvtech/file_management/storage/StorageServiceImpl.java:104-107 | None iff no record has the name; otherwise a record with that name and no earlier record has it |
| StorageState.RemoveByIdMembers | src/main/java/com/azvtech/file_management/storage/StorageServiceImpl.java:121 | the repository's delete keeps exactly the records carrying another id |
| StorageState.RemoveByIdAt | src/main/java/com/azvtech/file_management/storage/StorageServiceImpl.java:121 | with unique ids, deleting a record's id removes that record only and keeps the others in order |
| StorageState.EmptyInvariant | src/main/java/com/azvtech/file_management/storage/StorageServiceImpl.java:36-49 | the empty stores satisfy the invariant |
| StorageState.Admission | src/main/java/com/azvtech/file_management/storage/StorageServiceImpl.java:53-57 | a file is admitted iff it validates and, when duplicates are refused, no record has its name. A null file is a NullPointerException only when duplicates are refused; a named file whose name is taken is a duplicate; every other refusal is the validator's own rejection |
| StorageState.StoreSpec | src/main/java/com/azvtech/file_management/storage/StorageServiceImpl.java:52-66 | a refused file leaves the stores unchanged and fails with exactly the admission's refusal. An admitted file succeeds iff the GridFS write, the checksum read and the save all succeed, and otherwise fails with the first of these to fail. A failure after the write leaves only the blob; a success adds the blob and the record |
| StorageState.StorePreservesInvariant | src/main/java/com/azvtech/file_management/storage/StorageServiceImpl.java:52-66 | storing keeps the invariant, whatever the outcome |
| StorageState.StoreSuccessAddsOneOfEach | src/main/java/com/azvtech/file_management/storage/StorageServiceImpl.java:131-142 | a successful store adds one blob under a fresh id and one record (the builder's `NewRecord`) holding the name, type, size, blob id and digest; earlier records are kept |
| StorageState.RetrieveAfterStore | src/main/java/com/azvtech/file_management/storage/StorageServiceImpl.java:104-107 | with duplicates refused, the stored file is found by its name, and its blob holds the uploaded bytes whose digest is the checksum |
| StorageState.DeleteSpec | src/main/java/com/azvtech/file_management/storage/StorageServiceImpl.java:115-123 | delete fails iff no record has the name, and then fails with NotFound and changes nothing |
| StorageState.DeleteAt | src/main/java/com/azvtech/file_management/storage/StorageServiceImpl.java:120-121 | removing position `i` shortens the records by one and shifts the later ones down |
| StorageState.DeleteSpecIsDeleteAt | src/main/java/com/azvtech/file_management/storage/StorageServiceImpl.java:117-121 | deleting a name removes the record found by name (at its position) and its blob |
| StorageState.DeleteAtPreservesInvariant | src/main/java/com/azvtech/file_management/storage/StorageServiceImpl.java:120-121 | removing one record and its blob keeps the invariant |
| StorageState.DeleteRemovesExactlyOne | src/main/java/com/azvtech/file_management/storage/StorageServiceImpl.java:115-123 | a delete removes exactly the found record and its blob; every remaining record still finds its own unchanged blob |
| StorageState.DeletePreservesInvariant | src/main/java/com/azvtech/file_management/storage/StorageServiceImpl.java:115-123 | deleting keeps the invariant |
| StorageState.DeleteLastRecord | src/main/java/com/azvtech/file_management/storage/StorageServiceImpl.java:115-123 | deleting the only record with a name, when it was appended last with its blob, restores the earlier records and blobs |
| StorageState.DeleteUndoesStore | src/main/java/com/azvtech/file_management/storage/StorageServiceImpl.java:115-123 | with duplicates refused, delete after a successful store restores both stores, and a second delete fails with NotFound |
| StorageState.Entries | src/main/java/com/azvtech/file_management/storage/StorageServiceImpl.java:83 | one entry per collected failure |
| StorageState.EntriesAt | src/main/java/com/azvtech/file_management/storage/StorageServiceImpl.java:83 | entry `i` is `Entry` of failure `i`: the file's name, `": "` and the exception's message, in the order the failures were collected |
| StorageState.BatchStep | src/main/java/com/azvtech/file_management/storage/StorageServiceImpl.java:77-85 | a file after an abort, or an empty file, changes nothing. Otherwise the stores are those `store` leaves. A success adds no error; a StorageException is appended as a failure and the loop goes on; any other exception ends the loop with the failures unchanged |
| StorageState.Finish | src/main/java/com/azvtech/file_management/storage/StorageServiceImpl.java:87-89 | the batch succeeds iff nothing aborted it and no failure was collected; an aborted batch rethrows the exception that ended the loop; otherwise it fails with the collected `"name: message"` entries |
| StorageState.StoreMultipleSpec | src/main/java/com/azvtech/file_management/storage/StorageServiceImpl.java:71-73 | a missing or empty batch fails with "No files sent." and changes nothing |
| StorageState.AbortIsFinal | src/main/java/com/azvtech/file_management/storage/StorageServiceImpl.java:77-85 | once a non-StorageException ends the loop, no later file is attempted |
| StorageState.CollectStep | src/main/java/com/azvtech/file_management/storage/StorageServiceImpl.java:77-85 | a pass that does not end the loop has collected an error iff one was collected before or this file's store raised |
| StorageState.CollectedIffRaised | src/main/java/com/azvtech/file_management/storage/StorageServiceImpl.java:77-85 | while the loop has not been ended, an error has been collected iff the store of some non-empty file raised |
| StorageState.BatchFailsIffSomeStoreRaised | src/main/java/com/azvtech/file_management/storage/StorageServiceImpl.java:77-89 | a batch that no other exception ends fails iff the store of some non-empty file raised, and then fails with the collected upload errors |
| StorageState.AdmittedFileStored | src/main/java/com/azvtech/file_management/storage/StorageServiceImpl.java:77-85 | an admitted file whose store meets no fault is saved with one blob and one record, and the loop goes on |
| StorageState.RefusedFileCollected | src/main/java/com/azvtech/file_management/storage/StorageServiceImpl.java:77-85 | a file refused with a StorageException is reported with that refusal, nothing is written, and the loop goes on |
| StorageState.SecondTooLargeExample | src/main/java/com/azvtech/file_management/storage/StorageServiceImpl.java:69-90 | of three PNG files under a 1-byte limit, with the second too large, the first and third are stored and the batch fails with the second's size error |
| StorageState.BatchPreservesInvariant | src/main/java/com/azvtech/file_management/storage/StorageServiceImpl.java:77-85 | every prefix of the batch keeps the invariant |
| StorageState.BatchErrorsBound | src/main/java/com/azvtech/file_management/storage/StorageServiceImpl.java:77-85 | at most one error entry per attempted (non-empty) file; with none attempted, nothing changes |
| StorageState.AllEmptyBatchSucceeds | src/main/java/com/azvtech/file_management/storage/StorageServiceImpl.java:79 | a batch of empty files succeeds and stores nothing |
| StorageService.StorageServiceImpl.constructor | src/main/java/com/azvtech/file_management/storage/StorageServiceImpl.java:36-49 | the validator takes the allowed sets and the limit from the properties; the stores start empty and valid |
| StorageService.StorageServiceImpl.LoadAsResource | src/main/java/com/azvtech/file_management/storage/StorageServiceImpl.java:92-100 | the blob's bytes, or StorageFileNotFound "Could not read file" when the read fails |
| StorageService.StorageServiceImpl.FindByOriginalName | src/main/java/com/azvtech/file_management/storage/StorageServiceImpl.java:102-107 | found iff some record has the name, and then a record with that name; otherwise NotFound with the name |
| StorageService.StorageServiceImpl.ExistsByOriginalName | src/main/java/com/azvtech/file_management/storage/StorageServiceImpl.java:125-129 | true iff some record carries the name |
| StorageService.StorageServiceImpl.LoadAllMetadata | src/main/java/com/azvtech/file_management/storage/StorageServiceImpl.java:109-113 | exactly the repository's records; under the invariant each names a blob with its size and checksum |
| StorageService.StorageServiceImpl.SaveFileMetadata | src/main/java/com/azvtech/file_management/storage/StorageServiceImpl.java:131-152 | appends the record with name, blob id, type, size, digest and time, unless the checksum read (StoreFailed) or the save throws, in which case the records are untouched |
| StorageService.StorageServiceImpl.Admit | src/main/java/com/azvtech/file_management/storage/StorageServiceImpl.java:53-57 | the refusal is exactly `Admission` of the current stores |
| StorageService.StorageServiceImpl.Store | src/main/java/com/azvtech/file_management/storage/StorageServiceImpl.java:51-66 | the new state and the outcome are those of `StoreSpec`; the invariant is kept |
| StorageService.StorageServiceImpl.StoreOne | src/main/java/com/azvtech/file_management/storage/StorageServiceImpl.java:77-85 | one loop pass moves the state from the batch prefix of `i` files to that of `i + 1` |
| StorageService.StorageServiceImpl.StoreEach | src/main/java/com/azvtech/file_management/storage/StorageServiceImpl.java:75-85 | the loop ends in the state of the whole-batch prefix, with its error entries |
| StorageService.StorageServiceImpl.StoreMultiple | src/main/java/com/azvtech/file_management/storage/StorageServiceImpl.java:69-90 | the new state and the outcome are those of `StoreMultipleSpec`; the invariant is kept |
| StorageService.StorageServiceImpl.Delete | src/main/java/com/azvtech/file_management/storage/StorageServiceImpl.java:115-123 | the new state and the outcome are those of `DeleteSpec`; the invariant is kept |
| ExceptionHandler.HandlerFor | src/main/java/com/azvtech/file_management/exception/handler/GlobalExceptionHandler.java:99-101 | `Exception` has a handler |
| ExceptionHandler.Nearest | src/main/java/com/azvtech/file_management/exception/handler/GlobalExceptionHandler.java:22-111 | a handler is found iff some class in the chain has one, and it is the handler of the first such class |
| ExceptionHandler.SelectHandler | src/main/java/com/azvtech/file_management/exception/handler/GlobalExceptionHandler.java:22-111 | every exception gets the handler of its closest handled class |
| ExceptionHandler.SelectHandlerByKind | src/main/java/com/azvtech/file_management/exception/handler/GlobalExceptionHandler.java:23-49 | not-found goes to its own handler ahead of the StorageException one; other StorageExceptions, each validation exception and everything else go to theirs |
| ExceptionHandler.ExceptionMessage | src/main/java/com/azvtech/file_management/exception/handler/GlobalExceptionHandler.java:123 | `getMessage()` of a StorageException is its message; of any other exception its (nullable) detail |
| ExceptionHandler.BuildErrorResponse | src/main/java/com/azvtech/file_management/exception/handler/GlobalExceptionHandler.java:113-128 | the body's status equals the response status; the body carries the label, the exception's message, the path and no sub-errors |
| ExceptionHandler.FieldSubErrors | src/main/java/com/azvtech/file_management/exception/handler/GlobalExceptionHandler.java:55-61 | one sub-error per field error, in order, copying field, default message and rejected value |
| ExceptionHandler.ViolationSubErrors | src/main/java/com/azvtech/file_management/exception/handler/GlobalExceptionHandler.java:79-85 | one sub-error per violation, in order, copying property path, message and invalid value |
| ExceptionHandler.ValidationResponse | src/main/java/com/azvtech/file_management/exception/handler/GlobalExceptionHandler.java:63-72 | 400 with the same status in the body, "Validation error", the message and the sub-errors |
| ExceptionHandler.Handle | src/main/java/com/azvtech/file_management/exception/handler/GlobalExceptionHandler.java:22-128 | every response carries its own status in the body and the request path |
| ExceptionHandler.HandleStorageException | src/main/java/com/azvtech/file_management/exception/handler/GlobalExceptionHandler.java:23-49 | not found is 404 "File not found", a duplicate 409 and any other StorageException 400, the last two labelled "Storage error"; the message is the exception's |
| ExceptionHandler.HandleOtherException | src/main/java/com/azvtech/file_management/exception/handler/GlobalExceptionHandler.java:99-111 | any other exception is 500 "Internal server error" with its own message |
| ExceptionHandler.HandleMethodArgumentNotValid | src/main/java/com/azvtech/file_management/exception/handler/GlobalExceptionHandler.java:51-73 | a field-validation failure is 400 "Invalid request content" with the field sub-errors |
| ExceptionHandler.HandleConstraintViolation | src/main/java/com/azvtech/file_management/exception/handler/GlobalExceptionHandler.java:75-97 | a constraint violation is 400 "Invalid request parameters" with the violation sub-errors |
| ExceptionHandler.InternalErrorOnlyForUnexpected | src/main/java/com/azvtech/file_management/exception/handler/GlobalExceptionHandler.java:99-111 | the status is 500 iff the exception is none of the handled families; sub-errors appear iff it is a validation exception |
| FileApi.ContentDisposition | src/main/java/com/azvtech/file_management/controller/FileApiController.java:58-61 | `inline` iff `view` is exactly true and the stored type is viewable; otherwise `attachment; filename="<name>"` |
| FileApi.BatchUploadReply | src/main/java/com/azvtech/file_management/controller/FileApiController.java:101-104 | the reply's count is a decimal string that reads back as the number of files, and the message starts with it |
| FileApi.ViewableTypes | src/main/java/com/azvtech/file_management/controller/FileApiController.java:133-139 | `IsViewable`: a null type is not viewable; images, text and `application/pdf` are |
| FileApi.NonViewableTypes | src/main/java/com/azvtech/file_management/controller/FileApiController.java:136 | `application/pdf` must match exactly (`application/pdf2` is not viewable), and other application types are not viewable |
| FileApi.DefaultMimeTypesViewable | src/main/java/com/azvtech/file_management/controller/FileApiController.java:133-139 | every MIME type allowed by default can be shown inline |
| FileApi.ErrorStatus | src/main/java/com/azvtech/file_management/exception/handler/GlobalExceptionHandler.java:23-111 | a service failure gets 404 iff it is a missing file or blob, 409 iff a duplicate, 500 iff it is not a StorageException, and 400 otherwise |
| FileApi.FileApiController.constructor | src/main/java/com/azvtech/file_management/controller/FileApiController.java:32-35 | the controller keeps the service it is given |
| FileApi.FileApiController.DownloadFile | src/main/java/com/azvtech/file_management/controller/FileApiController.java:50-64 | NotFound when no record has the name; when the blob read fails (or no blob is stored under the id) it fails with Unreadable of the record's blob id, the 404 "Could not read file"; a download carries the found record's disposition and type and its blob's bytes; under the invariant it succeeds iff the name exists and the read does not fail |
| FileApi.FileApiController.DownloadMatchesRecord | src/main/java/com/azvtech/file_management/controller/FileApiController.java:55-56 | a download has the size and checksum its record holds |
| FileApi.FileApiController.UploadFile | src/main/java/com/azvtech/file_management/controller/FileApiController.java:79-86 | the stores change as `store` says; on success the reply names the file, which has a name |
| FileApi.FileApiController.UploadMultipleFiles | src/main/java/com/azvtech/file_management/controller/FileApiController.java:97-105 | the stores change as `storeMultiple` says; on success the count is the number of files sent, empty ones included |
| FileApi.FileApiController.ListAllFiles | src/main/java/com/azvtech/file_management/controller/FileApiController.java:114-116 | exactly the records the service holds |
| FileApi.FileApiController.DeleteFile | src/main/java/com/azvtech/file_management/controller/FileApiController.java:126-131 | the stores change as `delete` says; the invariant is kept |

## Left out

- The model keeps these behaviours of the code:
  - a failure after the GridFS write (checksum read or repository save) leaves the blob in the bucket, because the service does no compensating cleanup;
  - `storeMultiple` catches only StorageException, so a repository failure ends the batch and is rethrown;
  - a blob whose stream cannot be read (an IOException) is reported as a StorageFileNotFoundException (404);
  - the validator throws plain StorageException, never `InvalidFileException`, so its rejections are 400.
- GridFS and MongoDB internals are not modelled:
  - ObjectId strings become natural-number counters;
  - how GridFS stores and streams bytes is not modelled;
  - an absent blob and a failing stream are both "unreadable".
- SHA-256 and hex encoding are not modelled: the digest is the `sha256Hex` parameter. The "Failed to calculate checksum" path needs a missing SHA-256 provider and is not modelled.
- Clocks, I/O failures and logging: upload times and the I/O failures of `store` come from `Env` parameters, and the blob read of a download takes a failure flag. Every other outside call is taken to succeed. Response timestamps and log lines are omitted.
- StorageState.DeleteSpec: the GridFS delete and the repository delete are taken to succeed, so `delete` fails only when no record has the name. If the repository delete threw after the blob delete, the record would stay without its blob and the invariant would no longer hold; DeletePreservesInvariant and the `Valid()` that Delete ensures rely on both deletes succeeding.
- StorageState.StoreSpec: a GridFS write failure is only the IOException from opening the upload stream, a StorageException raised before anything is written. Two other failures of `storeFile` are not modelled:
  - an IOException from closing the stream: it comes after `gridFsTemplate.store` has written the blob, so the same StorageException would leave the blob in the bucket;
  - an exception thrown by `gridFsTemplate.store` itself: it is not a StorageException, so it would be a 500 and would end a batch.
- StorageService.StorageServiceImpl.LoadAsResource: an id with no blob is reported as unreadable (a StorageFileNotFoundException) by choice of the model. In the code `findOne` returns null for it, and what `getResource(null)` then throws depends on the Spring Data library.
- `@Transactional` boundaries and concurrent requests are not modelled; operations run one at a time.
- StorageState.ToException: the messages of a NullPointerException and of the repository's own exceptions are not modelled; they are represented as null, so the 500 body's message for them is not modelled.
- StorageState.FindRecord: with duplicates allowed, the repository's derived query would fail on several matches; the model returns the earliest record instead.
- Text.LowerCase: `toLowerCase` is modelled for ASCII letters only; locale-specific and non-ASCII case mappings are not modelled.
- Request and property plumbing is not modelled:
  - `MediaType.parseMediaType` on a malformed stored type;
  - `Set.copyOf` rejecting null elements;
  - Spring's binding of the properties and of a missing request part.
- ExceptionHandler.ExceptionMessage: the messages Spring builds for the validation exceptions are not modelled, since no handler shows them.
- ExceptionHandler.ViolationSubErrors: constraint violations arrive as a set; the model takes them in the order they are iterated.
- Sizes and counters are unbounded naturals. Only the `long` limit computation is written with wrap-around.
- Out of scope: the filesystem-era controllers and tests, the application class, `WebMvcConfigurer` and the repository interface.
