/**
 * The storage service: validates uploads, writes their bytes to the GridFS
 * bucket and saves one metadata record per stored file. Each method changes
 * the two stores in the order the service does and is proved to leave them
 * as the matching function of StorageState.dfy says.
 */
module StorageService {
  import opened Wrappers
  import opened FileValidator
  import opened StorageConfig
  import opened StorageState

  class StorageServiceImpl {
    const allowDuplicateFiles: bool
    const fileValidator: Policy
    /** SHA-256 of the bytes in lower-case hex; not modelled further. */
    const sha256Hex: Bytes -> string

    /** The GridFS bucket: blob id to bytes. */
    var blobs: map<BlobId, Bytes>
    /** The metadata repository's records, in the order they were saved. */
    var records: seq<FileMetadata>
    var nextBlobId: nat
    var nextRecordId: nat

    function Config(): Settings
    {
      Settings(allowDuplicateFiles, fileValidator)
    }

    function State(): Stores
      reads this
    {
      Stores(blobs, records, nextBlobId, nextRecordId)
    }

    ghost predicate Valid()
      reads this
    {
      Invariant(Config(), sha256Hex, State())
    }

    /** Builds the validator from the properties, the limit being `maxFileSizeMb * 1024 * 1024`. */
    constructor (properties: StorageProperties, sha256Hex: Bytes -> string)
      ensures allowDuplicateFiles == properties.allowDuplicateFiles
      ensures fileValidator == Policy(properties.allowedMimeTypes, properties.allowedExtensions,
                                      MaxFileSizeBytes(properties.maxFileSizeMb))
      ensures this.sha256Hex == sha256Hex
      ensures blobs == map[] && records == []
      ensures Valid()
    {
      allowDuplicateFiles := properties.allowDuplicateFiles;
      fileValidator := Policy(properties.allowedMimeTypes, properties.allowedExtensions,
                              MaxFileSizeBytes(properties.maxFileSizeMb));
      this.sha256Hex := sha256Hex;
      blobs, records := map[], [];
      nextBlobId, nextRecordId := 0, 0;
    }

    /**
     * `loadAsResource(gridFsId)`: the blob's bytes; a read that fails is
     * reported as a StorageFileNotFoundException.
     */
    function LoadAsResource(gridFsId: BlobId, readFails: bool): (r: Result<Bytes, ServiceError>)
      reads this
      ensures r.Ok? <==> !readFails && gridFsId in blobs
      ensures r.Ok? ==> r.value == blobs[gridFsId]
      ensures r.Err? ==> r.error == Unreadable(gridFsId)
    {
      if readFails || gridFsId !in blobs then Err(Unreadable(gridFsId)) else Ok(blobs[gridFsId])
    }

    /** `findByOriginalName`: the record saved under that name, or NotFound. */
    function FindByOriginalName(originalName: string): (r: Result<FileMetadata, ServiceError>)
      reads this
      ensures r.Ok? <==> exists i :: 0 <= i < |records| && records[i].originalName == originalName
      ensures r.Ok? ==> r.value in records && r.value.originalName == originalName
      ensures r.Err? ==> r.error == NotFound(originalName)
    {
      match FindRecord(records, originalName)
      case Some(m) => Ok(m)
      case None => Err(NotFound(originalName))
    }

    /** `existsByOriginalName`: whether some record carries that name. */
    function ExistsByOriginalName(originalName: string): (r: bool)
      reads this
      ensures r <==> exists i :: 0 <= i < |records| && records[i].originalName == originalName
    {
      FindRecord(records, originalName).Some?
    }

    /** `loadAllMetadata`: every record; each describes a blob the bucket holds. */
    function LoadAllMetadata(): (r: seq<FileMetadata>)
      reads this
      ensures r == records
      ensures Valid() ==> forall m :: m in r ==>
        m.gridFsId in blobs && m.size == |blobs[m.gridFsId]| && m.checksum == sha256Hex(blobs[m.gridFsId])
    {
      records
    }

    /** `saveFileMetadata`: reads the bytes again for the checksum, builds the record and saves it. */
    method SaveFileMetadata(file: Upload, gridFsId: BlobId, env: Env) returns (r: Result<(), ServiceError>)
      requires file.originalFilename.Some? && file.contentType.Some?
      modifies this`records, this`nextRecordId
      ensures r.Ok? <==> !env.checksumReadFails && !env.metadataSaveFails
      ensures r.Ok? ==> r == Ok(())
      ensures r.Err? ==> r.error == (if env.checksumReadFails then StoreFailed else MetadataSaveFailed)
      ensures r.Err? ==> records == old(records) && nextRecordId == old(nextRecordId)
      ensures r.Ok? ==> nextRecordId == old(nextRecordId) + 1 && records == old(records) + [FileMetadata(
        old(nextRecordId), file.originalFilename.value, gridFsId, file.contentType.value,
        file.Size(), sha256Hex(file.content), env.now)]
    {
      if env.checksumReadFails {
        return Err(StoreFailed);
      }
      var metadata := FileMetadata(nextRecordId, file.originalFilename.value, gridFsId,
                                   file.contentType.value, file.Size(), sha256Hex(file.content), env.now);
      if env.metadataSaveFails {
        return Err(MetadataSaveFailed);
      }
      records := records + [metadata];
      nextRecordId := nextRecordId + 1;
      r := Ok(());
    }

    /**
     * The first half of `store(file)`: the duplicate check when duplicates are
     * refused, then the validator. Nothing is written.
     */
    method Admit(file: Option<Upload>) returns (refusal: Option<ServiceError>)
      ensures refusal == Admission(Config(), State(), file)
    {
      if !allowDuplicateFiles {
        if file.None? {
          return Some(NullFileAccess);
        }
        var name := file.value.originalFilename;
        if name.Some? && ExistsByOriginalName(name.value) {
          return Some(Duplicate(name.value));
        }
      }
      var verdict := Validate(fileValidator, file);
      if verdict.Fail? {
        return Some(Invalid(verdict.error));
      }
      refusal := None;
    }

    /** `store(file)`: admission, the GridFS write, then the metadata save. */
    method Store(file: Option<Upload>, env: Env) returns (r: Result<(), ServiceError>)
      requires Valid()
      modifies this
      ensures Valid()
      ensures Step(State(), r) == StoreSpec(Config(), sha256Hex, old(State()), file, env)
    {
      StorePreservesInvariant(Config(), sha256Hex, State(), file, env);
      var refusal := Admit(file);
      if refusal.Some? {
        return Err(refusal.value);
      }
      var f := file.value;
      if env.gridFsWriteFails {
        return Err(GridFsWriteFailed);
      }
      var gridFsId := nextBlobId;
      blobs := blobs[gridFsId := f.content];
      nextBlobId := nextBlobId + 1;
      r := SaveFileMetadata(f, gridFsId, env);
    }

    /**
     * One pass of the `storeMultiple` loop, on file `i`: an empty file is
     * skipped, any other is stored; a StorageException becomes an error
     * entry, any other failure stops the loop.
     */
    method StoreOne(ghost s0: Stores, fs: seq<Upload>, envs: nat -> Env, i: nat,
                    errors: seq<string>, ghost failures: seq<Failure>)
      returns (errorsAfter: seq<string>, ghost failuresAfter: seq<Failure>, abort: Option<ServiceError>)
      requires i < |fs| && Valid()
      requires BatchPrefix(Config(), sha256Hex, s0, fs, envs, i) == Batch(State(), failures, None)
      requires errors == Entries(failures)
      modifies this
      ensures Valid()
      ensures BatchPrefix(Config(), sha256Hex, s0, fs, envs, i + 1) == Batch(State(), failuresAfter, abort)
      ensures errorsAfter == Entries(failuresAfter)
    {
      errorsAfter, failuresAfter, abort := errors, failures, None;
      var f := fs[i];
      if !f.IsEmpty() {
        var outcome := Store(Some(f), envs(i));
        if outcome.Err? {
          if IsStorageFailure(outcome.error) {
            errorsAfter := errors + [Entry(f, outcome.error)];
            failuresAfter := failures + [Failure(f, outcome.error)];
            assert failuresAfter[..|failures|] == failures;
          } else {
            abort := Some(outcome.error);
          }
        }
      }
    }

    /**
     * The loop of `storeMultiple` over a non-empty batch: it stops at the
     * first exception that is not a StorageException and otherwise goes
     * through every file.
     */
    method StoreEach(fs: seq<Upload>, envs: nat -> Env)
      returns (errors: seq<string>, ghost failures: seq<Failure>, abort: Option<ServiceError>)
      requires Valid()
      modifies this
      ensures Valid()
      ensures BatchPrefix(Config(), sha256Hex, old(State()), fs, envs, |fs|) == Batch(State(), failures, abort)
      ensures errors == Entries(failures)
    {
      ghost var s0 := State();
      errors, failures, abort := [], [], None;
      for i := 0 to |fs|
        invariant Valid()
        invariant BatchPrefix(Config(), sha256Hex, s0, fs, envs, i) == Batch(State(), failures, None)
        invariant errors == Entries(failures) && abort.None?
      {
        errors, failures, abort := StoreOne(s0, fs, envs, i, errors, failures);
        if abort.Some? {
          AbortIsFinal(Config(), sha256Hex, s0, fs, envs, i + 1, |fs|);
          return;
        }
      }
    }

    /** `storeMultiple(files)`: every non-empty file is stored; StorageExceptions are collected. */
    method StoreMultiple(files: Option<seq<Upload>>, envs: nat -> Env) returns (r: Result<(), ServiceError>)
      requires Valid()
      modifies this
      ensures Valid()
      ensures Step(State(), r) == StoreMultipleSpec(Config(), sha256Hex, old(State()), files, envs)
    {
      if files.None? || |files.value| == 0 {
        return Err(NoFilesSent);
      }
      var errors, failures, abort := StoreEach(files.value, envs);
      if abort.Some? {
        return Err(abort.value);
      }
      if errors != [] {
        return Err(UploadErrors(errors));
      }
      r := Ok(());
    }

    /** `delete(originalName)`: look the record up, delete its blob, then delete the record. */
    method Delete(originalName: string) returns (r: Result<(), ServiceError>)
      requires Valid()
      modifies this
      ensures Valid()
      ensures Step(State(), r) == DeleteSpec(old(State()), originalName)
    {
      DeletePreservesInvariant(Config(), sha256Hex, State(), originalName);
      var found := FindByOriginalName(originalName);
      if found.Err? {
        return Err(found.error);
      }
      var metadata := found.value;
      blobs := blobs - {metadata.gridFsId};
      records := RemoveById(records, metadata.id);
      r := Ok(());
    }
  }
}
