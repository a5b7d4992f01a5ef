/**
 * The two stores the storage service keeps (the GridFS blob bucket and the
 * metadata repository) as a value, and what each service operation does to
 * them. The service class in StorageServiceImpl.dfy is proved against these
 * functions; the properties of the operations are proved here.
 */
module StorageState {
  import opened Wrappers
  import opened Text
  import opened FileValidator
  import Exceptions

  /** The id GridFS assigns to a stored blob. */
  type BlobId = nat

  /** The id the repository assigns to a saved metadata record. */
  type RecordId = nat

  /** The metadata record saved for every stored file. */
  datatype FileMetadata = FileMetadata(
    id: RecordId,
    originalName: string,
    gridFsId: BlobId,
    contentType: string,
    size: nat,
    checksum: string,
    uploadDate: int)

  /**
   * The blob bucket (id to bytes), the metadata records in the order they
   * were saved, and the next id each store hands out.
   */
  datatype Stores = Stores(
    blobs: map<BlobId, Bytes>,
    records: seq<FileMetadata>,
    nextBlobId: nat,
    nextRecordId: nat)

  /**
   * What the world does during one store attempt: the clock reading, and
   * whether opening the upload stream for the GridFS write raises an IOException,
   * the second read of the stream (for the checksum) throws, or the
   * repository save throws.
   */
  datatype Env = Env(now: int, gridFsWriteFails: bool, checksumReadFails: bool, metadataSaveFails: bool)

  /** The service's fixed configuration: the duplicate policy and the validator. */
  datatype Settings = Settings(allowDuplicateFiles: bool, validator: Policy)

  /** Every way a service operation can end abnormally. */
  datatype ServiceError =
    | NullFileAccess               // NullPointerException: the file itself is null
    | Duplicate(name: string)      // DuplicateFileException
    | Invalid(reason: Rejection)   // StorageException thrown by the validator
    | GridFsWriteFailed            // StorageException wrapping the IOException of opening the upload stream
    | StoreFailed                  // StorageException wrapping the checksum read's IOException
    | MetadataSaveFailed           // the repository's own runtime exception
    | NoFilesSent                  // StorageException: null or empty batch
    | UploadErrors(entries: seq<string>)  // StorageException summarising a batch
    | NotFound(name: string)       // StorageFileNotFoundException from a lookup by name
    | Unreadable(gridFsId: BlobId) // StorageFileNotFoundException from reading a blob

  /** The result of an operation together with the stores it leaves behind. */
  datatype Step = Step(stores: Stores, result: Result<(), ServiceError>)

  /** Whether the failure is thrown as a StorageException (as opposed to some other exception). */
  predicate IsStorageFailure(e: ServiceError)
  {
    !(e.NullFileAccess? || e.MetadataSaveFailed?)
  }

  /** `getMessage()` of the thrown exception; messages of exceptions raised outside the core are not modelled. */
  function Message(e: ServiceError): (r: Option<string>)
    ensures r.Some? <==> IsStorageFailure(e)
  {
    match e
    case NullFileAccess => None
    case Duplicate(name) => Some("A file with name '" + name + "' already exists")
    case Invalid(reason) => Some(FileValidator.Message(reason))
    case GridFsWriteFailed => Some("Failed to store file in GridFS")
    case StoreFailed => Some("Failed to store file")
    case MetadataSaveFailed => None
    case NoFilesSent => Some("No files sent.")
    case UploadErrors(entries) => Some("Upload errors: " + Join("; ", entries))
    case NotFound(name) => Some("File not found: " + name)
    case Unreadable(gridFsId) => Some("Could not read file: " + NatToString(gridFsId))
  }

  /** The exception each failure is thrown as. */
  function ToException<V>(e: ServiceError): (ex: Exceptions.JavaException<V>)
    ensures Exceptions.IsStorageException(ex) <==> IsStorageFailure(e)
    ensures ex.StorageEx? ==> Some(ex.message) == Message(e)
    ensures ex.StorageEx? <==> IsStorageFailure(e)
    ensures !ex.StorageEx? ==> ex == Exceptions.OtherEx(None)
    ensures ex.StorageEx? ==> (&& (ex.kind == Exceptions.FileNotFound <==> e.NotFound? || e.Unreadable?)
                              && (ex.kind == Exceptions.DuplicateFile <==> e.Duplicate?)
                              && ex.kind != Exceptions.InvalidFile)
  {
    match e
    case NullFileAccess => Exceptions.OtherEx(None)
    case Duplicate(_) => Exceptions.StorageEx(Exceptions.DuplicateFile, Message(e).value)
    case NotFound(_) => Exceptions.StorageEx(Exceptions.FileNotFound, Message(e).value)
    case Unreadable(_) => Exceptions.StorageEx(Exceptions.FileNotFound, Message(e).value)
    case MetadataSaveFailed => Exceptions.OtherEx(None)
    case _ => Exceptions.StorageEx(Exceptions.PlainStorage, Message(e).value)
  }

  /** The batch error entry for one failed file: `"name: message"`. */
  function Entry(f: Upload, e: ServiceError): string
  {
    Show(f.originalFilename) + ": " + Show(Message(e))
  }

  /** The repository's `findByOriginalName`: the earliest saved record with that name, if any. */
  function FindRecord(rs: seq<FileMetadata>, name: string): (r: Option<FileMetadata>)
    ensures r.None? <==> forall i :: 0 <= i < |rs| ==> rs[i].originalName != name
    ensures r.Some? ==> r.value.originalName == name
    ensures r.Some? ==> exists i :: (0 <= i < |rs| && rs[i] == r.value
                                     && forall j :: 0 <= j < i ==> rs[j].originalName != name)
  {
    if rs == [] then None
    else if rs[0].originalName == name then Some(rs[0])
    else
      var r := FindRecord(rs[1..], name);
      if r.Some? then
        var i :| 0 <= i < |rs[1..]| && rs[1..][i] == r.value
          && forall j :: 0 <= j < i ==> rs[1..][j].originalName != name;
        assert rs[i + 1] == r.value;
        r
      else r
  }

  /** The repository's `delete(entity)`: removes the records carrying that id. */
  function RemoveById(rs: seq<FileMetadata>, id: RecordId): (r: seq<FileMetadata>)
    ensures |r| <= |rs|
  {
    if rs == [] then []
    else (if rs[0].id == id then [] else [rs[0]]) + RemoveById(rs[1..], id)
  }

  /** Deleting an id keeps exactly the records that carry another id. */
  lemma {:induction false} RemoveByIdMembers(rs: seq<FileMetadata>, id: RecordId)
    ensures forall m :: m in RemoveById(rs, id) <==> m in rs && m.id != id
  {
    if rs != [] {
      RemoveByIdMembers(rs[1..], id);
      assert rs == [rs[0]] + rs[1..];
    }
  }

  /** No two records share an id. */
  predicate UniqueIds(rs: seq<FileMetadata>)
  {
    forall i, j :: 0 <= i < j < |rs| ==> rs[i].id != rs[j].id
  }

  /** With unique ids, deleting a record's id removes exactly that record, in place. */
  lemma {:induction false} RemoveByIdAt(rs: seq<FileMetadata>, i: nat)
    requires i < |rs| && UniqueIds(rs)
    ensures RemoveById(rs, rs[i].id) == rs[..i] + rs[i + 1..]
  {
    if i == 0 {
      RemoveByIdHead(rs);
    } else {
      var tail := rs[1..];
      assert tail[i - 1] == rs[i];
      UniqueIdsTail(rs);
      RemoveByIdAt(tail, i - 1);
      assert rs[0].id != rs[i].id;
      assert RemoveById(rs, rs[i].id) == [rs[0]] + RemoveById(tail, rs[i].id);
      assert rs[..i] == [rs[0]] + tail[..i - 1];
      assert rs[i + 1..] == tail[i..];
    }
  }

  /** With unique ids, deleting the first record's id leaves the rest as it was. */
  lemma RemoveByIdHead(rs: seq<FileMetadata>)
    requires 0 < |rs| && UniqueIds(rs)
    ensures RemoveById(rs, rs[0].id) == rs[1..]
  {
    var id := rs[0].id;
    forall m | m in rs[1..]
      ensures m.id != id
    {
      var k :| 0 <= k < |rs[1..]| && rs[1..][k] == m;
      assert rs[k + 1] == m;
    }
    RemoveAbsent(rs[1..], id);
  }

  /** Unique ids stay unique without the first record. */
  lemma UniqueIdsTail(rs: seq<FileMetadata>)
    requires 0 < |rs| && UniqueIds(rs)
    ensures UniqueIds(rs[1..])
  {
    var tail := rs[1..];
    forall j, k | 0 <= j < k < |tail|
      ensures tail[j].id != tail[k].id
    {
      assert tail[j] == rs[j + 1] && tail[k] == rs[k + 1];
    }
  }

  /** Deleting an id no record carries changes nothing. */
  lemma {:induction false} RemoveAbsent(rs: seq<FileMetadata>, id: RecordId)
    requires forall m :: m in rs ==> m.id != id
    ensures RemoveById(rs, id) == rs
  {
    if rs != [] {
      RemoveAbsent(rs[1..], id);
      assert rs == [rs[0]] + rs[1..];
    }
  }

  /** Record `m` describes a blob held in the stores: its size and checksum are those of the blob. */
  predicate Describes(digest: Bytes -> string, s: Stores, m: FileMetadata)
  {
    && m.id < s.nextRecordId
    && m.gridFsId in s.blobs
    && m.size == |s.blobs[m.gridFsId]|
    && m.checksum == digest(s.blobs[m.gridFsId])
  }

  /**
   * What the service keeps true of its stores: ids handed out are fresh,
   * every record describes its own blob (no two records share one), and
   * names are unique while duplicates are refused. Blobs nobody refers to
   * are allowed.
   */
  predicate Invariant(cfg: Settings, digest: Bytes -> string, s: Stores)
  {
    && (forall b :: b in s.blobs ==> b < s.nextBlobId)
    && (forall i :: 0 <= i < |s.records| ==> Describes(digest, s, s.records[i]))
    && UniqueIds(s.records)
    && (forall i, j :: 0 <= i < j < |s.records| ==> s.records[i].gridFsId != s.records[j].gridFsId)
    && (!cfg.allowDuplicateFiles ==>
          forall i, j :: 0 <= i < j < |s.records| ==> s.records[i].originalName != s.records[j].originalName)
  }

  /** The empty stores the service starts from satisfy the invariant. */
  lemma EmptyInvariant(cfg: Settings, digest: Bytes -> string)
    ensures Invariant(cfg, digest, Stores(map[], [], 0, 0))
  {
  }

  /** The record a successful store saves. */
  function NewRecord(digest: Bytes -> string, s: Stores, f: Upload, env: Env): FileMetadata
    requires f.originalFilename.Some? && f.contentType.Some?
  {
    FileMetadata(s.nextRecordId, f.originalFilename.value, s.nextBlobId, f.contentType.value,
                 f.Size(), digest(f.content), env.now)
  }

  /** The failures that happen before anything is written. */
  predicate IsPreflight(e: ServiceError)
  {
    e.NullFileAccess? || e.Duplicate? || e.Invalid? || e.GridFsWriteFailed?
  }

  /**
   * The checks `store(file)` makes before it writes anything: the duplicate
   * check when duplicates are refused (which dereferences the file), then
   * validation. None means the file is admitted.
   */
  function Admission(cfg: Settings, s: Stores, file: Option<Upload>): (r: Option<ServiceError>)
    ensures r.None? <==> (Validate(cfg.validator, file).Pass?
      && (!cfg.allowDuplicateFiles ==> FindRecord(s.records, file.value.originalFilename.value).None?))
    ensures r.None? ==> file.Some? && file.value.originalFilename.Some? && file.value.contentType.Some?
    ensures r.Some? ==> r.value.NullFileAccess? || r.value.Duplicate? || r.value.Invalid?
    ensures !cfg.allowDuplicateFiles && file.None? ==> r == Some(NullFileAccess)
    ensures !cfg.allowDuplicateFiles && file.Some? && file.value.originalFilename.Some?
      && FindRecord(s.records, file.value.originalFilename.value).Some?
      ==> r == Some(Duplicate(file.value.originalFilename.value))
    ensures r.Some? && r.value.Invalid? ==> Validate(cfg.validator, file) == Fail(r.value.reason)
    ensures (cfg.allowDuplicateFiles || (file.Some? && (file.value.originalFilename.None?
               || FindRecord(s.records, file.value.originalFilename.value).None?)))
      && Validate(cfg.validator, file).Fail?
      ==> r == Some(Invalid(Validate(cfg.validator, file).error))
  {
    if !cfg.allowDuplicateFiles && file.None? then
      Some(NullFileAccess)
    else if !cfg.allowDuplicateFiles && file.value.originalFilename.Some?
            && FindRecord(s.records, file.value.originalFilename.value).Some? then
      Some(Duplicate(file.value.originalFilename.value))
    else
      match Validate(cfg.validator, file)
      case Fail(why) => Some(Invalid(why))
      case Pass => None
  }

  /**
   * `store(file)`: admission, then the GridFS write, then the checksum and
   * the metadata save. A failure after the write leaves the blob behind.
   */
  function StoreSpec(cfg: Settings, digest: Bytes -> string, s: Stores, file: Option<Upload>, env: Env): (r: Step)
    ensures r.result.Err? && IsPreflight(r.result.error) ==> r.stores == s
    ensures !cfg.allowDuplicateFiles && file.Some? && file.value.originalFilename.Some?
      && FindRecord(s.records, file.value.originalFilename.value).Some?
      ==> r == Step(s, Err(Duplicate(file.value.originalFilename.value)))
    ensures r.result.Err? && r.result.error.Invalid? ==> Validate(cfg.validator, file) == Fail(r.result.error.reason)
    ensures r.result.Err? && (r.result.error.StoreFailed? || r.result.error.MetadataSaveFailed?) ==>
      file.Some? && r.stores.records == s.records && r.stores.blobs == s.blobs[s.nextBlobId := file.value.content]
    ensures r.result.Ok? ==>
      && Validate(cfg.validator, file).Pass?
      && r.stores.blobs == s.blobs[s.nextBlobId := file.value.content]
      && r.stores.records == s.records + [NewRecord(digest, s, file.value, env)]
    ensures Admission(cfg, s, file).Some? ==> r == Step(s, Err(Admission(cfg, s, file).value))
    ensures Admission(cfg, s, file).None? ==>
      (r.result.Ok? <==> !env.gridFsWriteFails && !env.checksumReadFails && !env.metadataSaveFails)
    ensures Admission(cfg, s, file).None? && r.result.Err? ==>
      r.result.error == (if env.gridFsWriteFails then GridFsWriteFailed
                         else if env.checksumReadFails then StoreFailed else MetadataSaveFailed)
  {
    match Admission(cfg, s, file)
    case Some(refusal) => Step(s, Err(refusal))
    case None =>
      var f := file.value;
      if env.gridFsWriteFails then Step(s, Err(GridFsWriteFailed))
      else
        var written := s.(blobs := s.blobs[s.nextBlobId := f.content], nextBlobId := s.nextBlobId + 1);
        if env.checksumReadFails then Step(written, Err(StoreFailed))
        else if env.metadataSaveFails then Step(written, Err(MetadataSaveFailed))
        else
          Step(written.(records := s.records + [NewRecord(digest, s, f, env)], nextRecordId := s.nextRecordId + 1), Ok(()))
  }

  /** Storing keeps the invariant, whatever the outcome. */
  lemma StorePreservesInvariant(cfg: Settings, digest: Bytes -> string, s: Stores, file: Option<Upload>, env: Env)
    requires Invariant(cfg, digest, s)
    ensures Invariant(cfg, digest, StoreSpec(cfg, digest, s, file, env).stores)
  {
    var r := StoreSpec(cfg, digest, s, file, env);
    if r.stores != s {
      var t := r.stores;
      assert s.nextBlobId !in s.blobs;
      forall i | 0 <= i < |s.records|
        ensures Describes(digest, t, s.records[i])
      {
        assert s.records[i].gridFsId in s.blobs;
      }
      if r.result.Ok? {
        var m := NewRecord(digest, s, file.value, env);
        assert t.records == s.records + [m];
        forall i | 0 <= i < |t.records|
          ensures Describes(digest, t, t.records[i])
        {
          if i < |s.records| { assert t.records[i] == s.records[i]; }
        }
        forall i, j | 0 <= i < j < |t.records|
          ensures t.records[i].id != t.records[j].id && t.records[i].gridFsId != t.records[j].gridFsId
        {
          assert t.records[i] == s.records[i];
          assert Describes(digest, s, s.records[i]);
          if j < |s.records| { assert t.records[j] == s.records[j]; }
        }
        if !cfg.allowDuplicateFiles {
          forall i, j | 0 <= i < j < |t.records|
            ensures t.records[i].originalName != t.records[j].originalName
          {
            assert t.records[i] == s.records[i];
            if j < |s.records| { assert t.records[j] == s.records[j]; }
          }
        }
      }
    }
  }

  /**
   * A successful store adds exactly one blob, under a fresh id, and exactly
   * one record; the record names the file, its type, its size, the new blob
   * and the digest of the bytes, and every earlier record is kept.
   */
  lemma StoreSuccessAddsOneOfEach(cfg: Settings, digest: Bytes -> string, s: Stores, file: Option<Upload>, env: Env)
    requires Invariant(cfg, digest, s)
    requires StoreSpec(cfg, digest, s, file, env).result.Ok?
    ensures var t := StoreSpec(cfg, digest, s, file, env).stores;
      && file.Some?
      && var f := file.value;
      && s.nextBlobId !in s.blobs
      && t.blobs.Keys == s.blobs.Keys + {s.nextBlobId}
      && |t.blobs| == |s.blobs| + 1
      && t.blobs[s.nextBlobId] == f.content
      && |t.records| == |s.records| + 1
      && t.records[..|s.records|] == s.records
      && var m := t.records[|s.records|];
      && Some(m.originalName) == f.originalFilename
      && Some(m.contentType) == f.contentType
      && m.size == f.Size()
      && m.gridFsId == s.nextBlobId
      && m.checksum == digest(f.content)
  {
    var t := StoreSpec(cfg, digest, s, file, env).stores;
    assert s.nextBlobId !in s.blobs;
    assert t.records[..|s.records|] == s.records;
  }

  /**
   * With duplicates refused, the file just stored is the one found under its
   * name, and the blob it points to holds the uploaded bytes, whose digest is
   * the recorded checksum.
   */
  lemma RetrieveAfterStore(cfg: Settings, digest: Bytes -> string, s: Stores, file: Option<Upload>, env: Env)
    requires Invariant(cfg, digest, s) && !cfg.allowDuplicateFiles
    requires StoreSpec(cfg, digest, s, file, env).result.Ok?
    ensures var t := StoreSpec(cfg, digest, s, file, env).stores;
      && file.Some? && file.value.originalFilename.Some?
      && var found := FindRecord(t.records, file.value.originalFilename.value);
      && found.Some?
      && found.value.gridFsId in t.blobs
      && t.blobs[found.value.gridFsId] == file.value.content
      && found.value.checksum == digest(file.value.content)
  {
    var t := StoreSpec(cfg, digest, s, file, env).stores;
    var name := file.value.originalFilename.value;
    var n := |s.records|;
    assert t.records[n].originalName == name;
    assert forall j :: 0 <= j < n ==> t.records[j] == s.records[j];
    assert FindRecord(t.records, name).value == t.records[n];
  }

  /** `delete(originalName)`: find the record, delete its blob, then delete the record. */
  function DeleteSpec(s: Stores, originalName: string): (r: Step)
    ensures r.result.Err? <==> FindRecord(s.records, originalName).None?
    ensures r.result.Err? ==> r == Step(s, Err(NotFound(originalName)))
  {
    match FindRecord(s.records, originalName)
    case None => Step(s, Err(NotFound(originalName)))
    case Some(m) =>
      Step(s.(blobs := s.blobs - {m.gridFsId}, records := RemoveById(s.records, m.id)), Ok(()))
  }

  /** The stores after the record at position `i` and its blob are deleted. */
  function DeleteAt(s: Stores, i: nat): (t: Stores)
    requires i < |s.records|
    ensures |t.records| == |s.records| - 1
    ensures forall k :: 0 <= k < |t.records| ==> t.records[k] == s.records[if k < i then k else k + 1]
  {
    s.(blobs := s.blobs - {s.records[i].gridFsId}, records := s.records[..i] + s.records[i + 1..])
  }

  /** Deleting a name deletes the earliest record with that name and its blob. */
  lemma DeleteSpecIsDeleteAt(s: Stores, originalName: string) returns (i: nat)
    requires UniqueIds(s.records)
    requires FindRecord(s.records, originalName).Some?
    ensures i < |s.records| && s.records[i] == FindRecord(s.records, originalName).value
    ensures DeleteSpec(s, originalName) == Step(DeleteAt(s, i), Ok(()))
  {
    var m := FindRecord(s.records, originalName).value;
    i :| 0 <= i < |s.records| && s.records[i] == m
      && forall j :: 0 <= j < i ==> s.records[j].originalName != originalName;
    RemoveByIdAt(s.records, i);
  }

  /** Removing one record and its blob keeps the invariant. */
  lemma DeleteAtPreservesInvariant(cfg: Settings, digest: Bytes -> string, s: Stores, i: nat)
    requires Invariant(cfg, digest, s) && i < |s.records|
    ensures Invariant(cfg, digest, DeleteAt(s, i))
  {
    var t := DeleteAt(s, i);
    var rs := s.records;
    forall k | 0 <= k < |t.records|
      ensures Describes(digest, t, t.records[k])
    {
      var o := if k < i then k else k + 1;
      assert Describes(digest, s, rs[o]);
      assert rs[o].gridFsId != rs[i].gridFsId;
    }
    forall a, b | 0 <= a < b < |t.records|
      ensures t.records[a].id != t.records[b].id
    {
      var oa, ob := if a < i then a else a + 1, if b < i then b else b + 1;
      assert oa < ob;
    }
    forall a, b | 0 <= a < b < |t.records|
      ensures t.records[a].gridFsId != t.records[b].gridFsId
    {
      var oa, ob := if a < i then a else a + 1, if b < i then b else b + 1;
      assert oa < ob;
    }
    if !cfg.allowDuplicateFiles {
      forall a, b | 0 <= a < b < |t.records|
        ensures t.records[a].originalName != t.records[b].originalName
      {
        var oa, ob := if a < i then a else a + 1, if b < i then b else b + 1;
        assert oa < ob;
      }
    }
  }

  /**
   * Deleting a known name removes the blob that name's record points to and
   * that record, keeps every other record in its place, and keeps every blob
   * another record points to.
   */
  lemma DeleteRemovesExactlyOne(cfg: Settings, digest: Bytes -> string, s: Stores, originalName: string)
    requires Invariant(cfg, digest, s)
    requires FindRecord(s.records, originalName).Some?
    ensures var m := FindRecord(s.records, originalName).value;
      var t := DeleteSpec(s, originalName).stores;
      && (exists i :: 0 <= i < |s.records| && s.records[i] == m && t.records == s.records[..i] + s.records[i + 1..])
      && |t.records| == |s.records| - 1
      && t.blobs == s.blobs - {m.gridFsId}
      && forall r :: r in t.records ==> r.gridFsId in t.blobs && t.blobs[r.gridFsId] == s.blobs[r.gridFsId]
  {
    var i := DeleteSpecIsDeleteAt(s, originalName);
    DeleteAtPreservesInvariant(cfg, digest, s, i);
    var t := DeleteAt(s, i);
    forall r | r in t.records
      ensures r.gridFsId in t.blobs && t.blobs[r.gridFsId] == s.blobs[r.gridFsId]
    {
      var k :| 0 <= k < |t.records| && t.records[k] == r;
      assert Describes(digest, t, t.records[k]);
    }
  }

  /** Deleting keeps the invariant. */
  lemma DeletePreservesInvariant(cfg: Settings, digest: Bytes -> string, s: Stores, originalName: string)
    requires Invariant(cfg, digest, s)
    ensures Invariant(cfg, digest, DeleteSpec(s, originalName).stores)
  {
    if FindRecord(s.records, originalName).Some? {
      var i := DeleteSpecIsDeleteAt(s, originalName);
      DeleteAtPreservesInvariant(cfg, digest, s, i);
    }
  }

  /** Deleting the name of the last record, when no earlier record has that name, removes that record and its blob. */
  lemma DeleteLastRecord(cfg: Settings, digest: Bytes -> string, s: Stores, t: Stores, m: FileMetadata)
    requires Invariant(cfg, digest, t)
    requires t.records == s.records + [m] && m.gridFsId !in s.blobs
    requires m.gridFsId in t.blobs && t.blobs == s.blobs[m.gridFsId := t.blobs[m.gridFsId]]
    requires FindRecord(s.records, m.originalName).None?
    ensures var deleted := DeleteSpec(t, m.originalName);
      && deleted.result.Ok?
      && deleted.stores.records == s.records
      && deleted.stores.blobs == s.blobs
  {
    var n := |s.records|;
    assert t.records[n] == m;
    var i := DeleteSpecIsDeleteAt(t, m.originalName);
    assert i == n;
    assert t.records[..n] == s.records;
    assert t.blobs - {m.gridFsId} == s.blobs;
  }

  /**
   * With duplicates refused, deleting a name right after storing it succeeds,
   * puts the records and the blobs back exactly as they were, and a second
   * delete of that name fails with NotFound.
   */
  lemma DeleteUndoesStore(cfg: Settings, digest: Bytes -> string, s: Stores, file: Option<Upload>, env: Env)
    requires Invariant(cfg, digest, s) && !cfg.allowDuplicateFiles
    requires StoreSpec(cfg, digest, s, file, env).result.Ok?
    ensures file.Some? && file.value.originalFilename.Some?
    ensures var name := file.value.originalFilename.value;
      var stored := StoreSpec(cfg, digest, s, file, env).stores;
      var deleted := DeleteSpec(stored, name);
      && deleted.result.Ok?
      && deleted.stores.records == s.records
      && deleted.stores.blobs == s.blobs
      && DeleteSpec(deleted.stores, name).result == Err(NotFound(name))
  {
    var f := file.value;
    var stored := StoreSpec(cfg, digest, s, file, env).stores;
    var m := NewRecord(digest, s, f, env);
    assert s.nextBlobId !in s.blobs;
    StorePreservesInvariant(cfg, digest, s, file, env);
    DeleteLastRecord(cfg, digest, s, stored, m);
  }

  /** A file of a batch whose `store(file)` raised a StorageException, with that failure. */
  datatype Failure = Failure(file: Upload, error: ServiceError)

  /** The loop's state: the stores, the StorageExceptions collected so far, and the exception that ended it, if any. */
  datatype Batch = Batch(stores: Stores, failures: seq<Failure>, aborted: Option<ServiceError>)

  /** The `"name: message"` error entries the loop collects, one per failure, in order. */
  function Entries(failures: seq<Failure>): (r: seq<string>)
    ensures |r| == |failures|
  {
    if failures == [] then []
    else
      var last := failures[|failures| - 1];
      Entries(failures[..|failures| - 1]) + [Entry(last.file, last.error)]
  }

  /** Entry `i` is the `"name: message"` of failure `i`: the entries keep the failures' order. */
  lemma EntriesAt(failures: seq<Failure>)
    ensures forall i :: 0 <= i < |failures| ==> Entries(failures)[i] == Entry(failures[i].file, failures[i].error)
  {
    forall i | 0 <= i < |failures|
      ensures Entries(failures)[i] == Entry(failures[i].file, failures[i].error)
    {
      EntryAt(failures, i);
    }
  }

  lemma EntryAt(failures: seq<Failure>, i: nat)
    requires i < |failures|
    ensures Entries(failures)[i] == Entry(failures[i].file, failures[i].error)
  {
    var prefix := failures[..i + 1];
    assert prefix[|prefix| - 1] == failures[i];
    EntriesLast(prefix);
    EntriesPrefix(failures, i + 1);
  }

  /** The last entry is the `"name: message"` of the last failure. */
  lemma EntriesLast(failures: seq<Failure>)
    requires failures != []
    ensures Entries(failures)[|failures| - 1] == Entry(failures[|failures| - 1].file, failures[|failures| - 1].error)
  {
  }

  /** The entries of the first `k` failures are the first `k` entries. */
  lemma {:induction false} EntriesPrefix(failures: seq<Failure>, k: nat)
    requires k <= |failures|
    ensures Entries(failures[..k]) == Entries(failures)[..k]
  {
    if k < |failures| {
      var init := failures[..|failures| - 1];
      EntriesPrefix(init, k);
      assert init[..k] == failures[..k];
    } else {
      assert failures[..k] == failures;
    }
  }

  /**
   * An empty file is skipped; any other file is stored; a StorageException
   * adds a `"name: message"` entry and the loop goes on; any other exception
   * ends the loop and is rethrown.
   */
  function BatchStep(cfg: Settings, digest: Bytes -> string, b: Batch, f: Upload, env: Env): (r: Batch)
    ensures b.aborted.Some? || f.IsEmpty() ==> r == b
    ensures b.aborted.None? && !f.IsEmpty() ==> r.stores == StoreSpec(cfg, digest, b.stores, Some(f), env).stores
    ensures var step := StoreSpec(cfg, digest, b.stores, Some(f), env);
      r.failures == b.failures || (step.result.Err? && r.failures == b.failures + [Failure(f, step.result.error)])
    ensures r.aborted.Some? && b.aborted.None? ==> r.failures == b.failures && !IsStorageFailure(r.aborted.value)
    ensures var step := StoreSpec(cfg, digest, b.stores, Some(f), env);
      b.aborted.None? && !f.IsEmpty() ==>
        && (step.result.Ok? ==> r == Batch(step.stores, b.failures, None))
        && (step.result.Err? && IsStorageFailure(step.result.error) ==>
              r == Batch(step.stores, b.failures + [Failure(f, step.result.error)], None))
        && (step.result.Err? && !IsStorageFailure(step.result.error) ==>
              r == Batch(step.stores, b.failures, Some(step.result.error)))
  {
    if b.aborted.Some? || f.IsEmpty() then b
    else Absorb(b, f, StoreSpec(cfg, digest, b.stores, Some(f), env))
  }

  /** What the loop makes of one `store(file)` call that ended as `step`. */
  function Absorb(b: Batch, f: Upload, step: Step): Batch
  {
    match step.result
    case Ok(_) => b.(stores := step.stores)
    case Err(e) =>
      if IsStorageFailure(e) then Batch(step.stores, b.failures + [Failure(f, e)], None)
      else Batch(step.stores, b.failures, Some(e))
  }

  /** The loop's state after the first `n` files. */
  function BatchPrefix(cfg: Settings, digest: Bytes -> string, s: Stores, files: seq<Upload>, envs: nat -> Env, n: nat): Batch
    requires n <= |files|
  {
    if n == 0 then Batch(s, [], None)
    else BatchStep(cfg, digest, BatchPrefix(cfg, digest, s, files, envs, n - 1), files[n - 1], envs(n - 1))
  }

  /** How `storeMultiple` ends once the loop is over: the rethrown exception, success, or the collected errors. */
  function Finish(b: Batch): (r: Step)
    ensures r.stores == b.stores
    ensures r.result.Ok? <==> b.aborted.None? && b.failures == []
    ensures b.aborted.Some? ==> r.result == Err(b.aborted.value)
    ensures b.aborted.None? && b.failures != [] ==> r.result == Err(UploadErrors(Entries(b.failures)))
  {
    Step(b.stores,
      if b.aborted.Some? then Err(b.aborted.value)
      else if b.failures == [] then Ok(())
      else Err(UploadErrors(Entries(b.failures))))
  }

  /** `storeMultiple(files)`. */
  function StoreMultipleSpec(cfg: Settings, digest: Bytes -> string, s: Stores, files: Option<seq<Upload>>, envs: nat -> Env): (r: Step)
    ensures files.None? || files.value == [] ==> r == Step(s, Err(NoFilesSent))
  {
    if files.None? || |files.value| == 0 then Step(s, Err(NoFilesSent))
    else Finish(BatchPrefix(cfg, digest, s, files.value, envs, |files.value|))
  }

  /** Once an exception other than StorageException has ended the loop, later files are never attempted. */
  lemma {:induction false} AbortIsFinal(cfg: Settings, digest: Bytes -> string, s: Stores, files: seq<Upload>, envs: nat -> Env, k: nat, n: nat)
    requires k <= n <= |files|
    requires BatchPrefix(cfg, digest, s, files, envs, k).aborted.Some?
    ensures BatchPrefix(cfg, digest, s, files, envs, n) == BatchPrefix(cfg, digest, s, files, envs, k)
  {
    if n > k {
      AbortIsFinal(cfg, digest, s, files, envs, k, n - 1);
    }
  }

  /** Whether the `store(file)` call for file `i` of the batch raised an exception. */
  predicate StoreRaised(cfg: Settings, digest: Bytes -> string, s: Stores, files: seq<Upload>, envs: nat -> Env, i: nat)
    requires i < |files|
  {
    StoreSpec(cfg, digest, BatchPrefix(cfg, digest, s, files, envs, i).stores, Some(files[i]), envs(i)).result.Err?
  }

  /**
   * While no other exception has ended the loop, an error has been collected
   * iff the store of some non-empty file raised: every StorageException is
   * kept and the loop goes on.
   */
  lemma {:induction false} CollectedIffRaised(cfg: Settings, digest: Bytes -> string, s: Stores, files: seq<Upload>, envs: nat -> Env, n: nat)
    requires n <= |files|
    requires BatchPrefix(cfg, digest, s, files, envs, n).aborted.None?
    ensures BatchPrefix(cfg, digest, s, files, envs, n).failures != [] <==>
      exists i :: 0 <= i < n && !files[i].IsEmpty() && StoreRaised(cfg, digest, s, files, envs, i)
  {
    if n > 0 {
      CollectStep(cfg, digest, s, files, envs, n);
      CollectedIffRaised(cfg, digest, s, files, envs, n - 1);
      if BatchPrefix(cfg, digest, s, files, envs, n).failures != [] {
        if !(!files[n - 1].IsEmpty() && StoreRaised(cfg, digest, s, files, envs, n - 1)) {
          var i :| 0 <= i < n - 1 && !files[i].IsEmpty() && StoreRaised(cfg, digest, s, files, envs, i);
        }
      }
    }
  }

  /** One pass of the loop that does not end it: it has collected an error iff it had before or this store raised. */
  lemma CollectStep(cfg: Settings, digest: Bytes -> string, s: Stores, files: seq<Upload>, envs: nat -> Env, n: nat)
    requires 0 < n <= |files|
    requires BatchPrefix(cfg, digest, s, files, envs, n).aborted.None?
    ensures BatchPrefix(cfg, digest, s, files, envs, n - 1).aborted.None?
    ensures BatchPrefix(cfg, digest, s, files, envs, n).failures != [] <==>
      || BatchPrefix(cfg, digest, s, files, envs, n - 1).failures != []
      || (!files[n - 1].IsEmpty() && StoreRaised(cfg, digest, s, files, envs, n - 1))
  {
  }

  /**
   * A batch that no other exception ends fails iff the store of some
   * non-empty file raised, and it then fails with the collected upload errors.
   */
  lemma BatchFailsIffSomeStoreRaised(cfg: Settings, digest: Bytes -> string, s: Stores, files: seq<Upload>, envs: nat -> Env)
    requires files != []
    requires BatchPrefix(cfg, digest, s, files, envs, |files|).aborted.None?
    ensures var r := StoreMultipleSpec(cfg, digest, s, Some(files), envs).result;
      && (r.Err? <==> exists i :: 0 <= i < |files| && !files[i].IsEmpty() && StoreRaised(cfg, digest, s, files, envs, i))
      && (r.Err? ==> r.error == UploadErrors(Entries(BatchPrefix(cfg, digest, s, files, envs, |files|).failures)))
  {
    CollectedIffRaised(cfg, digest, s, files, envs, |files|);
  }

  /** An admitted file whose store meets no fault is saved, and the loop goes on. */
  lemma AdmittedFileStored(cfg: Settings, digest: Bytes -> string, b: Batch, f: Upload, env: Env)
    requires b.aborted.None? && !f.IsEmpty()
    requires Admission(cfg, b.stores, Some(f)).None?
    requires !env.gridFsWriteFails && !env.checksumReadFails && !env.metadataSaveFails
    ensures var s := b.stores;
      BatchStep(cfg, digest, b, f, env)
      == Batch(Stores(s.blobs[s.nextBlobId := f.content], s.records + [NewRecord(digest, s, f, env)],
                      s.nextBlobId + 1, s.nextRecordId + 1),
               b.failures, None)
  {
  }

  /** A file refused with a StorageException before anything is written is reported, and the loop goes on. */
  lemma RefusedFileCollected(cfg: Settings, digest: Bytes -> string, b: Batch, f: Upload, env: Env)
    requires b.aborted.None? && !f.IsEmpty()
    requires Admission(cfg, b.stores, Some(f)).Some? && IsStorageFailure(Admission(cfg, b.stores, Some(f)).value)
    ensures BatchStep(cfg, digest, b, f, env)
      == Batch(b.stores, b.failures + [Failure(f, Admission(cfg, b.stores, Some(f)).value)], None)
  {
  }

  /**
   * A batch of three PNG files under a 1-byte limit, the second of which is
   * too large: the first and third are stored, the second is reported, and
   * the batch ends with the upload errors.
   */
  lemma SecondTooLargeExample(digest: Bytes -> string, files: seq<Upload>, envs: nat -> Env)
    requires files == [Upload(Some("a.png"), Some("image/png"), [1]),
                       Upload(Some("b.png"), Some("image/png"), [0, 0]),
                       Upload(Some("c.png"), Some("image/png"), [2])]
    requires forall i :: envs(i) == Env(7, false, false, false)
    ensures StoreMultipleSpec(Settings(false, Policy({"image/png"}, {"png"}, 1)), digest,
                              Stores(map[], [], 0, 0), Some(files), envs)
      == Step(Stores(map[0 := [1], 1 := [2]],
                     [FileMetadata(0, "a.png", 0, "image/png", 1, digest([1]), 7),
                      FileMetadata(1, "c.png", 1, "image/png", 1, digest([2]), 7)],
                     2, 2),
              Err(UploadErrors(Entries([Failure(files[1], Invalid(TooLarge(1)))]))))
  {
    ExampleAllThree(digest, files, envs);
  }

  /** The example after all three files: the first and third are stored and the second reported. */
  lemma ExampleAllThree(digest: Bytes -> string, files: seq<Upload>, envs: nat -> Env)
    requires files == [Upload(Some("a.png"), Some("image/png"), [1]),
                       Upload(Some("b.png"), Some("image/png"), [0, 0]),
                       Upload(Some("c.png"), Some("image/png"), [2])]
    requires forall i :: envs(i) == Env(7, false, false, false)
    ensures BatchPrefix(Settings(false, Policy({"image/png"}, {"png"}, 1)), digest, Stores(map[], [], 0, 0), files, envs, 3)
      == Batch(Stores(map[0 := [1], 1 := [2]],
                      [FileMetadata(0, "a.png", 0, "image/png", 1, digest([1]), 7),
                       FileMetadata(1, "c.png", 1, "image/png", 1, digest([2]), 7)],
                      2, 2),
               [Failure(files[1], Invalid(TooLarge(1)))], None)
  {
    var cfg := Settings(false, Policy({"image/png"}, {"png"}, 1));
    var s0 := Stores(map[], [], 0, 0);
    var s1 := Stores(map[0 := [1]], [FileMetadata(0, "a.png", 0, "image/png", 1, digest([1]), 7)], 1, 1);
    var failed := [Failure(files[1], Invalid(TooLarge(1)))];
    ExampleFirstTwo(digest, files, envs);
    ExampleAdmissions(cfg, s0, s1, files);
    AdmittedFileStored(cfg, digest, Batch(s1, failed, None), files[2], Env(7, false, false, false));
  }

  /** The example after its first two files: the first is stored and the second reported. */
  lemma ExampleFirstTwo(digest: Bytes -> string, files: seq<Upload>, envs: nat -> Env)
    requires files == [Upload(Some("a.png"), Some("image/png"), [1]),
                       Upload(Some("b.png"), Some("image/png"), [0, 0]),
                       Upload(Some("c.png"), Some("image/png"), [2])]
    requires forall i :: envs(i) == Env(7, false, false, false)
    ensures BatchPrefix(Settings(false, Policy({"image/png"}, {"png"}, 1)), digest, Stores(map[], [], 0, 0), files, envs, 2)
      == Batch(Stores(map[0 := [1]], [FileMetadata(0, "a.png", 0, "image/png", 1, digest([1]), 7)], 1, 1),
               [Failure(files[1], Invalid(TooLarge(1)))], None)
  {
    var cfg := Settings(false, Policy({"image/png"}, {"png"}, 1));
    var env := Env(7, false, false, false);
    var s0 := Stores(map[], [], 0, 0);
    var s1 := Stores(map[0 := [1]], [FileMetadata(0, "a.png", 0, "image/png", 1, digest([1]), 7)], 1, 1);
    ExampleFirst(digest, files, envs);
    ExampleAdmissions(cfg, s0, s1, files);
    RefusedFileCollected(cfg, digest, Batch(s1, [], None), files[1], env);
  }

  /** The example after its first file, which is stored. */
  lemma ExampleFirst(digest: Bytes -> string, files: seq<Upload>, envs: nat -> Env)
    requires files == [Upload(Some("a.png"), Some("image/png"), [1]),
                       Upload(Some("b.png"), Some("image/png"), [0, 0]),
                       Upload(Some("c.png"), Some("image/png"), [2])]
    requires forall i :: envs(i) == Env(7, false, false, false)
    ensures BatchPrefix(Settings(false, Policy({"image/png"}, {"png"}, 1)), digest, Stores(map[], [], 0, 0), files, envs, 1)
      == Batch(Stores(map[0 := [1]], [FileMetadata(0, "a.png", 0, "image/png", 1, digest([1]), 7)], 1, 1), [], None)
  {
    var cfg := Settings(false, Policy({"image/png"}, {"png"}, 1));
    var s0 := Stores(map[], [], 0, 0);
    var s1 := Stores(map[0 := [1]], [FileMetadata(0, "a.png", 0, "image/png", 1, digest([1]), 7)], 1, 1);
    ExampleAdmissions(cfg, s0, s1, files);
    AdmittedFileStored(cfg, digest, Batch(s0, [], None), files[0], Env(7, false, false, false));
  }

  /** How `store` admits each file of the example, before and after the first is saved. */
  lemma ExampleAdmissions(cfg: Settings, s0: Stores, s1: Stores, files: seq<Upload>)
    requires cfg == Settings(false, Policy({"image/png"}, {"png"}, 1))
    requires s0 == Stores(map[], [], 0, 0) && |s1.records| == 1 && s1.records[0].originalName == "a.png"
    requires files == [Upload(Some("a.png"), Some("image/png"), [1]),
                       Upload(Some("b.png"), Some("image/png"), [0, 0]),
                       Upload(Some("c.png"), Some("image/png"), [2])]
    ensures Admission(cfg, s0, Some(files[0])).None?
    ensures Admission(cfg, s1, Some(files[1])) == Some(Invalid(TooLarge(1)))
    ensures Admission(cfg, s1, Some(files[2])).None?
  {
    PngExtension('a');
    PngExtension('c');
    assert Validate(cfg.validator, Some(files[0])).Pass?;
    assert "b.png" != "a.png";
    assert Validate(cfg.validator, Some(files[1])) == Fail(TooLarge(1));
    assert "c.png" != "a.png";
    assert Validate(cfg.validator, Some(files[2])).Pass?;
  }

  /** The extension of a one-letter PNG file name. */
  lemma PngExtension(x: char)
    requires x != '.'
    ensures Extension([x, '.', 'p', 'n', 'g']) == "png"
  {
    assert LowerChar('p') == 'p' && LowerChar('n') == 'n' && LowerChar('g') == 'g';
    ExtensionSnoc([x, '.'], 'p');
    assert [x, '.'] + ['p'] == [x, '.', 'p'];
    ExtensionSnoc([x, '.', 'p'], 'n');
    assert [x, '.', 'p'] + ['n'] == [x, '.', 'p', 'n'];
    ExtensionSnoc([x, '.', 'p', 'n'], 'g');
    assert [x, '.', 'p', 'n'] + ['g'] == [x, '.', 'p', 'n', 'g'];
  }

  /** The loop keeps the invariant after every file. */
  lemma {:induction false} BatchPreservesInvariant(cfg: Settings, digest: Bytes -> string, s: Stores, files: seq<Upload>, envs: nat -> Env, n: nat)
    requires n <= |files| && Invariant(cfg, digest, s)
    ensures Invariant(cfg, digest, BatchPrefix(cfg, digest, s, files, envs, n).stores)
  {
    if n > 0 {
      var b := BatchPrefix(cfg, digest, s, files, envs, n - 1);
      BatchPreservesInvariant(cfg, digest, s, files, envs, n - 1);
      StorePreservesInvariant(cfg, digest, b.stores, Some(files[n - 1]), envs(n - 1));
    }
  }

  /** The number of non-empty files among the first `n`: the ones the loop attempts. */
  function Attempted(files: seq<Upload>, n: nat): nat
    requires n <= |files|
  {
    if n == 0 then 0 else Attempted(files, n - 1) + (if files[n - 1].IsEmpty() then 0 else 1)
  }

  /** At most one error entry per attempted file; a batch of empty files stores nothing and reports nothing. */
  lemma {:induction false} BatchErrorsBound(cfg: Settings, digest: Bytes -> string, s: Stores, files: seq<Upload>, envs: nat -> Env, n: nat)
    requires n <= |files|
    ensures |BatchPrefix(cfg, digest, s, files, envs, n).failures| <= Attempted(files, n)
    ensures Attempted(files, n) == 0 ==> BatchPrefix(cfg, digest, s, files, envs, n) == Batch(s, [], None)
  {
    if n > 0 {
      BatchErrorsBound(cfg, digest, s, files, envs, n - 1);
    }
  }

  /** A batch holding only empty files succeeds and changes nothing. */
  lemma AllEmptyBatchSucceeds(cfg: Settings, digest: Bytes -> string, s: Stores, files: seq<Upload>, envs: nat -> Env)
    requires files != [] && forall i :: 0 <= i < |files| ==> files[i].IsEmpty()
    ensures StoreMultipleSpec(cfg, digest, s, Some(files), envs) == Step(s, Ok(()))
  {
    assert forall n :: 0 <= n <= |files| ==> Attempted(files, n) == 0 by {
      forall n | 0 <= n <= |files| ensures Attempted(files, n) == 0 {
        AttemptedNone(files, n);
      }
    }
    BatchErrorsBound(cfg, digest, s, files, envs, |files|);
  }

  lemma {:induction false} AttemptedNone(files: seq<Upload>, n: nat)
    requires n <= |files| && forall i :: 0 <= i < |files| ==> files[i].IsEmpty()
    ensures Attempted(files, n) == 0
  {
    if n > 0 { AttemptedNone(files, n - 1); }
  }
}
