/**
 * The REST controller under `/api/v1/file`: download with its
 * Content-Disposition rule, single and batch upload with their JSON
 * replies, listing and deletion, all delegating to the storage service.
 */
module FileApi {
  import opened Wrappers
  import opened Text
  import opened FileValidator
  import opened StorageConfig
  import opened StorageState
  import opened StorageService
  import Exceptions
  import ExceptionHandler

  /** `isViewable(contentType)`: a browser can show it (images, text, PDF). */
  predicate IsViewable(contentType: Option<string>)
  {
    && contentType.Some?
    && (StartsWith(contentType.value, "image/")
        || contentType.value == "application/pdf"
        || StartsWith(contentType.value, "text/"))
  }

  /** The Content-Disposition header of a download. */
  function ContentDisposition(view: Option<bool>, metadata: FileMetadata): (r: string)
    ensures r == "inline" <==> view == Some(true) && IsViewable(Some(metadata.contentType))
    ensures r != "inline" ==> r == "attachment; filename=\"" + metadata.originalName + "\""
  {
    if view == Some(true) && IsViewable(Some(metadata.contentType)) then "inline"
    else
      var attachment := "attachment; filename=\"" + metadata.originalName + "\"";
      assert |attachment| > |"inline"|;
      attachment
  }

  /** What a successful download sends: the header, the stored content type and the bytes. */
  datatype Download = Download(contentDisposition: string, contentType: string, body: Bytes)

  /** The JSON map the single upload answers with. */
  datatype UploadReply = UploadReply(message: string, filename: string)

  /** The JSON map the batch upload answers with. */
  datatype BatchReply = BatchReply(message: string, count: string)

  /** The reply to a batch of `n` files: `count` reads back as `n`. */
  function BatchUploadReply(n: nat): (r: BatchReply)
    ensures forall i :: 0 <= i < |r.count| ==> IsDigit(r.count[i])
    ensures ParseNat(r.count) == n
    ensures r.message == r.count + " files uploaded successfully"
  {
    ParseNatToString(n);
    BatchReply(NatToString(n) + " files uploaded successfully", NatToString(n))
  }

  /** The service-level outcome of a controller call: its result without the reply body. */
  function Completion<T>(r: Result<T, ServiceError>): Result<(), ServiceError>
  {
    match r
    case Ok(_) => Ok(())
    case Err(e) => Err(e)
  }

  /** A missing type is never viewable; images, text and PDF are. */
  lemma ViewableTypes()
    ensures !IsViewable(None)
    ensures IsViewable(Some("image/png")) && IsViewable(Some("text/plain")) && IsViewable(Some("application/pdf"))
  {
    assert StartsWith("image/png", "image/");
    assert StartsWith("text/plain", "text/");
  }

  /** `application/pdf` must match exactly; other application types are not viewable. */
  lemma NonViewableTypes()
    ensures !IsViewable(Some("application/pdf2")) && !IsViewable(Some("application/json"))
  {
    assert "application/pdf2" != "application/pdf";
  }

  /** Every MIME type the default configuration accepts can be shown inline. */
  lemma DefaultMimeTypesViewable(contentType: string)
    requires contentType in DEFAULT_PROPERTIES.allowedMimeTypes
    ensures IsViewable(Some(contentType))
  {
    assert StartsWith("image/jpeg", "image/");
    assert StartsWith("image/png", "image/");
  }

  /**
   * The status the exception handler gives each service failure: 404 for a
   * missing file or blob, 409 for a duplicate, 500 for a failure that is not
   * a StorageException, and 400 for every other StorageException.
   */
  lemma ErrorStatus<V>(e: ServiceError, path: string)
    ensures var status := ExceptionHandler.Handle<V>(ToException<V>(e), path).status;
      && (status == ExceptionHandler.NOT_FOUND <==> e.NotFound? || e.Unreadable?)
      && (status == ExceptionHandler.CONFLICT <==> e.Duplicate?)
      && (status == ExceptionHandler.INTERNAL_SERVER_ERROR <==> !IsStorageFailure(e))
      && (status == ExceptionHandler.BAD_REQUEST <==>
            IsStorageFailure(e) && !e.NotFound? && !e.Unreadable? && !e.Duplicate?)
  {
    var ex := ToException<V>(e);
    if IsStorageFailure(e) {
      ExceptionHandler.HandleStorageException(ex, path);
    } else {
      ExceptionHandler.HandleOtherException(ex, path);
    }
  }

  class FileApiController {
    const storageService: StorageServiceImpl

    constructor (storageService: StorageServiceImpl)
      ensures this.storageService == storageService
    {
      this.storageService := storageService;
    }

    /**
     * `downloadFile(originalName, view)`: the record found by name, then its
     * blob by `gridFsId`; `readFails` says whether reading the blob throws.
     */
    function DownloadFile(originalName: string, view: Option<bool>, readFails: bool): (r: Result<Download, ServiceError>)
      reads storageService
      ensures storageService.FindByOriginalName(originalName).Err? ==> r == Err(NotFound(originalName))
      ensures r.Ok? ==>
        var metadata := storageService.FindByOriginalName(originalName).value;
        && metadata.originalName == originalName
        && r.value.contentDisposition == ContentDisposition(view, metadata)
        && r.value.contentType == metadata.contentType
        && metadata.gridFsId in storageService.blobs
        && r.value.body == storageService.blobs[metadata.gridFsId]
      ensures storageService.Valid() && !readFails ==>
        (r.Ok? <==> storageService.ExistsByOriginalName(originalName))
      ensures storageService.FindByOriginalName(originalName).Ok? ==>
        var metadata := storageService.FindByOriginalName(originalName).value;
        readFails || metadata.gridFsId !in storageService.blobs ==> r == Err(Unreadable(metadata.gridFsId))
    {
      match storageService.FindByOriginalName(originalName)
      case Err(e) => Err(e)
      case Ok(metadata) =>
        match storageService.LoadAsResource(metadata.gridFsId, readFails)
        case Err(e) => Err(e)
        case Ok(bytes) => Ok(Download(ContentDisposition(view, metadata), metadata.contentType, bytes))
    }

    /** A valid store's downloads are the bytes whose size and checksum the record holds. */
    lemma DownloadMatchesRecord(originalName: string, view: Option<bool>)
      requires storageService.Valid()
      ensures var r := DownloadFile(originalName, view, false);
        r.Ok? ==> (var metadata := storageService.FindByOriginalName(originalName).value;
                   |r.value.body| == metadata.size && storageService.sha256Hex(r.value.body) == metadata.checksum)
    {
      var r := DownloadFile(originalName, view, false);
      if r.Ok? {
        var metadata := storageService.FindByOriginalName(originalName).value;
        var i :| 0 <= i < |storageService.records| && storageService.records[i] == metadata;
        assert Describes(storageService.sha256Hex, storageService.State(), storageService.records[i]);
      }
    }

    /** `uploadFile(file)`: store it, then answer with its name. */
    method UploadFile(file: Option<Upload>, env: Env) returns (r: Result<UploadReply, ServiceError>)
      requires storageService.Valid()
      modifies storageService
      ensures storageService.Valid()
      ensures Step(storageService.State(), Completion(r)) ==
        StoreSpec(storageService.Config(), storageService.sha256Hex, old(storageService.State()), file, env)
      ensures r.Ok? ==> (&& file.Some? && file.value.originalFilename.Some?
                         && r.value.filename == file.value.originalFilename.value
                         && r.value.message == "Upload successful: " + r.value.filename)
    {
      var stored := storageService.Store(file, env);
      if stored.Err? {
        return Err(stored.error);
      }
      var name := file.value.originalFilename.value;
      r := Ok(UploadReply("Upload successful: " + name, name));
    }

    /** `uploadMultipleFiles(files)`: store the batch, then report how many files were sent. */
    method UploadMultipleFiles(files: seq<Upload>, envs: nat -> Env) returns (r: Result<BatchReply, ServiceError>)
      requires storageService.Valid()
      modifies storageService
      ensures storageService.Valid()
      ensures Step(storageService.State(), Completion(r)) ==
        StoreMultipleSpec(storageService.Config(), storageService.sha256Hex, old(storageService.State()), Some(files), envs)
      ensures r.Ok? ==> r.value == BatchUploadReply(|files|) && ParseNat(r.value.count) == |files|
    {
      var stored := storageService.StoreMultiple(Some(files), envs);
      if stored.Err? {
        return Err(stored.error);
      }
      r := Ok(BatchUploadReply(|files|));
    }

    /** `listAllFiles()`: every record the repository holds. */
    function ListAllFiles(): (r: seq<FileMetadata>)
      reads storageService
      ensures r == storageService.records
    {
      storageService.LoadAllMetadata()
    }

    /** `deleteFile(originalName)`: delete the file and its record. */
    method DeleteFile(originalName: string) returns (r: Result<(), ServiceError>)
      requires storageService.Valid()
      modifies storageService
      ensures storageService.Valid()
      ensures Step(storageService.State(), r) == DeleteSpec(old(storageService.State()), originalName)
    {
      r := storageService.Delete(originalName);
    }
  }
}
