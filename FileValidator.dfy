/**
 * The upload validation policy: a fixed-order chain of checks on a submitted
 * file, stopping at the first check that fails.
 */
module FileValidator {
  import opened Wrappers
  import opened Text
  import opened StorageConfig

  newtype Byte = x: int | 0 <= x < 256
  type Bytes = seq<Byte>

  /** A multipart upload: the client's file name and content type (either may be null) and the bytes. */
  datatype Upload = Upload(originalFilename: Option<string>, contentType: Option<string>, content: Bytes) {
    /** `getSize()`: the number of bytes uploaded. */
    function Size(): nat { |content| }
    /** `isEmpty()`: no bytes were uploaded. */
    predicate IsEmpty() { |content| == 0 }
  }

  /** The validator's configuration, copied once when it is built and never changed. */
  datatype Policy = Policy(allowedMimeTypes: set<string>, allowedExtensions: set<string>, maxFileSize: Long)

  /** Why a file was refused; each becomes a StorageException with the message below. */
  datatype Rejection =
    | NullFile
    | EmptyFile
    | TooLarge(maxFileSize: Long)
    | UnsupportedMimeType(contentType: Option<string>)
    | InvalidFilename
    | DisallowedExtension(extension: string)
    | MimeExtensionMismatch

  /** The exception message thrown for each rejection. */
  function Message(r: Rejection): string
  {
    match r
    case NullFile => "Arquivo não pode ser nulo"
    case EmptyFile => "Arquivo vazio não permitido"
    case TooLarge(max) => "Tamanho do arquivo excede o limite de " + IntToString(TruncDiv(max, MIB)) + "MB"
    case UnsupportedMimeType(ct) => "Tipo MIME '" + Show(ct) + "' não é suportado"
    case InvalidFilename => "Nome de arquivo inválido"
    case DisallowedExtension(ext) => "Extensão '." + ext + "' não é permitida"
    case MimeExtensionMismatch => "Extensão do arquivo não corresponde ao tipo MIME declarado"
  }

  /**
   * The size message reports the configured limit in whole megabytes: for a
   * limit of `mb` megabytes the validator's `maxFileSize / (1024 * 1024)`
   * gives `mb` back.
   */
  lemma TooLargeMessageShowsConfiguredLimit(mb: Long)
    requires MIN_LONG / MIB <= mb <= MAX_LONG / MIB
    ensures Message(TooLarge(MaxFileSizeBytes(mb))) == "Tamanho do arquivo excede o limite de " + IntToString(mb) + "MB"
  {
    assert MIN_LONG <= mb * MIB <= MAX_LONG;
    assert MaxFileSizeBytes(mb) == mb * MIB;
    if mb < 0 {
      assert -(mb * MIB) == (-mb) * MIB;
      assert ((-mb) * MIB) / MIB == -mb;
    }
    assert TruncDiv(mb * MIB, MIB) == mb;
  }

  /**
   * The extension of a file name: what follows its last '.', lower-cased,
   * built from the end of the name; ExtensionIsAfterLastIndexOf relates it
   * to the `lastIndexOf`, `substring` and `toLowerCase` the validator uses.
   */
  function Extension(name: string): (r: string)
    requires '.' in name
    ensures |r| < |name|
  {
    var last := name[|name| - 1];
    if last == '.' then [] else Extension(name[..|name| - 1]) + [LowerChar(last)]
  }

  /** Appending a character other than '.' appends its lower-cased form to the extension. */
  lemma ExtensionSnoc(init: string, c: char)
    requires '.' in init && c != '.'
    ensures Extension(init + [c]) == Extension(init) + [LowerChar(c)]
  {
    assert (init + [c])[..|init|] == init;
  }

  /** The validator's own formulation: lower-case what follows `lastIndexOf('.')`. */
  lemma {:induction false} ExtensionIsAfterLastIndexOf(name: string)
    requires '.' in name
    ensures Extension(name) == LowerCase(name[LastIndexOf(name, '.') + 1..])
  {
    var last := name[|name| - 1];
    if last != '.' {
      var init := name[..|name| - 1];
      var k := LastIndexOf(init, '.');
      ExtensionIsAfterLastIndexOf(init);
      DropLast(name, k + 1);
      LowerCaseSnoc(init[k + 1..], last);
    }
  }

  /** The one extension is the one after the last dot, and case does not matter. */
  lemma ExtensionExamples()
    ensures Extension("a.b.JPG") == "jpg"
    ensures Extension("foo.") == ""
  {
    var name := "a.b.JPG";
    assert name[..|name| - 1] == "a.b.JP";
    assert "a.b.JP"[..5] == "a.b.J";
    assert "a.b.J"[..4] == "a.b.";
    assert Extension("a.b.") == [];
    assert LowerChar('J') == 'j' && LowerChar('P') == 'p' && LowerChar('G') == 'g';
  }

  /** The canonical MIME type of each extension the consistency check knows. */
  const CANONICAL_MIME: map<string, string> := map[
    "pdf" := "application/pdf",
    "jpg" := "image/jpeg",
    "jpeg" := "image/jpeg",
    "png" := "image/png",
    "gif" := "image/gif",
    "txt" := "text/plain"]

  /** Whether the declared MIME type agrees with the extension; unknown extensions always agree. */
  function IsMimeTypeMatchesExtension(mimeType: string, extension: string): (r: bool)
    ensures r <==> (extension in CANONICAL_MIME ==> mimeType == CANONICAL_MIME[extension])
  {
    match extension
    case "pdf" => mimeType == "application/pdf"
    case "jpg" => mimeType == "image/jpeg"
    case "jpeg" => mimeType == "image/jpeg"
    case "png" => mimeType == "image/png"
    case "gif" => mimeType == "image/gif"
    case "txt" => mimeType == "text/plain"
    case _ => true
  }

  function ValidateEmptyFile(f: Upload): (r: Outcome<Rejection>)
    ensures r.Pass? <==> !f.IsEmpty()
    ensures r.Fail? ==> r.error == EmptyFile
  {
    if f.IsEmpty() then Fail(EmptyFile) else Pass
  }

  function ValidateFileSize(p: Policy, f: Upload): (r: Outcome<Rejection>)
    ensures r.Pass? <==> f.Size() <= p.maxFileSize
    ensures r.Fail? ==> r.error == TooLarge(p.maxFileSize)
  {
    if f.Size() > p.maxFileSize then Fail(TooLarge(p.maxFileSize)) else Pass
  }

  function ValidateContentType(p: Policy, f: Upload): (r: Outcome<Rejection>)
    ensures r.Pass? <==> f.contentType.Some? && f.contentType.value in p.allowedMimeTypes
    ensures r.Fail? ==> r.error == UnsupportedMimeType(f.contentType)
  {
    if f.contentType.None? || f.contentType.value !in p.allowedMimeTypes then
      Fail(UnsupportedMimeType(f.contentType))
    else
      Pass
  }

  function ValidateFileExtension(p: Policy, f: Upload): (r: Outcome<Rejection>)
    ensures r.Pass? <==> HasExtension(f) && Extension(f.originalFilename.value) in p.allowedExtensions
    ensures r.Fail? && !HasExtension(f) ==> r.error == InvalidFilename
    ensures r.Fail? && HasExtension(f) ==> r.error == DisallowedExtension(Extension(f.originalFilename.value))
  {
    if f.originalFilename.None? || LastIndexOf(f.originalFilename.value, '.') == -1 then
      Fail(InvalidFilename)
    else
      var ext := Extension(f.originalFilename.value);
      if ext !in p.allowedExtensions then Fail(DisallowedExtension(ext)) else Pass
  }

  function ValidateMimeTypeConsistency(f: Upload): (r: Outcome<Rejection>)
    requires HasExtension(f) && f.contentType.Some?
    ensures r.Pass? <==> IsMimeTypeMatchesExtension(f.contentType.value, Extension(f.originalFilename.value))
    ensures r.Fail? ==> r.error == MimeExtensionMismatch
  {
    if !IsMimeTypeMatchesExtension(f.contentType.value, Extension(f.originalFilename.value)) then
      Fail(MimeExtensionMismatch)
    else
      Pass
  }

  /** The file has a name and the name contains a '.'. */
  predicate HasExtension(f: Upload)
  {
    f.originalFilename.Some? && '.' in f.originalFilename.value
  }

  /**
   * Every condition the policy places on a file, with no order among them:
   * the reference against which Validate is checked.
   */
  predicate Acceptable(p: Policy, file: Option<Upload>)
  {
    && file.Some?
    && var f := file.value;
    && 0 < |f.content| <= p.maxFileSize
    && f.contentType.Some?
    && f.contentType.value in p.allowedMimeTypes
    && f.originalFilename.Some?
    && '.' in f.originalFilename.value
    && var ext := Extension(f.originalFilename.value);
    && ext in p.allowedExtensions
    && (ext in CANONICAL_MIME ==> f.contentType.value == CANONICAL_MIME[ext])
  }

  /**
   * Runs the checks in the order null, empty, size, MIME type, extension,
   * consistency; the first failing one decides the rejection.
   */
  function Validate(p: Policy, file: Option<Upload>): (r: Outcome<Rejection>)
    ensures r.Pass? <==> Acceptable(p, file)
  {
    match file
    case None => Fail(NullFile)
    case Some(f) =>
      var empty := ValidateEmptyFile(f);
      if empty.Fail? then empty
      else
        var size := ValidateFileSize(p, f);
        if size.Fail? then size
        else
          var contentType := ValidateContentType(p, f);
          if contentType.Fail? then contentType
          else
            var extension := ValidateFileExtension(p, f);
            if extension.Fail? then extension
            else ValidateMimeTypeConsistency(f)
  }

  /**
   * The rejection Validate reports is that of the first check that fails, in
   * the order null, empty, size, MIME type, extension, consistency.
   */
  lemma ValidateReportsFirstFailure(p: Policy, file: Option<Upload>)
    ensures file.None? ==> Validate(p, file) == Fail(NullFile)
    ensures file.Some? && file.value.IsEmpty() ==> Validate(p, file) == Fail(EmptyFile)
    ensures file.Some? && !file.value.IsEmpty() && file.value.Size() > p.maxFileSize
      ==> Validate(p, file) == Fail(TooLarge(p.maxFileSize))
    ensures file.Some? && !file.value.IsEmpty() && file.value.Size() <= p.maxFileSize
      && (file.value.contentType.None? || file.value.contentType.value !in p.allowedMimeTypes)
      ==> Validate(p, file) == Fail(UnsupportedMimeType(file.value.contentType))
    ensures file.Some? && !file.value.IsEmpty() && file.value.Size() <= p.maxFileSize
      && file.value.contentType.Some? && file.value.contentType.value in p.allowedMimeTypes
      && !HasExtension(file.value)
      ==> Validate(p, file) == Fail(InvalidFilename)
    ensures file.Some? && !file.value.IsEmpty() && file.value.Size() <= p.maxFileSize
      && file.value.contentType.Some? && file.value.contentType.value in p.allowedMimeTypes
      && HasExtension(file.value)
      && Extension(file.value.originalFilename.value) !in p.allowedExtensions
      ==> Validate(p, file) == Fail(DisallowedExtension(Extension(file.value.originalFilename.value)))
    ensures Validate(p, file) == Fail(MimeExtensionMismatch) <==>
      && file.Some? && !file.value.IsEmpty() && file.value.Size() <= p.maxFileSize
      && file.value.contentType.Some? && file.value.contentType.value in p.allowedMimeTypes
      && HasExtension(file.value)
      && Extension(file.value.originalFilename.value) in p.allowedExtensions
      && !IsMimeTypeMatchesExtension(file.value.contentType.value, Extension(file.value.originalFilename.value))
  {
  }

  /** A file exactly at the limit is never refused for its size. */
  lemma SizeAtLimitPasses(p: Policy, f: Upload)
    requires f.Size() == p.maxFileSize
    ensures Validate(p, Some(f)) != Fail(TooLarge(p.maxFileSize))
  {
  }
}
