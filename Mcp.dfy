/**
 * The file-operation service: create, read, edit and delete one file of a
 * fixed base directory, each answering with a `FileMetadata` and never
 * raising past its boundary.
 *
 * The directory is a table from entry name to content.  Its entries `.` and
 * `..` always exist (they are the directory itself and its parent) but are not
 * files: any read, write or delete on them fails.  What the file system answers
 * to the calls an operation makes is given by an `Io` record.
 */
module Mcp {
  import opened Wrappers
  import opened UnixPaths
  import opened Dto

  const EmptyNameMessage := "Filename cannot be empty"
  const AlreadyExistsMessage := "File already exists."
  const NotFoundMessage := "File not found."
  /** Reason of the `InvalidPathException` a path string with a NUL raises. */
  const NulReason := "Nul character not allowed"
  /** Message of the `NullPointerException` raised when `getFileName()` is null. */
  const NoFileNameMessage :=
    "Cannot invoke \"java.nio.file.Path.toString()\" because the return value of \"java.nio.file.Path.getFileName()\" is null"
  /** `getMessage()` of the `NullPointerException` `Files.writeString` raises for null text, as string concatenation renders it. */
  const NullTextMessage := "null"

  /** The environment's answers to one operation. */
  datatype Io = Io(
    attrs: Result<Attributes, string>,  // `Files.readAttributes`: the attributes, or the message of its exception
    ioFails: bool,                      // whether the write, read or delete call throws
    ioMessage: string,                  // the message of that exception
    errorCreatedAt: Instant,            // first `Instant.now()` taken by `FileMetadata.error`
    errorUpdatedAt: Instant)            // second `Instant.now()` taken by `FileMetadata.error`

  /** The result of a state-changing operation: what it returns and the table after it. */
  datatype Outcome = Outcome(result: FileMetadata, files: map<string, string>)

  /** `Character.isWhitespace` on a code point. */
  predicate IsJavaWhitespace(c: char) {
    var n := c as int;
    || n == 0x20 || 0x09 <= n <= 0x0D || 0x1C <= n <= 0x1F
    || n == 0x1680 || 0x2000 <= n <= 0x2006 || 0x2008 <= n <= 0x200A
    || n == 0x2028 || n == 0x2029 || n == 0x205F || n == 0x3000
  }

  /** `String.isBlank`: empty, or whitespace only. */
  predicate IsBlank(s: string) {
    forall i :: 0 <= i < |s| ==> IsJavaWhitespace(s[i])
  }

  predicate IsDotEntry(name: string) {
    name == "." || name == ".."
  }

  /** A name a regular file of the base directory can have. */
  predicate IsEntryName(name: string) {
    IsSegment(name) && !IsDotEntry(name)
  }

  /** Every key of the table names a file directly inside the base directory. */
  ghost predicate IsTable(files: map<string, string>) {
    forall name :: name in files ==> IsEntryName(name)
  }

  /** `Files.exists` on the entry `name` of the base directory. */
  predicate Exists(files: map<string, string>, name: string) {
    name in files || IsDotEntry(name)
  }

  /** The tables agree on every entry other than `name`. */
  ghost predicate SameExcept(before: map<string, string>, after: map<string, string>, name: string) {
    forall k :: k != name ==> (k in before <==> k in after) && (k in before ==> before[k] == after[k])
  }

  /**
   * The name `resolvePath` keeps: refuses a null or blank name, lets
   * `Paths.get` refuse a NUL, and keeps the last element of the rest, which
   * does not exist for a name made of separators only.
   */
  function SafeName(fileName: Option<string>): (r: Result<string, string>)
    ensures fileName.None? || IsBlank(fileName.value) ==> r == Failure(EmptyNameMessage)
    ensures r.Success? <==>
      fileName.Some? && !IsBlank(fileName.value) && '\0' !in fileName.value && FileName(fileName.value).Some?
    ensures r.Success? ==> IsSegment(r.value) && Some(r.value) == FileName(fileName.value)
  {
    if fileName.None? || IsBlank(fileName.value) then Failure(EmptyNameMessage)
    else if '\0' in fileName.value then Failure(NulReason + ": " + fileName.value)
    else match FileName(fileName.value)
      case None => Failure(NoFileNameMessage)
      case Some(name) => Success(name)
  }

  /** A `Path` inside the base directory: its text and its file name. */
  datatype ResolvedPath = ResolvedPath(path: string, name: string)

  /** What every resolved path satisfies: absolute, named by a single element. */
  predicate IsTarget(target: ResolvedPath) {
    IsSegment(target.name) && IsAbsolute(target.path) && FileName(target.path) == Some(target.name)
  }

  /**
   * `resolvePath`: the base directory joined with the kept name.  The result
   * lies directly inside the base directory, lexically: its parent is the
   * base directory and its file name is the kept name, which has no separator.
   */
  function ResolvePath(base: string, fileName: Option<string>): (r: Result<ResolvedPath, string>)
    requires IsNormalDirectory(base)
    ensures r.Success? <==> SafeName(fileName).Success?
    ensures r.Failure? ==> r.error == SafeName(fileName).error
    ensures r.Success? ==>
      && r.value.name == SafeName(fileName).value
      && IsTarget(r.value)
      && IsAbsolute(r.value.path)
      && r.value.path == (if base == "/" then "/" else base + "/") + r.value.name
      && Parent(r.value.path) == Some(base)
      && FileName(r.value.path) == Some(r.value.name)
  {
    match SafeName(fileName)
    case Failure(e) => Failure(e)
    case Success(name) =>
      ResolveInDirectory(base, name);
      Success(ResolvedPath(Resolve(base, name), name))
  }

  /** The message `handleError` builds from an operation name and a fault's message. */
  function ErrorText(operation: string, message: string): (text: string)
    ensures var prefix := "Error during " + operation + ": ";
      prefix <= text && text[|prefix|..] == message
  {
    "Error during " + operation + ": " + message
  }

  /** `handleError`: the error value for a fault raised inside `operation`. */
  function HandleError(operation: string, fileName: Option<string>, message: string, io: Io): (m: FileMetadata)
    ensures WellFormed(m) && m.fileName == fileName && m.exactPath == UnknownPath
    ensures m.error == Some(ErrorText(operation, message))
  {
    Error(fileName, ErrorText(operation, message), io.errorCreatedAt, io.errorUpdatedAt)
  }

  /** `text` is a message `handleError` built for a fault inside `operation`. */
  predicate IsFaultReport(operation: string, text: string) {
    "Error during " + operation + ": " <= text
  }

  // ---------------------------------------------------------------------
  // The four operations, once the name is resolved
  // ---------------------------------------------------------------------

  /** `createFile` past `resolvePath`: refuses an existing entry, else writes the content and describes the new file. */
  function CreateAt(target: ResolvedPath, files: map<string, string>, request: FileOperationRequest, io: Io): (o: Outcome)
    requires IsTarget(target)
    ensures WellFormed(o.result)
    ensures o.files == files || (!Exists(files, target.name) && request.fileContent.Some?
                                 && o.files == files[target.name := request.fileContent.value])
    ensures o.result.error.None? ==> o.result.exactPath == target.path && o.result.fileName == Some(target.name)
  {
    if Exists(files, target.name) then
      Outcome(Error(request.fileName, AlreadyExistsMessage, io.errorCreatedAt, io.errorUpdatedAt), files)
    else if request.fileContent.None? then
      Outcome(HandleError("create", request.fileName, NullTextMessage, io), files)
    else if io.ioFails then
      Outcome(HandleError("create", request.fileName, io.ioMessage, io), files)
    else
      var written := files[target.name := request.fileContent.value];
      match FromPath(target.path, request.fileContent, false, io.attrs)
      case Failure(e) => Outcome(HandleError("create", request.fileName, e, io), written)
      case Success(m) => Outcome(m, written)
  }

  /** `readFile` past `resolvePath`: "File not found." for a missing entry, else the stored content. */
  function ReadAt(target: ResolvedPath, files: map<string, string>, request: FileOperationRequest, io: Io): (m: FileMetadata)
    requires IsTarget(target)
    ensures WellFormed(m)
    ensures m.error.None? ==> target.name in files && m.content == Some(files[target.name]) && !m.isDeleted
    ensures m.error.None? ==> m.exactPath == target.path && m.fileName == Some(target.name)
  {
    if !Exists(files, target.name) then
      Error(request.fileName, NotFoundMessage, io.errorCreatedAt, io.errorUpdatedAt)
    else if io.ioFails || target.name !in files then
      HandleError("read", request.fileName, io.ioMessage, io)
    else
      match FromPath(target.path, Some(files[target.name]), false, io.attrs)
      case Failure(e) => HandleError("read", request.fileName, e, io)
      case Success(m) => m
  }

  /** `editFile` past `resolvePath`: "File not found." for a missing entry, else the whole content is replaced. */
  function EditAt(target: ResolvedPath, files: map<string, string>, request: FileOperationRequest, io: Io): (o: Outcome)
    requires IsTarget(target)
    ensures WellFormed(o.result)
    ensures o.files == files || (target.name in files && request.fileContent.Some?
                                 && o.files == files[target.name := request.fileContent.value])
    ensures o.result.error.None? ==> o.result.exactPath == target.path && o.result.fileName == Some(target.name)
  {
    if !Exists(files, target.name) then
      Outcome(Error(request.fileName, NotFoundMessage, io.errorCreatedAt, io.errorUpdatedAt), files)
    else if request.fileContent.None? then
      Outcome(HandleError("edit", request.fileName, NullTextMessage, io), files)
    else if io.ioFails || target.name !in files then
      Outcome(HandleError("edit", request.fileName, io.ioMessage, io), files)
    else
      var written := files[target.name := request.fileContent.value];
      match FromPath(target.path, request.fileContent, false, io.attrs)
      case Failure(e) => Outcome(HandleError("edit", request.fileName, e, io), written)
      case Success(m) => Outcome(m, written)
  }

  /** `deleteFile` past `resolvePath`: "File not found." for a missing entry, else a snapshot and then the removal. */
  function DeleteAt(target: ResolvedPath, files: map<string, string>, request: FileOperationRequest, io: Io): (o: Outcome)
    requires IsTarget(target)
    ensures WellFormed(o.result)
    ensures o.result.error.None? <==> o.files != files
    ensures o.files == files || (target.name in files && o.files == files - {target.name})
    ensures o.result.error.None? ==> o.result.exactPath == target.path && o.result.fileName == Some(target.name)
  {
    if !Exists(files, target.name) then
      Outcome(Error(request.fileName, NotFoundMessage, io.errorCreatedAt, io.errorUpdatedAt), files)
    else
      match FromPath(target.path, None, true, io.attrs)
      case Failure(e) => Outcome(HandleError("delete", request.fileName, e, io), files)
      case Success(snapshot) =>
        if io.ioFails || target.name !in files then
          Outcome(HandleError("delete", request.fileName, io.ioMessage, io), files)
        else
          assert target.name !in files - {target.name};
          Outcome(snapshot, files - {target.name})
  }

  // ---------------------------------------------------------------------
  // The four operations
  // ---------------------------------------------------------------------

  /** `createFile`. */
  function Create(base: string, files: map<string, string>, request: FileOperationRequest, io: Io): (o: Outcome)
    requires IsNormalDirectory(base)
    ensures WellFormed(o.result)
  {
    match ResolvePath(base, request.fileName)
    case Failure(e) => Outcome(HandleError("create", request.fileName, e, io), files)
    case Success(target) => CreateAt(target, files, request, io)
  }

  /** `readFile`. */
  function Read(base: string, files: map<string, string>, request: FileOperationRequest, io: Io): (m: FileMetadata)
    requires IsNormalDirectory(base)
    ensures WellFormed(m)
  {
    match ResolvePath(base, request.fileName)
    case Failure(e) => HandleError("read", request.fileName, e, io)
    case Success(target) => ReadAt(target, files, request, io)
  }

  /** `editFile`. */
  function Edit(base: string, files: map<string, string>, request: FileOperationRequest, io: Io): (o: Outcome)
    requires IsNormalDirectory(base)
    ensures WellFormed(o.result)
  {
    match ResolvePath(base, request.fileName)
    case Failure(e) => Outcome(HandleError("edit", request.fileName, e, io), files)
    case Success(target) => EditAt(target, files, request, io)
  }

  /** `deleteFile`. */
  function Delete(base: string, files: map<string, string>, request: FileOperationRequest, io: Io): (o: Outcome)
    requires IsNormalDirectory(base)
    ensures WellFormed(o.result)
  {
    match ResolvePath(base, request.fileName)
    case Failure(e) => Outcome(HandleError("delete", request.fileName, e, io), files)
    case Success(target) => DeleteAt(target, files, request, io)
  }

  // ---------------------------------------------------------------------
  // What each operation does to the table
  // ---------------------------------------------------------------------

  /** `createFile` past `resolvePath` only adds the target's entry, and only when it was free. */
  lemma CreateAtOnlyAdds(target: ResolvedPath, files: map<string, string>, request: FileOperationRequest, io: Io)
    requires IsTarget(target)
    ensures var after := CreateAt(target, files, request, io).files;
      && SameExcept(files, after, target.name)
      && files.Keys <= after.Keys
      && (forall k :: k in files ==> after[k] == files[k])
      && (IsTable(files) ==> IsTable(after))
  {
    var after := CreateAt(target, files, request, io).files;
    if after != files {
      assert target.name !in files && IsEntryName(target.name);
      forall k | k != target.name
        ensures (k in files <==> k in after) && (k in files ==> files[k] == after[k])
      {
      }
    }
  }

  /**
   * `createFile` only ever adds the resolved entry: a refused name leaves the
   * table as it is, no existing entry is overwritten, and the keys stay names
   * of files directly inside the base directory.
   */
  lemma CreateOnlyAdds(base: string, files: map<string, string>, request: FileOperationRequest, io: Io)
    requires IsNormalDirectory(base)
    ensures var after := Create(base, files, request, io).files;
      && (SafeName(request.fileName).Failure? ==> after == files)
      && (SafeName(request.fileName).Success? ==> SameExcept(files, after, SafeName(request.fileName).value))
      && files.Keys <= after.Keys
      && (forall k :: k in files ==> after[k] == files[k])
      && (IsTable(files) ==> IsTable(after))
  {
    match ResolvePath(base, request.fileName)
    case Failure(_) =>
    case Success(target) =>
      CreateAtOnlyAdds(target, files, request, io);
  }

  /** `editFile` past `resolvePath` changes at most the target's entry and never adds or removes one. */
  lemma EditAtKeepsEntries(target: ResolvedPath, files: map<string, string>, request: FileOperationRequest, io: Io)
    requires IsTarget(target)
    ensures SameExcept(files, EditAt(target, files, request, io).files, target.name)
    ensures EditAt(target, files, request, io).files.Keys == files.Keys
  {
    var after := EditAt(target, files, request, io).files;
    if after != files {
      forall k | k != target.name
        ensures (k in files <==> k in after) && (k in files ==> files[k] == after[k])
      {
      }
    }
  }

  /** `editFile` never adds or removes an entry and changes at most the resolved one. */
  lemma EditKeepsEntries(base: string, files: map<string, string>, request: FileOperationRequest, io: Io)
    requires IsNormalDirectory(base)
    ensures var after := Edit(base, files, request, io).files;
      && (SafeName(request.fileName).Failure? ==> after == files)
      && (SafeName(request.fileName).Success? ==> SameExcept(files, after, SafeName(request.fileName).value))
      && after.Keys == files.Keys
  {
    match ResolvePath(base, request.fileName)
    case Failure(_) =>
    case Success(target) =>
      EditAtKeepsEntries(target, files, request, io);
  }

  /** `deleteFile` past `resolvePath` only removes the target's entry. */
  lemma DeleteAtOnlyRemoves(target: ResolvedPath, files: map<string, string>, request: FileOperationRequest, io: Io)
    requires IsTarget(target)
    ensures var after := DeleteAt(target, files, request, io).files;
      && SameExcept(files, after, target.name)
      && after.Keys <= files.Keys
      && (forall k :: k in after ==> after[k] == files[k])
  {
    var after := DeleteAt(target, files, request, io).files;
    if after != files {
      forall k | k != target.name
        ensures (k in files <==> k in after) && (k in files ==> files[k] == after[k])
      {
      }
    }
  }

  /** `deleteFile` only ever removes the resolved entry, and leaves the rest as it was. */
  lemma DeleteOnlyRemoves(base: string, files: map<string, string>, request: FileOperationRequest, io: Io)
    requires IsNormalDirectory(base)
    ensures var after := Delete(base, files, request, io).files;
      && (SafeName(request.fileName).Failure? ==> after == files)
      && (SafeName(request.fileName).Success? ==> SameExcept(files, after, SafeName(request.fileName).value))
      && after.Keys <= files.Keys
      && (forall k :: k in after ==> after[k] == files[k])
  {
    match ResolvePath(base, request.fileName)
    case Failure(_) =>
    case Success(target) =>
      DeleteAtOnlyRemoves(target, files, request, io);
  }

  // ---------------------------------------------------------------------
  // Guards, results and round trips
  // ---------------------------------------------------------------------

  /** A null or blank name is refused by every operation, which touches nothing. */
  lemma BlankNameIsRefused(base: string, files: map<string, string>, request: FileOperationRequest, io: Io)
    requires IsNormalDirectory(base)
    requires request.fileName.None? || IsBlank(request.fileName.value)
    ensures Create(base, files, request, io) == Outcome(HandleError("create", request.fileName, EmptyNameMessage, io), files)
    ensures Read(base, files, request, io) == HandleError("read", request.fileName, EmptyNameMessage, io)
    ensures Edit(base, files, request, io) == Outcome(HandleError("edit", request.fileName, EmptyNameMessage, io), files)
    ensures Delete(base, files, request, io) == Outcome(HandleError("delete", request.fileName, EmptyNameMessage, io), files)
  {
  }

  /** `createFile` on an existing entry answers "File already exists." and changes nothing. */
  lemma CreateRefusesExisting(base: string, files: map<string, string>, request: FileOperationRequest, io: Io, name: string)
    requires IsNormalDirectory(base)
    requires SafeName(request.fileName) == Success(name) && Exists(files, name)
    ensures Create(base, files, request, io).files == files
    ensures Create(base, files, request, io).result.error == Some(AlreadyExistsMessage)
    ensures Create(base, files, request, io).result.fileName == request.fileName
  {
  }

  /** `createFile` on a free name with content maps the name to that content and describes the new file. */
  lemma CreateWritesNewFile(base: string, files: map<string, string>, request: FileOperationRequest, io: Io, name: string)
    requires IsNormalDirectory(base)
    requires SafeName(request.fileName) == Success(name) && !Exists(files, name)
    requires request.fileContent.Some? && !io.ioFails && io.attrs.Success?
    ensures var o := Create(base, files, request, io);
      && o.files == files[name := request.fileContent.value]
      && o.result.error.None?
      && o.result.fileName == Some(name)
      && o.result.exactPath == ResolvePath(base, request.fileName).value.path
      && o.result.content == request.fileContent
      && o.result.fileSize == ByteLength(request.fileContent.value)
      && !o.result.isDeleted
  {
  }

  /** A `createFile` past `resolvePath` that reports success has written the request content under a free name. */
  lemma CreateAtSuccessMeansWritten(target: ResolvedPath, files: map<string, string>, request: FileOperationRequest, io: Io)
    requires IsTarget(target)
    requires CreateAt(target, files, request, io).result.error.None?
    ensures request.fileContent.Some? && !Exists(files, target.name)
    ensures CreateAt(target, files, request, io).files == files[target.name := request.fileContent.value]
  {
    if Exists(files, target.name) {
      assert false;
    } else if request.fileContent.None? {
      assert false;
    } else if io.ioFails {
      assert false;
    }
  }

  /** A `createFile` that reports success has written the request content under a name that was free. */
  lemma CreateSuccessMeansWritten(base: string, files: map<string, string>, request: FileOperationRequest, io: Io)
    requires IsNormalDirectory(base)
    requires Create(base, files, request, io).result.error.None?
    ensures request.fileContent.Some? && SafeName(request.fileName).Success?
    ensures SafeName(request.fileName).value !in files
    ensures Create(base, files, request, io).files == files[SafeName(request.fileName).value := request.fileContent.value]
    ensures Create(base, files, request, io).result.exactPath == ResolvePath(base, request.fileName).value.path
    ensures Create(base, files, request, io).result.fileName == Some(SafeName(request.fileName).value)
  {
    match ResolvePath(base, request.fileName)
    case Failure(_) =>
      assert false;
    case Success(target) =>
      CreateAtSuccessMeansWritten(target, files, request, io);
  }

  /**
   * The converse fails: when the attribute read after the write throws,
   * `createFile` reports an error although it has created the file.
   */
  lemma CreateCanFailAfterWriting(base: string, files: map<string, string>, request: FileOperationRequest, io: Io, name: string)
    requires IsNormalDirectory(base)
    requires SafeName(request.fileName) == Success(name) && !Exists(files, name)
    requires request.fileContent.Some? && !io.ioFails && io.attrs.Failure?
    ensures Create(base, files, request, io).files == files[name := request.fileContent.value]
    ensures Create(base, files, request, io).result.error == Some(ErrorText("create", io.attrs.error))
  {
  }

  /** `readFile` answers "File not found." for a missing entry, and otherwise returns the stored text unchanged. */
  lemma ReadAnswersFromTable(base: string, files: map<string, string>, request: FileOperationRequest, io: Io, name: string)
    requires IsNormalDirectory(base) && SafeName(request.fileName) == Success(name)
    ensures !Exists(files, name) ==> Read(base, files, request, io).error == Some(NotFoundMessage)
    ensures name in files && !io.ioFails && io.attrs.Success? ==>
      && Read(base, files, request, io).error.None?
      && Read(base, files, request, io).content == Some(files[name])
      && Read(base, files, request, io).fileSize == ByteLength(files[name])
      && !Read(base, files, request, io).isDeleted
  {
  }

  /** A `readFile` that reports success returns exactly what the table holds under the resolved name. */
  lemma ReadSuccessMeansStored(base: string, files: map<string, string>, request: FileOperationRequest, io: Io)
    requires IsNormalDirectory(base)
    requires Read(base, files, request, io).error.None?
    ensures SafeName(request.fileName).Success? && SafeName(request.fileName).value in files
    ensures Read(base, files, request, io).content == Some(files[SafeName(request.fileName).value])
    ensures Read(base, files, request, io).exactPath == ResolvePath(base, request.fileName).value.path
    ensures Read(base, files, request, io).fileName == Some(SafeName(request.fileName).value)
  {
  }

  /** After a `createFile` that reports success, `readFile` of the same name gives the content back. */
  lemma CreateThenReadRoundTrip(base: string, files: map<string, string>, request: FileOperationRequest,
                                io: Io, readRequest: FileOperationRequest, readIo: Io)
    requires IsNormalDirectory(base)
    requires Create(base, files, request, io).result.error.None?
    requires readRequest.fileName == request.fileName && !readIo.ioFails && readIo.attrs.Success?
    ensures request.fileContent.Some?
    ensures Read(base, Create(base, files, request, io).files, readRequest, readIo).error.None?
    ensures Read(base, Create(base, files, request, io).files, readRequest, readIo).content == request.fileContent
  {
    CreateSuccessMeansWritten(base, files, request, io);
    ReadAnswersFromTable(base, Create(base, files, request, io).files, readRequest, readIo, SafeName(request.fileName).value);
  }

  /** `editFile` on a missing entry answers "File not found." and writes nothing. */
  lemma EditRefusesMissing(base: string, files: map<string, string>, request: FileOperationRequest, io: Io, name: string)
    requires IsNormalDirectory(base)
    requires SafeName(request.fileName) == Success(name) && !Exists(files, name)
    ensures Edit(base, files, request, io).files == files
    ensures Edit(base, files, request, io).result.error == Some(NotFoundMessage)
  {
  }

  /** `editFile` on an existing file replaces its whole content (no append) and reports the new content. */
  lemma EditReplacesContent(base: string, files: map<string, string>, request: FileOperationRequest, io: Io, name: string)
    requires IsNormalDirectory(base)
    requires SafeName(request.fileName) == Success(name) && name in files
    requires request.fileContent.Some? && !io.ioFails && io.attrs.Success?
    ensures var o := Edit(base, files, request, io);
      && o.files == files[name := request.fileContent.value]
      && o.result.error.None?
      && o.result.content == request.fileContent
      && o.result.fileSize == ByteLength(request.fileContent.value)
      && !o.result.isDeleted
  {
  }

  /** An `editFile` past `resolvePath` that reports success has replaced the content of an existing file. */
  lemma EditAtSuccessMeansWritten(target: ResolvedPath, files: map<string, string>, request: FileOperationRequest, io: Io)
    requires IsTarget(target)
    requires EditAt(target, files, request, io).result.error.None?
    ensures request.fileContent.Some? && target.name in files
    ensures EditAt(target, files, request, io).files == files[target.name := request.fileContent.value]
  {
    if !Exists(files, target.name) {
      assert false;
    } else if request.fileContent.None? {
      assert false;
    } else if io.ioFails || target.name !in files {
      assert false;
    }
  }

  /** An `editFile` that reports success has replaced the content of an existing file. */
  lemma EditSuccessMeansWritten(base: string, files: map<string, string>, request: FileOperationRequest, io: Io)
    requires IsNormalDirectory(base)
    requires Edit(base, files, request, io).result.error.None?
    ensures request.fileContent.Some? && SafeName(request.fileName).Success?
    ensures SafeName(request.fileName).value in files
    ensures Edit(base, files, request, io).files == files[SafeName(request.fileName).value := request.fileContent.value]
    ensures Edit(base, files, request, io).result.exactPath == ResolvePath(base, request.fileName).value.path
    ensures Edit(base, files, request, io).result.fileName == Some(SafeName(request.fileName).value)
  {
    match ResolvePath(base, request.fileName)
    case Failure(_) =>
      assert false;
    case Success(target) =>
      EditAtSuccessMeansWritten(target, files, request, io);
  }

  /** As for `createFile`, an `editFile` whose attribute read throws reports an error after having overwritten the file. */
  lemma EditCanFailAfterWriting(base: string, files: map<string, string>, request: FileOperationRequest, io: Io, name: string)
    requires IsNormalDirectory(base)
    requires SafeName(request.fileName) == Success(name) && name in files
    requires request.fileContent.Some? && !io.ioFails && io.attrs.Failure?
    ensures Edit(base, files, request, io).files == files[name := request.fileContent.value]
    ensures Edit(base, files, request, io).result.error == Some(ErrorText("edit", io.attrs.error))
  {
  }

  /**
   * `deleteFile` on an existing file removes exactly that entry and returns a
   * snapshot with `isDeleted` set, no content, size 0 and the file's
   * attributes as they were before the removal.
   */
  lemma DeleteRemovesFile(base: string, files: map<string, string>, request: FileOperationRequest, io: Io, name: string)
    requires IsNormalDirectory(base)
    requires SafeName(request.fileName) == Success(name) && name in files
    requires !io.ioFails && io.attrs.Success?
    ensures var o := Delete(base, files, request, io);
      && o.files == files - {name}
      && o.result.error.None? && o.result.isDeleted
      && o.result.content.None? && o.result.fileSize == 0
      && o.result.fileName == Some(name)
      && o.result.exactPath == ResolvePath(base, request.fileName).value.path
      && o.result.createdAt == io.attrs.value.creationTime
      && o.result.updatedAt == io.attrs.value.lastModifiedTime
  {
  }

  /** `deleteFile` reports success exactly when it removed the resolved file. */
  lemma DeleteSucceedsIffRemoved(base: string, files: map<string, string>, request: FileOperationRequest, io: Io)
    requires IsNormalDirectory(base)
    ensures Delete(base, files, request, io).result.error.None? <==> Delete(base, files, request, io).files != files
    ensures Delete(base, files, request, io).result.error.None? ==>
      && SafeName(request.fileName).Success?
      && SafeName(request.fileName).value in files
      && Delete(base, files, request, io).files == files - {SafeName(request.fileName).value}
      && Delete(base, files, request, io).result.exactPath == ResolvePath(base, request.fileName).value.path
      && Delete(base, files, request, io).result.fileName == Some(SafeName(request.fileName).value)
  {
  }

  /** After a `deleteFile` that reports success, `readFile` of the same name answers "File not found.". */
  lemma DeleteThenReadNotFound(base: string, files: map<string, string>, request: FileOperationRequest, io: Io,
                               readRequest: FileOperationRequest, readIo: Io)
    requires IsNormalDirectory(base) && IsTable(files)
    requires Delete(base, files, request, io).result.error.None?
    requires readRequest.fileName == request.fileName
    ensures Read(base, Delete(base, files, request, io).files, readRequest, readIo).error == Some(NotFoundMessage)
  {
    DeleteSucceedsIffRemoved(base, files, request, io);
    var name := SafeName(request.fileName).value;
    assert IsEntryName(name);
    ReadAnswersFromTable(base, Delete(base, files, request, io).files, readRequest, readIo, name);
  }

  // ---------------------------------------------------------------------
  // The error boundary
  // ---------------------------------------------------------------------

  /**
   * A name `resolvePath` refuses (blank, holding a NUL, or made of separators
   * only) makes every operation answer the `handleError` value for that
   * fault, and nothing changes.
   */
  lemma RefusedNameIsReported(base: string, files: map<string, string>, request: FileOperationRequest, io: Io)
    requires IsNormalDirectory(base) && SafeName(request.fileName).Failure?
    ensures Create(base, files, request, io) == Outcome(HandleError("create", request.fileName, SafeName(request.fileName).error, io), files)
    ensures Read(base, files, request, io) == HandleError("read", request.fileName, SafeName(request.fileName).error, io)
    ensures Edit(base, files, request, io) == Outcome(HandleError("edit", request.fileName, SafeName(request.fileName).error, io), files)
    ensures Delete(base, files, request, io) == Outcome(HandleError("delete", request.fileName, SafeName(request.fileName).error, io), files)
  {
  }

  /** `createFile` on a free name: a null content or a failing write is reported, and nothing is written. */
  lemma CreateFaultsAreReported(base: string, files: map<string, string>, request: FileOperationRequest, io: Io, name: string)
    requires IsNormalDirectory(base) && SafeName(request.fileName) == Success(name) && !Exists(files, name)
    ensures request.fileContent.None? ==>
      Create(base, files, request, io) == Outcome(HandleError("create", request.fileName, NullTextMessage, io), files)
    ensures request.fileContent.Some? && io.ioFails ==>
      Create(base, files, request, io) == Outcome(HandleError("create", request.fileName, io.ioMessage, io), files)
  {
  }

  /**
   * `readFile` on an existing entry: a failing read, or an entry that is not a
   * file, is reported with the read's message; a failing attribute read with
   * its own message.
   */
  lemma ReadFaultsAreReported(base: string, files: map<string, string>, request: FileOperationRequest, io: Io, name: string)
    requires IsNormalDirectory(base) && SafeName(request.fileName) == Success(name) && Exists(files, name)
    ensures io.ioFails || name !in files ==>
      Read(base, files, request, io) == HandleError("read", request.fileName, io.ioMessage, io)
    ensures name in files && !io.ioFails && io.attrs.Failure? ==>
      Read(base, files, request, io) == HandleError("read", request.fileName, io.attrs.error, io)
  {
  }

  /** `editFile` on an existing entry: a null content, a failing write or an entry that is not a file is reported, and nothing is written. */
  lemma EditFaultsAreReported(base: string, files: map<string, string>, request: FileOperationRequest, io: Io, name: string)
    requires IsNormalDirectory(base) && SafeName(request.fileName) == Success(name) && Exists(files, name)
    ensures request.fileContent.None? ==>
      Edit(base, files, request, io) == Outcome(HandleError("edit", request.fileName, NullTextMessage, io), files)
    ensures request.fileContent.Some? && (io.ioFails || name !in files) ==>
      Edit(base, files, request, io) == Outcome(HandleError("edit", request.fileName, io.ioMessage, io), files)
  {
  }

  /**
   * `deleteFile` on an existing entry: a failing attribute read stops it
   * before the removal; a failing removal, or an entry that is not a file, is
   * reported with the removal's message.  Either way nothing is removed.
   */
  lemma DeleteFaultsAreReported(base: string, files: map<string, string>, request: FileOperationRequest, io: Io, name: string)
    requires IsNormalDirectory(base) && SafeName(request.fileName) == Success(name) && Exists(files, name)
    ensures io.attrs.Failure? ==>
      Delete(base, files, request, io) == Outcome(HandleError("delete", request.fileName, io.attrs.error, io), files)
    ensures io.attrs.Success? && (io.ioFails || name !in files) ==>
      Delete(base, files, request, io) == Outcome(HandleError("delete", request.fileName, io.ioMessage, io), files)
  {
  }

  /** Past resolution, an error from `createFile` is its guard's message or a fault report. */
  lemma CreateAtErrorIsGuardOrFault(target: ResolvedPath, files: map<string, string>, request: FileOperationRequest, io: Io)
    requires IsTarget(target)
    ensures var e := CreateAt(target, files, request, io).result.error;
      e.Some? ==> e.value == AlreadyExistsMessage || IsFaultReport("create", e.value)
  {
  }

  /** Every error `createFile` answers is "File already exists." or a fault report for "create". */
  lemma CreateErrorIsGuardOrFault(base: string, files: map<string, string>, request: FileOperationRequest, io: Io)
    requires IsNormalDirectory(base)
    ensures var e := Create(base, files, request, io).result.error;
      e.Some? ==> e.value == AlreadyExistsMessage || IsFaultReport("create", e.value)
  {
    match ResolvePath(base, request.fileName)
    case Failure(_) =>
    case Success(target) =>
      CreateAtErrorIsGuardOrFault(target, files, request, io);
  }

  /** Past resolution, an error from `readFile` is its guard's message or a fault report. */
  lemma ReadAtErrorIsGuardOrFault(target: ResolvedPath, files: map<string, string>, request: FileOperationRequest, io: Io)
    requires IsTarget(target)
    ensures var e := ReadAt(target, files, request, io).error;
      e.Some? ==> e.value == NotFoundMessage || IsFaultReport("read", e.value)
  {
  }

  /** Every error `readFile` answers is "File not found." or a fault report for "read". */
  lemma ReadErrorIsGuardOrFault(base: string, files: map<string, string>, request: FileOperationRequest, io: Io)
    requires IsNormalDirectory(base)
    ensures var e := Read(base, files, request, io).error;
      e.Some? ==> e.value == NotFoundMessage || IsFaultReport("read", e.value)
  {
    match ResolvePath(base, request.fileName)
    case Failure(_) =>
    case Success(target) =>
      ReadAtErrorIsGuardOrFault(target, files, request, io);
  }

  /** Past resolution, an error from `editFile` is its guard's message or a fault report. */
  lemma EditAtErrorIsGuardOrFault(target: ResolvedPath, files: map<string, string>, request: FileOperationRequest, io: Io)
    requires IsTarget(target)
    ensures var e := EditAt(target, files, request, io).result.error;
      e.Some? ==> e.value == NotFoundMessage || IsFaultReport("edit", e.value)
  {
  }

  /** Every error `editFile` answers is "File not found." or a fault report for "edit". */
  lemma EditErrorIsGuardOrFault(base: string, files: map<string, string>, request: FileOperationRequest, io: Io)
    requires IsNormalDirectory(base)
    ensures var e := Edit(base, files, request, io).result.error;
      e.Some? ==> e.value == NotFoundMessage || IsFaultReport("edit", e.value)
  {
    match ResolvePath(base, request.fileName)
    case Failure(_) =>
    case Success(target) =>
      EditAtErrorIsGuardOrFault(target, files, request, io);
  }

  /** Past resolution, an error from `deleteFile` is its guard's message or a fault report. */
  lemma DeleteAtErrorIsGuardOrFault(target: ResolvedPath, files: map<string, string>, request: FileOperationRequest, io: Io)
    requires IsTarget(target)
    ensures var e := DeleteAt(target, files, request, io).result.error;
      e.Some? ==> e.value == NotFoundMessage || IsFaultReport("delete", e.value)
  {
  }

  /** Every error `deleteFile` answers is "File not found." or a fault report for "delete". */
  lemma DeleteErrorIsGuardOrFault(base: string, files: map<string, string>, request: FileOperationRequest, io: Io)
    requires IsNormalDirectory(base)
    ensures var e := Delete(base, files, request, io).result.error;
      e.Some? ==> e.value == NotFoundMessage || IsFaultReport("delete", e.value)
  {
    match ResolvePath(base, request.fileName)
    case Failure(_) =>
    case Success(target) =>
      DeleteAtErrorIsGuardOrFault(target, files, request, io);
  }

  // ---------------------------------------------------------------------
  // Concrete names
  // ---------------------------------------------------------------------

  /** A non-blank name without separator or NUL is kept as it is, surrounding whitespace included. */
  lemma SafeNameOfPlainName(name: string)
    requires IsSegment(name) && !IsBlank(name)
    ensures SafeName(Some(name)) == Success(name)
  {
    FileNameOfLastElement([], name);
  }

  /** A name ending in a separator and a plain element keeps only that element. */
  lemma SafeNameOfNestedName(dir: string, name: string)
    requires '\0' !in dir && IsSegment(name)
    ensures SafeName(Some(dir + "/" + name)) == Success(name)
  {
    var p := dir + "/" + name;
    assert !IsBlank(p) by { assert p[|dir|] == '/'; }
    assert '\0' !in p by { assert p == dir + ("/" + name); }
    FileNameOfLastElement(dir, name);
  }

  /** Parent segments before the last element are dropped, so the name cannot climb out. */
  lemma SafeNameDropsParents()
    ensures SafeName(Some("../../etc/passwd")) == Success("passwd")
  {
    assert "../../etc/passwd" == "../../etc" + "/" + "passwd";
    SafeNameOfNestedName("../../etc", "passwd");
  }

  /** Directory parts before the last element are dropped. */
  lemma SafeNameDropsDirectories()
    ensures SafeName(Some("sub/dir/name.txt")) == Success("name.txt")
  {
    assert "sub/dir/name.txt" == "sub/dir" + "/" + "name.txt";
    SafeNameOfNestedName("sub/dir", "name.txt");
  }

  /** An absolute name keeps its last element too. */
  lemma SafeNameOfAbsoluteName()
    ensures SafeName(Some("/etc/passwd")) == Success("passwd")
  {
    assert "/etc/passwd" == "/etc" + "/" + "passwd";
    SafeNameOfNestedName("/etc", "passwd");
  }

  /** A final `..` is kept as it is: confinement is lexical only. */
  lemma SafeNameKeepsFinalDotDot()
    ensures SafeName(Some("../..")) == Success("..")
  {
    assert "../.." == ".." + "/" + "..";
    SafeNameOfNestedName("..", "..");
  }

  /** A name made of separators only has no file name. */
  lemma SafeNameOfSeparatorsOnly()
    ensures SafeName(Some("//")) == Failure(NoFileNameMessage)
  {
    var p := "//";
    assert !IsBlank(p) by { assert !IsJavaWhitespace(p[0]); }
    assert '\0' !in p by { assert forall i | 0 <= i < |p| :: p[i] == '/'; }
    assert FileName(p) == None;
  }

  lemma SingletonUpdates(name: string, first: string, second: string)
    ensures map[name := first][name := second] == map[name := second]
    ensures map[name := second] - {name} == map[]
  {
  }

  /**
   * The life of one file in an empty directory: created, read, edited,
   * deleted, and then not found any more.
   */
  lemma FileLifecycle(base: string, name: string, first: string, second: string, io: Io)
    requires IsNormalDirectory(base) && SafeName(Some(name)) == Success(name) && !IsDotEntry(name)
    requires !io.ioFails && io.attrs.Success?
    ensures var created := Create(base, map[], FileOperationRequest(Some(name), Some(first)), io);
      var read := Read(base, created.files, FileOperationRequest(Some(name), None), io);
      var edited := Edit(base, created.files, FileOperationRequest(Some(name), Some(second)), io);
      var deleted := Delete(base, edited.files, FileOperationRequest(Some(name), None), io);
      var reread := Read(base, deleted.files, FileOperationRequest(Some(name), None), io);
      && created.result.error.None? && created.result.content == Some(first)
      && created.result.fileSize == ByteLength(first)
      && read.error.None? && read.content == Some(first)
      && edited.result.error.None? && edited.result.content == Some(second)
      && edited.result.fileSize == ByteLength(second)
      && deleted.result.error.None? && deleted.result.isDeleted && deleted.result.content.None?
      && deleted.files == map[]
      && reread.error == Some(NotFoundMessage)
  {
    var query := FileOperationRequest(Some(name), None);
    var create := FileOperationRequest(Some(name), Some(first));
    CreateWritesNewFile(base, map[], create, io, name);
    var created := Create(base, map[], create, io);
    ReadAnswersFromTable(base, created.files, query, io, name);
    var edit := FileOperationRequest(Some(name), Some(second));
    EditReplacesContent(base, created.files, edit, io, name);
    var edited := Edit(base, created.files, edit, io);
    SingletonUpdates(name, first, second);
    DeleteRemovesFile(base, edited.files, query, io, name);
    var deleted := Delete(base, edited.files, query, io);
    ReadAnswersFromTable(base, deleted.files, query, io, name);
  }

  /** The plain name of the walk-through is kept as it is, and the sizes of its two contents. */
  lemma NotesWalkThrough()
    ensures SafeName(Some("notes.txt")) == Success("notes.txt")
    ensures ByteLength("hello") == 5 && ByteLength("bye") == 3
  {
    assert !IsJavaWhitespace("notes.txt"[0]);
    SafeNameOfPlainName("notes.txt");
  }

  // ---------------------------------------------------------------------
  // The service object
  // ---------------------------------------------------------------------

  /** The service: a fixed base directory and the files in it. */
  class FileOperationsMcp {
    const baseDir: string
    var files: map<string, string>

    ghost predicate Valid()
      reads this
    {
      IsNormalDirectory(baseDir) && IsTable(files)
    }

    constructor (baseDir: string, files: map<string, string>)
      requires IsNormalDirectory(baseDir) && IsTable(files)
      ensures Valid() && this.baseDir == baseDir && this.files == files
    {
      this.baseDir := baseDir;
      this.files := files;
    }

    method CreateFile(request: FileOperationRequest, io: Io) returns (r: FileMetadata)
      requires Valid()
      modifies this
      ensures Valid()
      ensures r == Create(baseDir, old(files), request, io).result
      ensures files == Create(baseDir, old(files), request, io).files
      ensures old(files).Keys <= files.Keys && forall k :: k in old(files) ==> files[k] == old(files)[k]
    {
      CreateOnlyAdds(baseDir, files, request, io);
      var resolved := ResolvePath(baseDir, request.fileName);
      if resolved.Failure? {
        return HandleError("create", request.fileName, resolved.error, io);
      }
      var path, name := resolved.value.path, resolved.value.name;
      if Exists(files, name) {
        return Error(request.fileName, AlreadyExistsMessage, io.errorCreatedAt, io.errorUpdatedAt);
      }
      if request.fileContent.None? {
        return HandleError("create", request.fileName, NullTextMessage, io);
      }
      if io.ioFails {
        return HandleError("create", request.fileName, io.ioMessage, io);
      }
      files := files[name := request.fileContent.value];
      var meta := FromPath(path, request.fileContent, false, io.attrs);
      if meta.Failure? {
        return HandleError("create", request.fileName, meta.error, io);
      }
      return meta.value;
    }

    method ReadFile(request: FileOperationRequest, io: Io) returns (r: FileMetadata)
      requires Valid()
      ensures r == Read(baseDir, files, request, io)
      ensures r.error.None? ==> r.content == Some(files[SafeName(request.fileName).value])
    {
      var resolved := ResolvePath(baseDir, request.fileName);
      if resolved.Failure? {
        return HandleError("read", request.fileName, resolved.error, io);
      }
      var path, name := resolved.value.path, resolved.value.name;
      if !Exists(files, name) {
        return Error(request.fileName, NotFoundMessage, io.errorCreatedAt, io.errorUpdatedAt);
      }
      if io.ioFails || name !in files {
        return HandleError("read", request.fileName, io.ioMessage, io);
      }
      var content := files[name];
      var meta := FromPath(path, Some(content), false, io.attrs);
      if meta.Failure? {
        return HandleError("read", request.fileName, meta.error, io);
      }
      return meta.value;
    }

    method EditFile(request: FileOperationRequest, io: Io) returns (r: FileMetadata)
      requires Valid()
      modifies this
      ensures Valid()
      ensures r == Edit(baseDir, old(files), request, io).result
      ensures files == Edit(baseDir, old(files), request, io).files
      ensures files.Keys == old(files).Keys
    {
      EditKeepsEntries(baseDir, files, request, io);
      var resolved := ResolvePath(baseDir, request.fileName);
      if resolved.Failure? {
        return HandleError("edit", request.fileName, resolved.error, io);
      }
      var path, name := resolved.value.path, resolved.value.name;
      if !Exists(files, name) {
        return Error(request.fileName, NotFoundMessage, io.errorCreatedAt, io.errorUpdatedAt);
      }
      if request.fileContent.None? {
        return HandleError("edit", request.fileName, NullTextMessage, io);
      }
      if io.ioFails || name !in files {
        return HandleError("edit", request.fileName, io.ioMessage, io);
      }
      files := files[name := request.fileContent.value];
      var meta := FromPath(path, request.fileContent, false, io.attrs);
      if meta.Failure? {
        return HandleError("edit", request.fileName, meta.error, io);
      }
      return meta.value;
    }

    method DeleteFile(request: FileOperationRequest, io: Io) returns (r: FileMetadata)
      requires Valid()
      modifies this
      ensures Valid()
      ensures r == Delete(baseDir, old(files), request, io).result
      ensures files == Delete(baseDir, old(files), request, io).files
      ensures files.Keys <= old(files).Keys && forall k :: k in files ==> files[k] == old(files)[k]
    {
      DeleteOnlyRemoves(baseDir, files, request, io);
      var resolved := ResolvePath(baseDir, request.fileName);
      if resolved.Failure? {
        return HandleError("delete", request.fileName, resolved.error, io);
      }
      var path, name := resolved.value.path, resolved.value.name;
      if !Exists(files, name) {
        return Error(request.fileName, NotFoundMessage, io.errorCreatedAt, io.errorUpdatedAt);
      }
      var snapshot := FromPath(path, None, true, io.attrs);
      if snapshot.Failure? {
        return HandleError("delete", request.fileName, snapshot.error, io);
      }
      if io.ioFails || name !in files {
        return HandleError("delete", request.fileName, io.ioMessage, io);
      }
      files := files - {name};
      return snapshot.value;
    }
  }
}
