/**
 * The values exchanged at the service boundary: the request record, the file
 * attributes read from disk, and the `FileMetadata` record with its two
 * factories.
 */
module Dto {
  import opened Wrappers
  import opened UnixPaths

  /** A point on the time line (`java.time.Instant`), in nanoseconds since the epoch. */
  type Instant = int

  /** The input of every operation; either field may be null. */
  datatype FileOperationRequest = FileOperationRequest(fileName: Option<string>, fileContent: Option<string>)

  /** The two `BasicFileAttributes` that `fromPath` keeps. */
  datatype Attributes = Attributes(creationTime: Instant, lastModifiedTime: Instant)

  /** The result of every operation. `fileName`, `content` and `error` may be null. */
  datatype FileMetadata = FileMetadata(
    fileName: Option<string>,
    exactPath: string,
    fileSize: nat,
    createdAt: Instant,
    updatedAt: Instant,
    content: Option<string>,
    isDeleted: bool,
    error: Option<string>)

  /** The sentinel path of an error value. */
  const UnknownPath := "Unknown"

  /** Number of bytes UTF-8 uses for one code point. */
  function Utf8Width(c: char): nat {
    if c as int < 0x80 then 1
    else if c as int < 0x800 then 2
    else if c as int < 0x1_0000 then 3
    else 4
  }

  /**
   * `s.getBytes().length` with UTF-8 as the default charset: at least one and
   * at most four bytes per character, and exactly one byte per character
   * precisely when every character is ASCII.
   */
  function ByteLength(s: string): (n: nat)
    ensures |s| <= n <= 4 * |s|
    ensures n == |s| <==> forall i :: 0 <= i < |s| ==> s[i] as int < 0x80
  {
    if s == [] then 0
    else
      var n := Utf8Width(s[0]) + ByteLength(s[1..]);
      assert forall i :: 1 <= i < |s| ==> s[i] == s[1..][i - 1];
      n
  }

  /** The `fileSize` reported for a content that may be null. */
  function SizeOf(content: Option<string>): (n: nat)
    ensures content.None? ==> n == 0
    ensures content.Some? ==> |content.value| <= n <= 4 * |content.value|
  {
    match content
    case None => 0
    case Some(s) => ByteLength(s)
  }

  /**
   * The two shapes a `FileMetadata` takes.  An error value carries the
   * sentinel path, no content, size 0 and is not a deletion; a success value
   * has a name that is the last element of its absolute path, and a size that
   * is the byte length of its content.
   */
  predicate WellFormed(m: FileMetadata) {
    match m.error
    case Some(_) =>
      m.exactPath == UnknownPath && m.fileSize == 0 && m.content.None? && !m.isDeleted
    case None =>
      IsAbsolute(m.exactPath) && m.fileName.Some? && m.fileName == FileName(m.exactPath)
      && '/' !in m.fileName.value && m.fileSize == SizeOf(m.content)
  }

  /**
   * `FileMetadata.fromPath`: the attribute read either fails, and its message
   * is passed on, or gives a success value describing `path` whose content
   * and deletion flag are the caller's.
   */
  function FromPath(path: string, content: Option<string>, isDeleted: bool, attrs: Result<Attributes, string>): (r: Result<FileMetadata, string>)
    requires IsAbsolute(path) && FileName(path).Some?
    ensures attrs.Failure? <==> r.Failure?
    ensures attrs.Failure? ==> r.error == attrs.error
    ensures r.Success? ==>
      && WellFormed(r.value)
      && r.value.error.None?
      && r.value.fileName == FileName(path)
      && r.value.exactPath == path
      && r.value.fileSize == SizeOf(content)
      && r.value.createdAt == attrs.value.creationTime
      && r.value.updatedAt == attrs.value.lastModifiedTime
      && r.value.content == content
      && r.value.isDeleted == isDeleted
  {
    match attrs
    case Failure(e) => Failure(e)
    case Success(a) =>
      Success(FileMetadata(FileName(path), path, SizeOf(content), a.creationTime, a.lastModifiedTime,
                           content, isDeleted, None))
  }

  /**
   * `FileMetadata.error`: keeps the caller's name as given, and fills the
   * rest with the error shape.  `createdAt` and `updatedAt` are the two clock
   * readings the factory takes.
   */
  function Error(fileName: Option<string>, errorMessage: string, createdAt: Instant, updatedAt: Instant): (m: FileMetadata)
    ensures WellFormed(m)
    ensures m.error == Some(errorMessage)
    ensures m.fileName == fileName
    ensures m.exactPath == UnknownPath && m.fileSize == 0 && m.content.None? && !m.isDeleted
    ensures m.createdAt == createdAt && m.updatedAt == updatedAt
  {
    FileMetadata(fileName, UnknownPath, 0, createdAt, updatedAt, None, false, Some(errorMessage))
  }
}
