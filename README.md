# File-operations service, modelled in Dafny

The service exposes four operations on the files of one fixed base directory:
`createFile`, `readFile`, `editFile` and `deleteFile`. Each takes a
`FileOperationRequest(fileName, fileContent)` and answers with a `FileMetadata`
record. For a non-null request, no operation raises past its boundary. A name is first reduced by
`resolvePath` to its last path element and joined to the base directory. An
existence guard follows. `createFile`, `readFile` and `editFile` then make the
file-system call and build the result with `FileMetadata.fromPath`;
`deleteFile` builds its snapshot with `fromPath` first and removes the file
afterwards. The guards answer with `FileMetadata.error` directly, with
"File already exists." or "File not found.". Every exception goes through
`handleError`, which builds the value `FileMetadata.error` returns, with the
message `"Error during <op>: <message>"`.

The model has four modules:

- `Wrappers`: `Option` (Java's `null`) and `Result` (a value or an exception's message).
- `UnixPaths`: the lexical behaviour of `Path.getFileName` and `Path.resolve` on
  Unix paths. It also has `Path.getParent`, which the service never calls; it
  only states that the resolved path's parent is the base directory.
- `Dto`: the request and metadata records, the two factories, and the UTF-8
  byte length behind `fileSize`.
- `Mcp`: `resolvePath`, `handleError` and the four operations.

The base directory is a table `map<string, string>` from the name of a regular
file directly inside it to that file's text. The entries `.` and `..` always
exist, because `Files.exists` is true of the base directory and its parent, but
they are not files.

Each operation exists in two forms:

- a pure reference function (`Create`, `Read`, `Edit`, `Delete`), which maps
  the table and the request to the answer and the new table;
- a method of the class `FileOperationsMcp`, which updates the `files` field in
  place, step by step as the Java code does, and whose `ensures` ties the
  answer and the new table to the reference function.

What the file system answers to the calls an operation makes is an `Io` record
passed in. It holds the outcome of `readAttributes` (two timestamps, or an
exception message), whether the write, read or delete call throws and with
which message, and the two `Instant.now()` readings of `FileMetadata.error`.

Three behaviours of the code are easy to misread:

- `createFile` and `editFile` write before they read the attributes. When
  `readAttributes` then throws, they report an error although the file was
  written (`CreateCanFailAfterWriting`, `EditCanFailAfterWriting`). "An error
  exactly when nothing happened" holds only for `deleteFile`
  (`DeleteSucceedsIffRemoved`). For create and edit, only "success implies
  written" holds.
- The snapshot `deleteFile` returns is built with a null content, so its
  `fileSize` is 0, not the pre-deletion size.
- Confinement is lexical only. The kept name never contains a separator, and
  the resolved path's lexical parent is the base directory. A final `..` or
  `.` is kept as the name, however (`SafeNameKeepsFinalDotDot`), and such a
  path denotes the base directory's parent or the base directory itself.

## Model

| member | source | states |
|---|---|---|
| UnixPaths.FileName | src/main/java/com/bootcamptoprod/mcp/FileOperationsMcp.java:157 | `getFileName()` is null exactly for a non-empty path made only of separators. Otherwise the name has no separator, is non-empty for a non-empty path, and has no NUL when the path has none. |
| UnixPaths.FileNameIsLastElement | src/main/java/com/bootcamptoprod/mcp/FileOperationsMcp.java:157 | When a non-empty path has a file name, that name appears in the path at the start or right after a separator, and only separators follow it. With the name non-empty and free of separators, this is the last element, also when separators trail it (`a/b/` gives `b`). |
| UnixPaths.Resolve | src/main/java/com/bootcamptoprod/mcp/FileOperationsMcp.java:158 | `resolve` returns an absolute argument unchanged, and keeps an absolute base absolute. |
| UnixPaths.FileNameOfLastElement | src/main/java/com/bootcamptoprod/mcp/FileOperationsMcp.java:157 | A single element is its own file name, and it is the file name of any path ending in a separator followed by it. |
| UnixPaths.ResolveInDirectory | src/main/java/com/bootcamptoprod/mcp/FileOperationsMcp.java:158 | Resolving one element against a normal directory gives the directory, a separator and the element. The file name of the result is the element and its parent is the directory. |
| Dto.ByteLength | src/main/java/com/bootcamptoprod/dto/FileMetadata.java:34 | The UTF-8 length of a text is between its length and four times its length. It equals the length exactly when every character is ASCII. |
| Dto.SizeOf | src/main/java/com/bootcamptoprod/dto/FileMetadata.java:34 | The size of a null content is 0. Otherwise it is within the bounds of its byte length. |
| Dto.FromPath | src/main/java/com/bootcamptoprod/dto/FileMetadata.java:26-41 | `fromPath` fails exactly when the attribute read fails, and passes on its message. Otherwise it gives a well-formed value with no error, the path's file name, the path itself, the byte length of the content, the two attribute timestamps, and the content and deletion flag as given. |
| Dto.Error | src/main/java/com/bootcamptoprod/dto/FileMetadata.java:46-57 | `error` keeps the caller's name as given and sets path "Unknown", size 0, null content, not deleted, the message, and the two clock readings. |
| Mcp.SafeName | src/main/java/com/bootcamptoprod/mcp/FileOperationsMcp.java:152-157 | A null or blank name gives "Filename cannot be empty". The kept name exists exactly for a non-blank name with no NUL and a file name. It is then a single element equal to that file name. |
| Mcp.ResolvePath | src/main/java/com/bootcamptoprod/mcp/FileOperationsMcp.java:152-159 | `resolvePath` succeeds exactly when a name is kept, and otherwise fails with the same message. Its result is absolute: the base directory, a separator and the kept name. Its parent is the base directory and its file name is the kept name. |
| Mcp.ErrorText | src/main/java/com/bootcamptoprod/mcp/FileOperationsMcp.java:165 | The message starts with "Error during <op>: " and the rest is the fault's message. |
| Mcp.HandleError | src/main/java/com/bootcamptoprod/mcp/FileOperationsMcp.java:164-168 | `handleError` gives a well-formed error value with the caller's name, path "Unknown" and the prefixed message. |
| Mcp.CreateAt | src/main/java/com/bootcamptoprod/mcp/FileOperationsMcp.java:43-56 | Once the path is resolved, `createFile` gives a well-formed answer. The table either stays as it was, or gains the content under a name that did not exist. A success reports the resolved path and name. |
| Mcp.ReadAt | src/main/java/com/bootcamptoprod/mcp/FileOperationsMcp.java:73-83 | Once the path is resolved, a successful `readFile` returns the text stored under the name, the resolved path and name, and is not a deletion. |
| Mcp.EditAt | src/main/java/com/bootcamptoprod/mcp/FileOperationsMcp.java:100-113 | Once the path is resolved, `editFile` either leaves the table as it was or replaces the text of an existing file with the request content. A success reports the resolved path and name. |
| Mcp.DeleteAt | src/main/java/com/bootcamptoprod/mcp/FileOperationsMcp.java:130-143 | Once the path is resolved, `deleteFile` succeeds exactly when it changes the table. A change removes exactly the existing entry. A success reports the resolved path and name. |
| Mcp.Create | src/main/java/com/bootcamptoprod/mcp/FileOperationsMcp.java:37-58 | `createFile` always answers with a well-formed value, success or error. |
| Mcp.Read | src/main/java/com/bootcamptoprod/mcp/FileOperationsMcp.java:68-85 | `readFile` always answers with a well-formed value. |
| Mcp.Edit | src/main/java/com/bootcamptoprod/mcp/FileOperationsMcp.java:95-115 | `editFile` always answers with a well-formed value. |
| Mcp.Delete | src/main/java/com/bootcamptoprod/mcp/FileOperationsMcp.java:125-145 | `deleteFile` always answers with a well-formed value. |
| Mcp.CreateAtOnlyAdds | src/main/java/com/bootcamptoprod/mcp/FileOperationsMcp.java:43-54 | Past resolution, `createFile` changes no entry but the target's. It keeps every existing entry and its text, and a table of plain file names stays one. |
| Mcp.CreateOnlyAdds | src/main/java/com/bootcamptoprod/mcp/FileOperationsMcp.java:37-58 | A refused name leaves the table unchanged. Otherwise only the kept name's entry can change, no existing entry is lost or overwritten, and the table keeps holding plain file names. |
| Mcp.EditAtKeepsEntries | src/main/java/com/bootcamptoprod/mcp/FileOperationsMcp.java:100-111 | Past resolution, `editFile` changes no entry but the target's and keeps the set of names. |
| Mcp.EditKeepsEntries | src/main/java/com/bootcamptoprod/mcp/FileOperationsMcp.java:95-115 | `editFile` never adds or removes an entry. A refused name changes nothing; otherwise only the kept name's entry can change. |
| Mcp.DeleteAtOnlyRemoves | src/main/java/com/bootcamptoprod/mcp/FileOperationsMcp.java:130-141 | Past resolution, `deleteFile` changes no entry but the target's, adds nothing, and keeps the text of what remains. |
| Mcp.DeleteOnlyRemoves | src/main/java/com/bootcamptoprod/mcp/FileOperationsMcp.java:125-145 | A refused name changes nothing. Otherwise only the kept name can disappear, and every remaining entry keeps its text. |
| Mcp.BlankNameIsRefused | src/main/java/com/bootcamptoprod/mcp/FileOperationsMcp.java:152-155 | For a null or blank name, each of the four operations returns the "Filename cannot be empty" error from `handleError` and leaves the table unchanged. |
| Mcp.CreateRefusesExisting | src/main/java/com/bootcamptoprod/mcp/FileOperationsMcp.java:43-46 | `createFile` on an existing entry answers "File already exists." with the caller's name and changes nothing. |
| Mcp.CreateWritesNewFile | src/main/java/com/bootcamptoprod/mcp/FileOperationsMcp.java:48-54 | `createFile` on a free name maps it to the content, with no other change. It answers with success: the kept name, the resolved path, the content, its byte length, not deleted. |
| Mcp.CreateAtSuccessMeansWritten | src/main/java/com/bootcamptoprod/mcp/FileOperationsMcp.java:43-54 | Past resolution, a successful `createFile` had content and a free target, and added exactly that entry. |
| Mcp.CreateSuccessMeansWritten | src/main/java/com/bootcamptoprod/mcp/FileOperationsMcp.java:37-58 | A successful `createFile` had a kept name that was free and a content, and added exactly that entry. Its answer carries the resolved path (base directory, separator, kept name) and the kept name. |
| Mcp.CreateCanFailAfterWriting | src/main/java/com/bootcamptoprod/mcp/FileOperationsMcp.java:51-56 | When the attribute read after the write throws, `createFile` has added the file and still answers "Error during create: " with that message. |
| Mcp.ReadAnswersFromTable | src/main/java/com/bootcamptoprod/mcp/FileOperationsMcp.java:73-81 | `readFile` on a missing name answers "File not found.". On a stored file it answers with its text, the text's byte length, and not deleted. |
| Mcp.ReadSuccessMeansStored | src/main/java/com/bootcamptoprod/mcp/FileOperationsMcp.java:68-85 | A successful `readFile` has a kept name that is in the table, and returns exactly the text stored there, with the resolved path and the kept name. |
| Mcp.CreateThenReadRoundTrip | src/main/java/com/bootcamptoprod/mcp/FileOperationsMcp.java:37-85 | After a successful `createFile`, `readFile` of the same name succeeds and returns the content written. |
| Mcp.EditRefusesMissing | src/main/java/com/bootcamptoprod/mcp/FileOperationsMcp.java:100-103 | `editFile` on a missing name answers "File not found." and writes nothing. |
| Mcp.EditReplacesContent | src/main/java/com/bootcamptoprod/mcp/FileOperationsMcp.java:105-111 | `editFile` on a stored file replaces its whole text by the request content, not appending. It answers with the new content and its byte length. |
| Mcp.EditAtSuccessMeansWritten | src/main/java/com/bootcamptoprod/mcp/FileOperationsMcp.java:100-111 | Past resolution, a successful `editFile` had content and an existing file, and replaced exactly its text. |
| Mcp.EditSuccessMeansWritten | src/main/java/com/bootcamptoprod/mcp/FileOperationsMcp.java:95-115 | A successful `editFile` had content and an existing file under the kept name, and replaced exactly its text. Its answer carries the resolved path and the kept name. |
| Mcp.EditCanFailAfterWriting | src/main/java/com/bootcamptoprod/mcp/FileOperationsMcp.java:108-113 | When the attribute read after the write throws, `editFile` has overwritten the file and still answers "Error during edit: " with that message. |
| Mcp.DeleteRemovesFile | src/main/java/com/bootcamptoprod/mcp/FileOperationsMcp.java:135-141 | `deleteFile` on a stored file removes exactly that entry. It returns a snapshot: not an error, deleted, null content, size 0, the kept name, the resolved path, and the attribute timestamps read before the removal. |
| Mcp.DeleteSucceedsIffRemoved | src/main/java/com/bootcamptoprod/mcp/FileOperationsMcp.java:125-145 | `deleteFile` reports success exactly when it changed the table. It then removed exactly the kept name's file, and its snapshot carries the resolved path and the kept name. |
| Mcp.DeleteThenReadNotFound | src/main/java/com/bootcamptoprod/mcp/FileOperationsMcp.java:68-145 | After a successful `deleteFile`, `readFile` of the same name answers "File not found.". |
| Mcp.RefusedNameIsReported | src/main/java/com/bootcamptoprod/mcp/FileOperationsMcp.java:152-157 | A name `resolvePath` refuses (blank, with a NUL, or only separators) makes each of the four operations answer `handleError` of that fault's message and leave the table unchanged. |
| Mcp.CreateFaultsAreReported | src/main/java/com/bootcamptoprod/mcp/FileOperationsMcp.java:48-56 | On a free name, a null content and a failing write each give the `handleError` value with their message ("null" or the write's), and nothing is written. |
| Mcp.ReadFaultsAreReported | src/main/java/com/bootcamptoprod/mcp/FileOperationsMcp.java:78-83 | On an existing entry, a failing read (or an entry that is not a file) gives the `handleError` value with the read's message, and a failing attribute read gives it with that message. |
| Mcp.EditFaultsAreReported | src/main/java/com/bootcamptoprod/mcp/FileOperationsMcp.java:105-113 | On an existing entry, a null content, a failing write, or an entry that is not a file gives the `handleError` value with its message, and nothing is written. |
| Mcp.DeleteFaultsAreReported | src/main/java/com/bootcamptoprod/mcp/FileOperationsMcp.java:136-143 | On an existing entry, a failing attribute read stops the operation before the removal. A failing removal, or an entry that is not a file, gives the `handleError` value with the removal's message. Nothing is removed in either case. |
| Mcp.CreateAtErrorIsGuardOrFault | src/main/java/com/bootcamptoprod/mcp/FileOperationsMcp.java:43-56 | Once the path is resolved, every `createFile` error is "File already exists." or a fault report for "create". |
| Mcp.CreateErrorIsGuardOrFault | src/main/java/com/bootcamptoprod/mcp/FileOperationsMcp.java:37-58 | Every `createFile` error is "File already exists." or a fault report for "create": no fault escapes the boundary unconverted. |
| Mcp.ReadAtErrorIsGuardOrFault | src/main/java/com/bootcamptoprod/mcp/FileOperationsMcp.java:73-83 | Once the path is resolved, every `readFile` error is "File not found." or a fault report for "read". |
| Mcp.ReadErrorIsGuardOrFault | src/main/java/com/bootcamptoprod/mcp/FileOperationsMcp.java:68-85 | Every `readFile` error is "File not found." or a fault report for "read". |
| Mcp.EditAtErrorIsGuardOrFault | src/main/java/com/bootcamptoprod/mcp/FileOperationsMcp.java:100-113 | Once the path is resolved, every `editFile` error is "File not found." or a fault report for "edit". |
| Mcp.EditErrorIsGuardOrFault | src/main/java/com/bootcamptoprod/mcp/FileOperationsMcp.java:95-115 | Every `editFile` error is "File not found." or a fault report for "edit". |
| Mcp.DeleteAtErrorIsGuardOrFault | src/main/java/com/bootcamptoprod/mcp/FileOperationsMcp.java:130-143 | Once the path is resolved, every `deleteFile` error is "File not found." or a fault report for "delete". |
| Mcp.DeleteErrorIsGuardOrFault | src/main/java/com/bootcamptoprod/mcp/FileOperationsMcp.java:125-145 | Every `deleteFile` error is "File not found." or a fault report for "delete". |
| Mcp.SafeNameOfPlainName | src/main/java/com/bootcamptoprod/mcp/FileOperationsMcp.java:153-157 | A non-blank single element (no separator, no NUL) is kept as it is, surrounding whitespace included (" notes.txt" stays " notes.txt"). |
| Mcp.SafeNameOfNestedName | src/main/java/com/bootcamptoprod/mcp/FileOperationsMcp.java:156-157 | For a name of the form `dir/element`, only the element is kept. This holds for any `dir` without NUL, including an empty one (an absolute name) and one that starts with whitespace. |
| Mcp.SafeNameDropsParents | src/main/java/com/bootcamptoprod/mcp/FileOperationsMcp.java:156-157 | "../../etc/passwd" keeps "passwd". |
| Mcp.SafeNameOfAbsoluteName | src/main/java/com/bootcamptoprod/mcp/FileOperationsMcp.java:156-157 | "/etc/passwd" keeps "passwd". |
| Mcp.SafeNameDropsDirectories | src/main/java/com/bootcamptoprod/mcp/FileOperationsMcp.java:156-157 | "sub/dir/name.txt" keeps "name.txt". |
| Mcp.SafeNameKeepsFinalDotDot | src/main/java/com/bootcamptoprod/mcp/FileOperationsMcp.java:157 | "../.." keeps "..": confinement is lexical only. |
| Mcp.SafeNameOfSeparatorsOnly | src/main/java/com/bootcamptoprod/mcp/FileOperationsMcp.java:157 | "//" has no file name, so no name is kept and the failure carries the null-pointer message. |
| Mcp.FileLifecycle | src/main/java/com/bootcamptoprod/mcp/FileOperationsMcp.java:37-145 | On an empty directory and a file name, this sequence behaves as follows: create gives back the content and its byte length; read returns the content; edit gives the new content and its size; delete gives a deleted snapshot with no content and empties the table; a second read answers "File not found.". |
| Mcp.NotesWalkThrough | src/main/java/com/bootcamptoprod/mcp/FileOperationsMcp.java:157 | "notes.txt" is kept as it is. "hello" and "bye" are 5 and 3 bytes, which with `FileLifecycle` gives the sizes of the walk-through. |
| Mcp.FileOperationsMcp.constructor | src/main/java/com/bootcamptoprod/mcp/FileOperationsMcp.java:27 | The service starts on a normal absolute base directory and a table of plain file names. |
| Mcp.FileOperationsMcp.CreateFile | src/main/java/com/bootcamptoprod/mcp/FileOperationsMcp.java:37-58 | Answers and updates the table as `Create` does, keeps the service valid, and keeps every existing entry and its text. |
| Mcp.FileOperationsMcp.ReadFile | src/main/java/com/bootcamptoprod/mcp/FileOperationsMcp.java:68-85 | Answers as `Read` does and changes nothing. A success carries the stored text of the kept name. |
| Mcp.FileOperationsMcp.EditFile | src/main/java/com/bootcamptoprod/mcp/FileOperationsMcp.java:95-115 | Answers and updates the table as `Edit` does, keeps the service valid, and keeps the set of names. |
| Mcp.FileOperationsMcp.DeleteFile | src/main/java/com/bootcamptoprod/mcp/FileOperationsMcp.java:125-145 | Answers and updates the table as `Delete` does, keeps the service valid, and leaves the remaining entries and their text as they were. |

## Left out

- A null request: each operation reads `request.fileName()` to log it before its `try` (lines 38, 69, 96 and 126), so a null request throws a `NullPointerException` past the boundary. The model's request is never null.
- Logging through slf4j: a side effect with no contract.
- The agent and tool annotations, and the request record's parameter annotations: registration only.
- Reading the base directory from `user.dir`: the base directory is a constructor argument, required to be absolute and normal.
- Real file-system calls, replaced by the table and the `Io` record:
  - a failing call is one that throws with a given message, and it changes nothing;
  - partial writes, permissions and a failure of `Files.delete` after a partial removal are not modelled.
- Subdirectories of the base directory: the table holds regular files only, so an existing subdirectory is not modelled. `.` and `..` are the only entries that exist without being files.
- The race between the existence guard and the write or delete: the model is sequential.
- The platform charset: `fileSize` is the UTF-8 byte length, the default charset since JDK 18. Characters are Unicode scalar values, so lone surrogates and unmappable characters are not modelled.
- Decoding on read: `readString` failing on malformed input is covered only as an I/O failure with some message.
- The clock: the two `Instant.now()` readings of `FileMetadata.error` are parameters.
- Path parsing beyond Unix separators:
  - Windows paths are not modelled;
  - `Paths.get` rejecting a NUL is modelled with the message "Nul character not allowed: <name>";
  - a name made of separators only fails with the text of the JVM's helpful null-pointer message, taken as a constant.
- UnixPaths.FileName: its own contract bounds the name it returns but does not say which name it is; `FileNameIsLastElement` states that.
