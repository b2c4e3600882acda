# StateDB parser FFI demo — verified model

The demo script `parser.py` loads the StateDB command parser (a native Zig
library), sends it one wire-protocol command, reads back a `ParseResult`
record through ctypes, and frees that record. Two pieces of its own logic are
modelled here:

- **Library selection** (`get_library_path`), module `LibraryPath` in
  `library_path.dfy`: the machine name is lower-cased and normalised to
  `x86_64` or `aarch64`, the system name is mapped to an os-tag and a library
  file, and the relative path `release/statedb-<arch>-<os>/<lib>` is built.
  An unsupported architecture or operating system is one of the two
  `PathError` values that stand for the raised `OSError`s.
- **Call / decode / release** (`main`), module `FfiBoundary` in
  `ffi_boundary.dfy`. The native library is the class `NativeParser`, an
  instrumented stand-in: `respond` is the opaque Zig parser (the record it
  builds for a command, or `None` when it allocates nothing and returns a
  null pointer), `records` is the handle table of allocated
  `ParseRecord(success, err, jsonResult)` values (the struct's three fields
  in order; a `None` string field is a null `char*`), `frees` counts the
  `free_parse_result` calls per handle, and `trace` logs every call, field
  read and free. Reading a field or freeing requires the handle to be live,
  so the verification of `ParseAndRelease` (the try/except/finally of
  `main`) shows the script never reads freed memory and never frees twice.
  The object invariant `Valid()` keeps each free count equal to the number
  of frees in the log, at most one, and says that no event touches an
  allocation after its free. What `main` reports is the `Outcome`
  `Success(json)`, `Failure(message)` or `Error(reason)`; the function
  `Decode` says which for a given record, and the method is proved to agree
  with it.

Points where the model's shape comes from details of the code:

- `main` has one `except Exception` handler that only reports what it caught
  (parser.py:120-121). So every failure inside the `try` block is one
  `Error(reason)` outcome; the reason records which step raised. The reasons
  are: a null pointer (line 99), `.decode` on a null string field, bytes that
  are not UTF-8, text that `json.loads` rejects, or a write to standard
  output that raises at one of the six `print` calls inside the `try` block
  (lines 95, 104, 105, 110, 114, 118).
- The script never looks at the pointer the `success` flag does not select.
  The lemma `FlagSelectsField` proves the outcome does not depend on it.
- The f-string at line 105 reads the flag before that line is written. A
  write failing there therefore logs the flag read and then the free.
- `os.path.join` uses the host's separator. On Windows the path is
  therefore `release\statedb-<arch>-windows\bin/statedb_parser.dll`. The
  separator is the parameter `sep` of `LibraryPath.LibraryPath`. With
  `sep == '/'` the path is the one in the comment at parser.py:47.

Parameters instead of I/O: `platform.system()` and `platform.machine()` are
arguments to `LibraryPath.LibraryPath`, as is the host path separator.
UTF-8 decoding, `json.loads` and whether each write to standard output
raises are the fields of the `Env` argument of `ParseAndRelease`. The fixed
command at parser.py:90 becomes its `command` argument.

## Model

| member | source | states |
|---|---|---|
| `LibraryPath.Lower` | parser.py:23 | lower-casing keeps the length and lower-cases each character independently |
| `LibraryPath.LowerEqualsIff` | parser.py:23-29 | comparing the lowered machine name with a lower-case name is exactly a case-insensitive comparison, in both directions |
| `LibraryPath.NormaliseArch` | parser.py:25-31 | the result is `x86_64` iff the name is `amd64` or `x86_64` in any casing, `aarch64` iff it is `arm64` or `aarch64` in any casing, and absent otherwise |
| `LibraryPath.OsTarget` | parser.py:33-44 | a target exists iff the system name is exactly `Windows`, `Darwin` or `Linux` (case-sensitive); `Windows` gives os-tag `windows` with `bin/statedb_parser.dll`, `Darwin` gives `macos` with `lib/libstatedb_parser.dylib`, `Linux` gives `linux` with `lib/libstatedb_parser.so` |
| `LibraryPath.MessageInjective` | parser.py:31-44 | two errors with the same text are the same error: the raised message alone tells which check failed and on which name |
| `LibraryPath.LibraryPath` | parser.py:20-52 | an unsupported architecture is reported first, with the lowered name; otherwise an unsupported system is reported; otherwise the path is `release`, then `statedb-<arch>-<os>`, then the library file, joined by the host separator; success iff both names are supported |
| `LibraryPath.CaseInsensitiveMachine` | parser.py:23-31 | two machine names equal up to case select the same path or raise the same error |
| `LibraryPath.ArchCheckedFirst` | parser.py:26-44 | a machine name that matches no alias in any casing raises the architecture error, whatever the system name |
| `LibraryPath.X86LinuxPath` | parser.py:46-49 | an x86_64 machine name on `Linux` with `/` as separator gives exactly `release/statedb-x86_64-linux/lib/libstatedb_parser.so`, the example in the code's comment |
| `LibraryPath.PathDeterminesPlatform` | parser.py:46-49 | two inputs that select the same path have the same system name and the same normalised architecture |
| `FfiBoundary.NativeParser.constructor` | parser.py:75-83 | a freshly loaded library has no allocations, no frees and an empty log |
| `FfiBoundary.NativeParser.ParseCommand` | parser.py:75-78 | returns NULL and allocates nothing when the parser builds no record; otherwise returns a fresh non-null handle to the new record, with free count 0; logs the call |
| `FfiBoundary.NativeParser.ReadSuccess` | parser.py:102-107 | only a live handle may be read; returns the record's `success` flag and logs the read |
| `FfiBoundary.NativeParser.ReadErr` | parser.py:117 | only a live handle may be read; returns the record's `err` pointer and logs the read |
| `FfiBoundary.NativeParser.ReadJsonResult` | parser.py:109 | only a live handle may be read; returns the record's `json_result` pointer and logs the read |
| `FfiBoundary.NativeParser.FreeParseResult` | parser.py:80-83 | only a live handle may be freed, so no handle is freed twice; its free count goes from 0 to 1 and the free is logged |
| `FfiBoundary.IssueKeepsConsistent` | parser.py:96 | allocating a record at the next address keeps the native side's invariant (counts equal to logged frees, at most one, nothing touched after its free) and the new handle starts unfreed |
| `FfiBoundary.ReadKeepsConsistent` | parser.py:102-118 | reading a field of an unfreed handle keeps the invariant, so a read can never follow a free |
| `FfiBoundary.FreeKeepsConsistent` | parser.py:126-128 | freeing an unfreed handle keeps the invariant and sets its count to exactly one |
| `FfiBoundary.DecodeHandle` | parser.py:102-118 | writes the heading, reads the flag, writes it, then reads only the string field the flag selects; the outcome is `Decode` of the record, and the log gains exactly the reads made before the first raise |
| `FfiBoundary.ParseAndRelease` | parser.py:91-128 | a failed first write leaves the native side untouched; a null pointer gives `Error(NullPointer)` with no read and no free; otherwise the outcome is `Decode` of the record, a fresh handle is used, its free count ends at exactly 1, and the log gains the call, the reads made before the first raise, and then the free |
| `FfiBoundary.FlagSelectsField` | parser.py:107-118 | the outcome ignores the field the flag does not select; `Success` only comes from a true flag and `Failure` only from a false one |
| `FfiBoundary.DecodeOutcomes` | parser.py:107-121 | `Success(t)` iff the lines before the branch were written, the flag is set, the payload decodes to valid JSON text `t` and both later writes succeed; `Failure(t)` iff the flag is clear, the error field decodes to `t` and its write succeeds; invalid JSON, a null selected field and undecodable bytes in the selected field are errors, each exactly when it happens; a record never yields the null-pointer error |
| `FfiBoundary.OutputFailures` | parser.py:95-118 | a write error names the first write that raised: the heading iff it raised, the flag line iff it raised after the heading was written, the JSON, parsed-object and error lines each exactly when that line is reached and raises; the line before the call never comes from a record |
| `FfiBoundary.SessionReleasesOnce` | parser.py:122-128 | in one call the handle is freed exactly once, as the last event, and nothing touches it after the free, wherever the `try` block raised |
| `FfiBoundary.SessionReadsSelectedField` | parser.py:104-118 | in one call no field but the flag and the one it selects is read; exactly one string field is read when the lines before the branch were written, and none otherwise |

## Left out

- Loading the library (`ctypes.CDLL`), the `os.path.exists` check and `exit(1)` (parser.py:55-69). These are process and filesystem I/O.
- `os.path.abspath` (parser.py:52). It depends on the working directory, so the model returns the relative path.
- `platform.system()` and `platform.machine()`. Their results are parameters.
- All `print` output. That includes the text of the reported exception; the model keeps only its `ErrorReason`. What is modelled is whether a write inside the `try` block raises.
- FfiBoundary.ParseAndRelease: assumes the writes in the `except` and `finally` blocks do not raise (lines 121, 127 and 129). If the one at line 121 raised, the `finally` block would still free and the exception would propagate. If the one at line 127 raised, `free_parse_result` would be skipped and the record would leak.
- FfiBoundary.ParseAndRelease: does not model exceptions that `except Exception` does not catch, such as `KeyboardInterrupt` and `SystemExit`. For these the `finally` block still frees and the exception propagates.
- The Zig parser and its JSON schema. It is the opaque function `respond`.
- UTF-8 decoding and `json.loads`. They are the fields `utf8` and `jsonValid` of `Env`.
- Byte offsets and padding of the ctypes struct. The record is modelled by field order only.
- LibraryPath.Lower: lower-cases ASCII letters only, where Python's `str.lower` is full Unicode. Only U+212A (to `k`) and U+0130 (to `i` plus a combining dot) lower a non-ASCII character to an ASCII letter. None of the accepted names contains `k` or `i`, so accepting or rejecting a name is unaffected. Only the lowered name inside the architecture error message can differ.
- FfiBoundary.NativeParser.ParseCommand: gives every allocation a fresh address. A real allocator may reuse a freed address; this model does not.
- FfiBoundary.ParseAndRelease: does not model an exception raised by `parse_command_func` itself, such as a ctypes argument error. In that case `result_ptr` stays `None` and nothing is freed.
- FfiBoundary.DecodeHandle: reads the `success` field once. The script reads it twice, once for the print at line 105 and once for the test at line 107; both reads return the same value.
- Concurrent calls. The script makes one sequential call.
