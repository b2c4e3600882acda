/**
 * The call / decode / release sequence of the FFI demo's `main`.
 * The native parser is an instrumented stand-in: a handle table of the
 * `ParseResult` records it has allocated, a ghost count of frees per handle
 * and a ghost log of every call, field read and free it receives.
 */
module FfiBoundary {
  import opened Wrappers

  newtype byte = x: int | 0 <= x < 256
  type Bytes = seq<byte>

  /** A native address; 0 is the null pointer. */
  type Handle = nat
  const NULL: Handle := 0

  /** The `ParseResult` record, by field order; a None string field is a null `char*`. */
  datatype ParseRecord = ParseRecord(success: bool, err: Option<Bytes>, jsonResult: Option<Bytes>)

  datatype Field = SuccessFlag | ErrField | JsonResultField

  /** What the native side is asked to do. */
  datatype Event =
    | Issued(handle: Handle)
    | Read(handle: Handle, field: Field)
    | Freed(handle: Handle)

  /** An event that touches the allocation behind `h` (issuing it does not). */
  predicate Accesses(e: Event, h: Handle) {
    !e.Issued? && e.handle == h
  }

  /** Number of occurrences of `e` in `t`. */
  function Occurrences(t: seq<Event>, e: Event): nat {
    if t == [] then 0 else (if t[0] == e then 1 else 0) + Occurrences(t[1..], e)
  }

  lemma {:induction false} OccurrencesAppend(t: seq<Event>, u: seq<Event>, e: Event)
    ensures Occurrences(t + u, e) == Occurrences(t, e) + Occurrences(u, e)
  {
    if t != [] {
      assert (t + u)[1..] == t[1..] + u;
      OccurrencesAppend(t[1..], u, e);
    } else {
      assert t + u == u;
    }
  }

  lemma {:induction false} OccurrencesZero(t: seq<Event>, e: Event)
    ensures Occurrences(t, e) == 0 <==> forall i :: 0 <= i < |t| ==> t[i] != e
  {
    if t != [] {
      OccurrencesZero(t[1..], e);
      assert forall i :: 1 <= i < |t| ==> t[i] == t[1..][i - 1];
    }
  }

  lemma OccurrencesOfFour(a: Event, b: Event, c: Event, d: Event, e: Event)
    ensures Occurrences([a, b, c, d], e) ==
              (if a == e then 1 else 0) + (if b == e then 1 else 0) + (if c == e then 1 else 0) + (if d == e then 1 else 0)
  {
    assert [a, b, c, d][1..] == [b, c, d] && [b, c, d][1..] == [c, d] && [c, d][1..] == [d] && [d][1..] == [];
    assert Occurrences([d], e) == if d == e then 1 else 0;
    assert Occurrences([c, d], e) == (if c == e then 1 else 0) + Occurrences([d], e);
    assert Occurrences([b, c, d], e) == (if b == e then 1 else 0) + Occurrences([c, d], e);
  }

  /** No event touches an allocation after it has been freed. */
  predicate NoAccessAfterFree(t: seq<Event>) {
    forall i, j :: 0 <= i < j < |t| && t[i].Freed? ==> !Accesses(t[j], t[i].handle)
  }

  /**
   * The invariant of the native side's state: handles are non-null and below
   * the next address, and every allocated handle has a free count that equals
   * the number of its frees in the log and is at most one. Every logged handle
   * is NULL or allocated, and no event touches an allocation after its free.
   */
  ghost predicate Consistent(records: map<Handle, ParseRecord>, next: Handle,
                             frees: map<Handle, nat>, trace: seq<Event>)
  {
    && NULL !in records && next > NULL
    && (forall h :: h in records ==> h < next)
    && frees.Keys == records.Keys
    && (forall h :: h in frees ==> frees[h] == Occurrences(trace, Freed(h)) && frees[h] <= 1)
    && (forall i :: 0 <= i < |trace| ==> trace[i].handle == NULL || trace[i].handle in records)
    && NoAccessAfterFree(trace)
  }

  /** Appending `e` to a log adds one to the count of `e` and changes no other count. */
  lemma AppendCounts(trace: seq<Event>, e: Event)
    ensures forall x :: Occurrences(trace + [e], x) == Occurrences(trace, x) + (if e == x then 1 else 0)
  {
    forall x ensures Occurrences(trace + [e], x) == Occurrences(trace, x) + (if e == x then 1 else 0) {
      OccurrencesAppend(trace, [e], x);
    }
  }

  /** A live handle appears in no free of the log. */
  lemma LiveNotFreed(records: map<Handle, ParseRecord>, next: Handle,
                     frees: map<Handle, nat>, trace: seq<Event>, h: Handle)
    requires Consistent(records, next, frees, trace) && h in frees && frees[h] == 0
    ensures forall i :: 0 <= i < |trace| ==> trace[i] != Freed(h)
  {
    OccurrencesZero(trace, Freed(h));
  }

  /** Issuing a command that allocates nothing keeps the invariant. */
  lemma IssueNullKeepsConsistent(records: map<Handle, ParseRecord>, next: Handle,
                                 frees: map<Handle, nat>, trace: seq<Event>)
    requires Consistent(records, next, frees, trace)
    ensures Consistent(records, next, frees, trace + [Issued(NULL)])
  {
    AppendCounts(trace, Issued(NULL));
  }

  /** Allocating `rec` at the next address keeps the invariant; the new handle starts live. */
  lemma IssueKeepsConsistent(records: map<Handle, ParseRecord>, next: Handle,
                             frees: map<Handle, nat>, trace: seq<Event>, rec: ParseRecord)
    requires Consistent(records, next, frees, trace)
    ensures Consistent(records[next := rec], next + 1, frees[next := 0], trace + [Issued(next)])
  {
    assert forall i :: 0 <= i < |trace| ==> trace[i] != Freed(next);
    OccurrencesZero(trace, Freed(next));
    AppendCounts(trace, Issued(next));
  }

  /** Reading a field of a live allocation keeps the invariant. */
  lemma ReadKeepsConsistent(records: map<Handle, ParseRecord>, next: Handle,
                            frees: map<Handle, nat>, trace: seq<Event>, h: Handle, f: Field)
    requires Consistent(records, next, frees, trace) && h in frees && frees[h] == 0
    ensures Consistent(records, next, frees, trace + [Read(h, f)])
  {
    LiveNotFreed(records, next, frees, trace, h);
    AppendCounts(trace, Read(h, f));
  }

  /** Freeing a live allocation keeps the invariant and sets its count to one. */
  lemma FreeKeepsConsistent(records: map<Handle, ParseRecord>, next: Handle,
                            frees: map<Handle, nat>, trace: seq<Event>, h: Handle)
    requires Consistent(records, next, frees, trace) && h in frees && frees[h] == 0
    ensures Consistent(records, next, frees[h := 1], trace + [Freed(h)])
  {
    LiveNotFreed(records, next, frees, trace, h);
    AppendCounts(trace, Freed(h));
  }

  /** The instrumented native library: `parse_command` and `free_parse_result`. */
  class NativeParser {
    /** The opaque Zig parser: the record it builds for a command, or None when it cannot allocate one. */
    const respond: Bytes -> Option<ParseRecord>
    /** Every record allocated so far, by handle; a freed record stays here but is no longer live. */
    var records: map<Handle, ParseRecord>
    /** The address of the next allocation. */
    var next: Handle
    ghost var frees: map<Handle, nat>
    ghost var trace: seq<Event>

    ghost predicate Valid()
      reads this
    {
      Consistent(records, next, frees, trace)
    }

    /** `h` refers to an allocation that has not been freed. */
    ghost predicate Live(h: Handle)
      reads this
    {
      h in records && h in frees && frees[h] == 0
    }

    constructor (respond: Bytes -> Option<ParseRecord>)
      ensures Valid()
      ensures this.respond == respond && records == map[] && frees == map[] && trace == []
    {
      this.respond := respond;
      records, next := map[], 1;
      frees, trace := map[], [];
    }

    /** `parse_command`: a fresh handle to a new record, or NULL when nothing was allocated. */
    method ParseCommand(command: Bytes) returns (h: Handle)
      requires Valid()
      modifies this
      ensures Valid()
      ensures respond(command).None? ==>
                h == NULL && records == old(records) && frees == old(frees) && next == old(next)
      ensures respond(command).Some? ==>
                && h == old(next) && h != NULL && h !in old(records)
                && records == old(records)[h := respond(command).value]
                && frees == old(frees)[h := 0] && next == old(next) + 1
      ensures trace == old(trace) + [Issued(h)]
    {
      match respond(command) {
        case None =>
          IssueNullKeepsConsistent(records, next, frees, trace);
          h := NULL;
        case Some(rec) =>
          IssueKeepsConsistent(records, next, frees, trace, rec);
          h := next;
          records, frees, next := records[h := rec], frees[h := 0], next + 1;
      }
      trace := trace + [Issued(h)];
    }

    /** Reading the `success` field of a live record. */
    method ReadSuccess(h: Handle) returns (b: bool)
      requires Valid() && Live(h)
      modifies this`trace
      ensures Valid()
      ensures b == records[h].success
      ensures trace == old(trace) + [Read(h, SuccessFlag)]
    {
      ReadKeepsConsistent(records, next, frees, trace, h, SuccessFlag);
      b := records[h].success;
      trace := trace + [Read(h, SuccessFlag)];
    }

    /** Reading the `err` pointer of a live record. */
    method ReadErr(h: Handle) returns (p: Option<Bytes>)
      requires Valid() && Live(h)
      modifies this`trace
      ensures Valid()
      ensures p == records[h].err
      ensures trace == old(trace) + [Read(h, ErrField)]
    {
      ReadKeepsConsistent(records, next, frees, trace, h, ErrField);
      p := records[h].err;
      trace := trace + [Read(h, ErrField)];
    }

    /** Reading the `json_result` pointer of a live record. */
    method ReadJsonResult(h: Handle) returns (p: Option<Bytes>)
      requires Valid() && Live(h)
      modifies this`trace
      ensures Valid()
      ensures p == records[h].jsonResult
      ensures trace == old(trace) + [Read(h, JsonResultField)]
    {
      ReadKeepsConsistent(records, next, frees, trace, h, JsonResultField);
      p := records[h].jsonResult;
      trace := trace + [Read(h, JsonResultField)];
    }

    /** `free_parse_result`: only a live handle may be freed, so no handle is freed twice. */
    method FreeParseResult(h: Handle)
      requires Valid() && Live(h)
      modifies this`frees, this`trace
      ensures Valid()
      ensures frees == old(frees)[h := 1]
      ensures trace == old(trace) + [Freed(h)]
    {
      FreeKeepsConsistent(records, next, frees, trace, h);
      frees := frees[h := 1];
      trace := trace + [Freed(h)];
    }
  }

  /** The lines `main` writes inside its `try` block, any of which can raise (for instance on a broken pipe). */
  datatype OutputSite =
    | SendingNote   // the command about to be sent, before the call
    | ReceivedNote  // the heading of the result
    | FlagNote      // the `success` flag, read for the f-string before the write
    | JsonNote      // the decoded JSON text
    | ParsedNote    // the parsed JSON object
    | ErrorNote     // the decoded error message

  /**
   * What the host contributes: UTF-8 decoding, acceptance by `json.loads`,
   * and which writes to standard output raise.
   */
  datatype Env = Env(utf8: Bytes -> Option<string>, jsonValid: string -> bool, writeFails: OutputSite -> bool)

  /** Why `main` reports "An error occurred during FFI call". */
  datatype ErrorReason =
    | NullPointer                // parse_command returned a null pointer
    | NullField(field: Field)    // `.decode` on a null `char*` (AttributeError)
    | InvalidUtf8(field: Field)  // `.decode('utf-8')` rejected the bytes
    | InvalidJson                // `json.loads` rejected the payload
    | OutputFailed(site: OutputSite)  // a write to standard output raised

  /** What one call reports: the JSON text, the parser's error message, or a caught exception. */
  datatype Outcome = Success(json: string) | Failure(message: string) | Error(reason: ErrorReason)

  /** The string field the `success` flag selects. */
  function SelectedField(rec: ParseRecord): Field {
    if rec.success then JsonResultField else ErrField
  }

  /** The pointer held by the selected field. */
  function SelectedPointer(rec: ParseRecord): Option<Bytes> {
    if rec.success then rec.jsonResult else rec.err
  }

  /** The heading and the flag were written, so the branch on the flag is reached. */
  predicate HeaderWritten(env: Env) {
    !env.writeFails(ReceivedNote) && !env.writeFails(FlagNote)
  }

  /** `field.decode('utf-8')` of a `char*` value. */
  function DecodeString(p: Option<Bytes>, field: Field, utf8: Bytes -> Option<string>): Result<string, ErrorReason> {
    match p
    case None => Err(NullField(field))
    case Some(b) =>
      match utf8(b)
      case None => Err(InvalidUtf8(field))
      case Some(text) => Ok(text)
  }

  /** What `main` reports for a non-null record. */
  function Decode(rec: ParseRecord, env: Env): Outcome {
    if env.writeFails(ReceivedNote) then Error(OutputFailed(ReceivedNote))
    else if env.writeFails(FlagNote) then Error(OutputFailed(FlagNote))
    else if rec.success then
      match DecodeString(rec.jsonResult, JsonResultField, env.utf8)
      case Err(e) => Error(e)
      case Ok(text) =>
        if env.writeFails(JsonNote) then Error(OutputFailed(JsonNote))
        else if !env.jsonValid(text) then Error(InvalidJson)
        else if env.writeFails(ParsedNote) then Error(OutputFailed(ParsedNote))
        else Success(text)
    else
      match DecodeString(rec.err, ErrField, env.utf8)
      case Err(e) => Error(e)
      case Ok(text) =>
        if env.writeFails(ErrorNote) then Error(OutputFailed(ErrorNote)) else Failure(text)
  }

  /** The field reads of the `try` block for the handle `h` to `rec`, up to the first raise. */
  function TryReads(h: Handle, rec: ParseRecord, env: Env): seq<Event> {
    if env.writeFails(ReceivedNote) then []
    else if env.writeFails(FlagNote) then [Read(h, SuccessFlag)]
    else [Read(h, SuccessFlag), Read(h, SelectedField(rec))]
  }

  /** The events of one call that obtained the non-null handle `h` to `rec`. */
  function SessionTrace(h: Handle, rec: ParseRecord, env: Env): seq<Event> {
    [Issued(h)] + TryReads(h, rec, env) + [Freed(h)]
  }

  /** The log of one call, built event by event (kept apart to keep the caller's proof small). */
  lemma SessionAppend(t: seq<Event>, h: Handle, rec: ParseRecord, env: Env)
    ensures t + [Issued(h)] + TryReads(h, rec, env) + [Freed(h)] == t + SessionTrace(h, rec, env)
  {
  }

  /** A second update of the same key overrides the first. */
  lemma UpdateTwice<K, V>(m: map<K, V>, k: K, a: V, b: V)
    ensures m[k := a][k := b] == m[k := b]
  {
  }

  /**
   * The body of `main`'s `try` block after the null check: write the heading,
   * read the flag for the next line, then decode only the string field it selects.
   */
  method DecodeHandle(parser: NativeParser, h: Handle, env: Env) returns (outcome: Outcome)
    requires parser.Valid() && parser.Live(h)
    modifies parser`trace
    ensures parser.Valid() && parser.Live(h)
    ensures outcome == Decode(parser.records[h], env)
    ensures parser.trace == old(parser.trace) + TryReads(h, parser.records[h], env)
  {
    if env.writeFails(ReceivedNote) {
      outcome := Error(OutputFailed(ReceivedNote));
      return;
    }
    var success := parser.ReadSuccess(h);
    if env.writeFails(FlagNote) {
      outcome := Error(OutputFailed(FlagNote));
      return;
    }
    if success {
      var p := parser.ReadJsonResult(h);
      match DecodeString(p, JsonResultField, env.utf8) {
        case Err(e) =>
          outcome := Error(e);
        case Ok(text) =>
          if env.writeFails(JsonNote) {
            outcome := Error(OutputFailed(JsonNote));
          } else if !env.jsonValid(text) {
            outcome := Error(InvalidJson);
          } else if env.writeFails(ParsedNote) {
            outcome := Error(OutputFailed(ParsedNote));
          } else {
            outcome := Success(text);
          }
      }
    } else {
      var p := parser.ReadErr(h);
      match DecodeString(p, ErrField, env.utf8) {
        case Err(e) =>
          outcome := Error(e);
        case Ok(text) =>
          outcome := if env.writeFails(ErrorNote) then Error(OutputFailed(ErrorNote)) else Failure(text);
      }
    }
  }

  /**
   * `main`'s try/except/finally: write the command, issue it, raise on a null
   * pointer, decode the record, and in `finally` free the handle when it is not null.
   */
  method ParseAndRelease(parser: NativeParser, command: Bytes, env: Env) returns (outcome: Outcome)
    requires parser.Valid()
    modifies parser
    ensures parser.Valid()
    ensures env.writeFails(SendingNote) ==>
              && outcome == Error(OutputFailed(SendingNote))
              && parser.records == old(parser.records) && parser.frees == old(parser.frees)
              && parser.next == old(parser.next) && parser.trace == old(parser.trace)
    ensures !env.writeFails(SendingNote) && parser.respond(command).None? ==>
              && outcome == Error(NullPointer)
              && parser.records == old(parser.records) && parser.frees == old(parser.frees)
              && parser.next == old(parser.next) && parser.trace == old(parser.trace) + [Issued(NULL)]
    ensures !env.writeFails(SendingNote) && parser.respond(command).Some? ==>
              var h, rec := old(parser.next), parser.respond(command).value;
              && outcome == Decode(rec, env)
              && parser.records == old(parser.records)[h := rec]
              && parser.frees == old(parser.frees)[h := 1]
              && parser.next == h + 1
              && parser.trace == old(parser.trace) + SessionTrace(h, rec, env)
  {
    ghost var t0, f0 := parser.trace, parser.frees;
    var h: Handle := NULL;
    if env.writeFails(SendingNote) {
      outcome := Error(OutputFailed(SendingNote));
    } else {
      h := parser.ParseCommand(command);
      if h == NULL {
        outcome := Error(NullPointer);
      } else {
        outcome := DecodeHandle(parser, h, env);
      }
    }
    // finally
    if h != NULL {
      ghost var rec := parser.records[h];
      parser.FreeParseResult(h);
      SessionAppend(t0, h, rec, env);
      UpdateTwice(f0, h, 0, 1);
    }
  }

  /** The `success` flag alone decides the outcome kind; the unselected field is never consulted. */
  lemma FlagSelectsField(rec: ParseRecord, other: Option<Bytes>, env: Env)
    ensures rec.success ==> Decode(rec, env) == Decode(rec.(err := other), env)
    ensures !rec.success ==> Decode(rec, env) == Decode(rec.(jsonResult := other), env)
    ensures Decode(rec, env).Success? ==> rec.success
    ensures Decode(rec, env).Failure? ==> !rec.success
  {
  }

  /** Each outcome, characterised by the record and the host it came from. */
  lemma DecodeOutcomes(rec: ParseRecord, env: Env, text: string)
    ensures Decode(rec, env) == Success(text) <==>
              && HeaderWritten(env) && rec.success && rec.jsonResult.Some?
              && env.utf8(rec.jsonResult.value) == Some(text)
              && !env.writeFails(JsonNote) && env.jsonValid(text) && !env.writeFails(ParsedNote)
    ensures Decode(rec, env) == Failure(text) <==>
              && HeaderWritten(env) && !rec.success && rec.err.Some?
              && env.utf8(rec.err.value) == Some(text) && !env.writeFails(ErrorNote)
    ensures Decode(rec, env) == Error(InvalidJson) <==>
              && HeaderWritten(env) && rec.success && rec.jsonResult.Some?
              && env.utf8(rec.jsonResult.value).Some? && !env.writeFails(JsonNote)
              && !env.jsonValid(env.utf8(rec.jsonResult.value).value)
    ensures forall f :: Decode(rec, env) == Error(NullField(f)) <==>
              HeaderWritten(env) && f == SelectedField(rec) && SelectedPointer(rec).None?
    ensures forall f :: Decode(rec, env) == Error(InvalidUtf8(f)) <==>
              && HeaderWritten(env) && f == SelectedField(rec) && SelectedPointer(rec).Some?
              && env.utf8(SelectedPointer(rec).value).None?
    ensures Decode(rec, env) != Error(NullPointer)
  {
  }

  /** Which failed write each output error comes from: the first write that raises. */
  lemma OutputFailures(rec: ParseRecord, env: Env)
    ensures Decode(rec, env) != Error(OutputFailed(SendingNote))
    ensures Decode(rec, env) == Error(OutputFailed(ReceivedNote)) <==> env.writeFails(ReceivedNote)
    ensures Decode(rec, env) == Error(OutputFailed(FlagNote)) <==>
              !env.writeFails(ReceivedNote) && env.writeFails(FlagNote)
    ensures Decode(rec, env) == Error(OutputFailed(JsonNote)) <==>
              && HeaderWritten(env) && rec.success && rec.jsonResult.Some?
              && env.utf8(rec.jsonResult.value).Some? && env.writeFails(JsonNote)
    ensures Decode(rec, env) == Error(OutputFailed(ParsedNote)) <==>
              && HeaderWritten(env) && rec.success && rec.jsonResult.Some?
              && env.utf8(rec.jsonResult.value).Some? && !env.writeFails(JsonNote)
              && env.jsonValid(env.utf8(rec.jsonResult.value).value) && env.writeFails(ParsedNote)
    ensures Decode(rec, env) == Error(OutputFailed(ErrorNote)) <==>
              && HeaderWritten(env) && !rec.success && rec.err.Some?
              && env.utf8(rec.err.value).Some? && env.writeFails(ErrorNote)
  {
  }

  /** In one call the handle is freed exactly once, last, after every read, however the `try` block ends. */
  lemma {:induction false} SessionReleasesOnce(h: Handle, rec: ParseRecord, env: Env)
    requires h != NULL
    ensures Occurrences(SessionTrace(h, rec, env), Freed(h)) == 1
    ensures SessionTrace(h, rec, env)[|SessionTrace(h, rec, env)| - 1] == Freed(h)
    ensures NoAccessAfterFree(SessionTrace(h, rec, env))
  {
    var fieldReads := TryReads(h, rec, env);
    OccurrencesAppend([Issued(h)] + fieldReads, [Freed(h)], Freed(h));
    OccurrencesAppend([Issued(h)], fieldReads, Freed(h));
    OccurrencesZero(fieldReads, Freed(h));
    assert Occurrences([Issued(h)], Freed(h)) == 0 by {
      OccurrencesZero([Issued(h)], Freed(h));
    }
    assert Occurrences([Freed(h)], Freed(h)) == 1 by {
      assert [Freed(h)][1..] == [];
    }
  }

  /**
   * In one call at most one string field is read, and only the one the flag selects;
   * exactly one when the lines before the branch were written.
   */
  lemma {:induction false} SessionReadsSelectedField(h: Handle, rec: ParseRecord, env: Env)
    ensures forall i :: 0 <= i < |SessionTrace(h, rec, env)| && SessionTrace(h, rec, env)[i].Read? ==>
              SessionTrace(h, rec, env)[i].field in {SuccessFlag, SelectedField(rec)}
    ensures Occurrences(SessionTrace(h, rec, env), Read(h, SelectedField(rec)))
         == if HeaderWritten(env) then 1 else 0
    ensures Occurrences(SessionTrace(h, rec, env), Read(h, ErrField))
          + Occurrences(SessionTrace(h, rec, env), Read(h, JsonResultField))
         == if HeaderWritten(env) then 1 else 0
  {
    var a, b, c, d := Issued(h), Read(h, SuccessFlag), Read(h, SelectedField(rec)), Freed(h);
    var t := SessionTrace(h, rec, env);
    if HeaderWritten(env) {
      assert t == [a, b, c, d];
      OccurrencesOfFour(a, b, c, d, c);
      OccurrencesOfFour(a, b, c, d, Read(h, ErrField));
      OccurrencesOfFour(a, b, c, d, Read(h, JsonResultField));
    } else {
      forall f | f != SuccessFlag ensures Occurrences(t, Read(h, f)) == 0 {
        OccurrencesZero(t, Read(h, f));
      }
    }
  }
}
