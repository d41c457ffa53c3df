/** Reading activity CSV files in chunks: timestamp normalisation, `user_id`
    validation and the buffer every reader flushes each `chunk_size` accepted
    rows (scripts/1_upload_data.py, src/daulingo/io.py,
    src/backend/services/io.py). */
module CsvReader {
  import opened Tables
  import opened Wrappers
  import opened Chunking

  // ----------------------------------------------------------------------------
  // `str.strip()`

  /** The characters Python's `str.isspace` accepts. */
  predicate IsSpace(c: char) {
    || c == ' ' || c == '\t' || c == '\n' || c == '\r' || c == '\U{0B}' || c == '\U{0C}'
    || ('\U{1C}' <= c <= '\U{1F}') || c == '\U{85}' || c == '\U{A0}' || c == '\U{1680}'
    || ('\U{2000}' <= c <= '\U{200A}') || c == '\U{2028}' || c == '\U{2029}'
    || c == '\U{202F}' || c == '\U{205F}' || c == '\U{3000}'
  }

  /** How many whitespace characters `s` starts with. */
  function LeadingSpaces(s: string): (n: nat)
    ensures n <= |s|
    ensures forall i :: 0 <= i < n ==> IsSpace(s[i])
    ensures n == |s| || !IsSpace(s[n])
    decreases |s|
  {
    if s != [] && IsSpace(s[0]) then
      var n := 1 + LeadingSpaces(s[1..]);
      assert forall i :: 1 <= i < n ==> s[i] == s[1..][i - 1];
      n
    else 0
  }

  /** How many whitespace characters `s` ends with. */
  function TrailingSpaces(s: string): (n: nat)
    ensures n <= |s|
    ensures forall i :: |s| - n <= i < |s| ==> IsSpace(s[i])
    ensures n == |s| || !IsSpace(s[|s| - n - 1])
    decreases |s|
  {
    if s != [] && IsSpace(s[|s| - 1]) then
      var n := 1 + TrailingSpaces(s[..|s| - 1]);
      assert forall i :: |s| - n <= i < |s| - 1 ==> s[i] == s[..|s| - 1][i];
      n
    else 0
  }

  /** `s` without its leading whitespace. */
  function TrimStart(s: string): string {
    s[LeadingSpaces(s)..]
  }

  /** `s` without its trailing whitespace. */
  function TrimEnd(s: string): string {
    s[..|s| - TrailingSpaces(s)]
  }

  /** `s.strip()`. */
  function Strip(s: string): string {
    TrimEnd(TrimStart(s))
  }

  /** What `strip` keeps neither starts nor ends with whitespace. */
  lemma StripEnds(s: string)
    ensures Strip(s) == [] || (!IsSpace(Strip(s)[0]) && !IsSpace(Strip(s)[|Strip(s)| - 1]))
  {
    var i := LeadingSpaces(s);
    var t := s[i..];
    if Strip(s) != [] {
      assert Strip(s)[0] == s[i];
      assert Strip(s)[|Strip(s)| - 1] == t[|t| - TrailingSpaces(t) - 1];
    }
  }

  /** What `strip` keeps is a slice of `s` with only whitespace cut on either
      side, and it neither starts nor ends with whitespace. */
  lemma StripIsSlice(s: string)
    ensures exists i, j :: 0 <= i <= j <= |s| && Strip(s) == s[i..j] && (forall k :: 0 <= k < i ==> IsSpace(s[k])) && (forall k :: j <= k < |s| ==> IsSpace(s[k]))
    ensures Strip(s) == [] || (!IsSpace(Strip(s)[0]) && !IsSpace(Strip(s)[|Strip(s)| - 1]))
  {
    StripEnds(s);
    var i := LeadingSpaces(s);
    var t := s[i..];
    var j := |s| - TrailingSpaces(t);
    assert Strip(s) == s[i..j];
    forall k | j <= k < |s|
      ensures IsSpace(s[k])
    {
      assert s[k] == t[k - i];
    }
  }

  /** Stripping twice is stripping once. */
  lemma StripIsIdempotent(s: string)
    ensures Strip(Strip(s)) == Strip(s)
  {
    var r := Strip(s);
    StripEnds(s);
    assert LeadingSpaces(r) == 0;
    assert TrimStart(r) == r;
    assert TrailingSpaces(r) == 0;
  }

  // ----------------------------------------------------------------------------
  // `parse_iso_ts`

  /** A parsed timestamp: the wall-clock reading and, when the text gave one,
      its offset from UTC in minutes (an aware datetime has one). */
  datatype Stamp = Stamp(clock: int, offsetMinutes: Option<int>)

  /** `datetime.fromisoformat`, which this model does not define: a text either
      parses to a stamp or is rejected. */
  type IsoParser = string -> Option<Stamp>

  datatype TimestampError = EmptyTimestamp | InvalidTimestamp

  /** A trailing `Z` spelled as `+00:00`, the form `fromisoformat` accepts. */
  function Normalized(s: string): (r: string)
    ensures |s| > 0 && s[|s| - 1] == 'Z' ==> r == s[..|s| - 1] + "+00:00"
    ensures !(|s| > 0 && s[|s| - 1] == 'Z') ==> r == s
  {
    if |s| > 0 && s[|s| - 1] == 'Z' then s[..|s| - 1] + "+00:00" else s
  }

  /** Normalising leaves no trailing `Z`, so doing it again changes nothing. */
  lemma NormalizedIsIdempotent(s: string)
    ensures |Normalized(s)| > 0 ==> Normalized(s)[|Normalized(s)| - 1] != 'Z'
    ensures Normalized(Normalized(s)) == Normalized(s)
  {
  }

  /** A stamp without an offset read as UTC. */
  function Aware(t: Stamp): (r: Stamp)
    ensures r.offsetMinutes.Some? && r.clock == t.clock
    ensures t.offsetMinutes.Some? ==> r == t
    ensures t.offsetMinutes.None? ==> r.offsetMinutes == Some(0)
  {
    if t.offsetMinutes.None? then Stamp(t.clock, Some(0)) else t
  }

  /** `parse_iso_ts`: blank text is an error; otherwise the stripped text, a
      trailing `Z` normalised, must parse, and the result is always aware. */
  function ParseIsoTs(value: string, fromIso: IsoParser): (r: Result<Stamp, TimestampError>)
    ensures Strip(value) == [] <==> r == Failure(EmptyTimestamp)
    ensures Strip(value) != [] ==> (r == Failure(InvalidTimestamp) <==> fromIso(Normalized(Strip(value))).None?)
    ensures r.Success? ==> r.value.offsetMinutes.Some?
    ensures r.Success? ==> fromIso(Normalized(Strip(value))).Some? && r.value == Aware(fromIso(Normalized(Strip(value))).value)
  {
    var s := Strip(value);
    if s == [] then Failure(EmptyTimestamp)
    else
      match fromIso(Normalized(s))
      case None => Failure(InvalidTimestamp)
      case Some(t) => Success(Aware(t))
  }

  /** Stripping the text before the call, as the reader does, changes nothing. */
  lemma ParseIgnoresOuterSpace(value: string, fromIso: IsoParser)
    ensures ParseIsoTs(Strip(value), fromIso) == ParseIsoTs(value, fromIso)
  {
    StripIsIdempotent(value);
  }

  // ----------------------------------------------------------------------------
  // `user_id` validation

  predicate IsAsciiLetter(c: char) {
    'a' <= c <= 'z' || 'A' <= c <= 'Z'
  }

  /** One or more ASCII letters. */
  predicate Letters(s: string) {
    |s| > 0 && forall i :: 0 <= i < |s| ==> IsAsciiLetter(s[i])
  }

  /** The shape `ActivityEvent.user_id` declares: 1 to 64 characters that
      match `^[a-zA-Z]+\.[a-zA-Z]+$`. */
  ghost predicate UserIdShape(s: string) {
    1 <= |s| <= 64 && exists k :: 0 <= k < |s| && s[k] == '.' && Letters(s[..k]) && Letters(s[k + 1..])
  }

  /** The index of the first `.` of `s`, if any. */
  function FirstDot(s: string): (r: Option<nat>)
    ensures r.Some? ==> r.value < |s| && s[r.value] == '.' && forall i :: 0 <= i < r.value ==> s[i] != '.'
    ensures r.None? ==> forall i :: 0 <= i < |s| ==> s[i] != '.'
    decreases |s|
  {
    if s == [] then None
    else if s[0] == '.' then Some(0)
    else match FirstDot(s[1..])
      case None => None
      case Some(k) => Some(k + 1)
  }

  /** The check as a validator runs it: the length bounds, then letters up to
      the first dot and letters after it. */
  function ValidUserId(s: string): bool {
    1 <= |s| <= 64 &&
    match FirstDot(s)
    case None => false
    case Some(k) => Letters(s[..k]) && Letters(s[k + 1..])
  }

  /** The check accepts exactly the declared shape. */
  lemma ValidUserIdIsShape(s: string)
    ensures ValidUserId(s) <==> UserIdShape(s)
  {
    if UserIdShape(s) {
      var k :| 0 <= k < |s| && s[k] == '.' && Letters(s[..k]) && Letters(s[k + 1..]);
      forall i | 0 <= i < k
        ensures s[i] != '.'
      {
        assert s[..k][i] == s[i];
      }
      assert FirstDot(s) == Some(k);
    }
  }

  /** A valid id has no whitespace around it, so the stripping readers keep it. */
  lemma ValidUserIdIsStripped(s: string)
    requires ValidUserId(s)
    ensures Strip(s) == s
  {
    var k := FirstDot(s).value;
    assert s[..k][0] == s[0];
    assert s[k + 1..][|s| - k - 2] == s[|s| - 1];
  }

  // ----------------------------------------------------------------------------
  // The reading loop

  /** A DictReader row: each column of the header that the line fills. */
  type Row = map<string, string>

  /** `row.get(name) or ""`. */
  function FieldOr(row: Row, name: string): string {
    if name in row then row[name] else ""
  }

  /** Why a read stops: the header lacks a required column, `chunk_size` is not
      positive, or a row is invalid (with its line number and the reason). */
  datatype ReadError<E> = MissingColumns | BadChunkSize | BadRow(line: int, reason: E)

  /** What a reader yields before it stops: its chunks, then the error that
      ended it, if one did. */
  datatype ReadOutcome<T, E> = ReadOutcome(chunks: seq<seq<T>>, error: Option<ReadError<E>>)

  /** The accepted rows, in order. */
  function Accepted<T, E>(rows: seq<Result<T, E>>): seq<T>
    decreases |rows|
  {
    if rows == [] then []
    else
      var init := Accepted(rows[..|rows| - 1]);
      match rows[|rows| - 1]
      case Success(x) => init + [x]
      case Failure(_) => init
  }

  /** One more row adds its value when it was accepted. */
  lemma AcceptedSnoc<T, E>(rows: seq<Result<T, E>>, i: nat)
    requires i < |rows|
    ensures Accepted(rows[..i + 1]) == Accepted(rows[..i]) + (if rows[i].Success? then [rows[i].value] else [])
  {
    assert rows[..i + 1][..i] == rows[..i];
  }

  /** When no row was refused, nothing was dropped. */
  lemma {:induction false} AcceptedAll<T, E>(rows: seq<Result<T, E>>)
    requires forall i :: 0 <= i < |rows| ==> rows[i].Success?
    ensures |Accepted(rows)| == |rows|
    ensures forall i :: 0 <= i < |rows| ==> Accepted(rows)[i] == rows[i].value
    decreases |rows|
  {
    if rows != [] {
      var init := rows[..|rows| - 1];
      AcceptedAll(init);
    }
  }

  /** The batch size the buffer effectively uses: `len(buf) >= chunk_size`
      holds after every append when `chunk_size` is not positive. */
  function BatchSize(chunkSize: int): (n: nat)
    ensures n > 0
    ensures chunkSize > 0 ==> n == chunkSize
  {
    if chunkSize > 0 then chunkSize else 1
  }

  /** The `buf` loop shared by the readers: each accepted row is appended and
      the buffer is yielded whenever it holds `chunk_size` rows. A refused row
      is skipped, or, when `raiseOnInvalid`, stops the loop at its index `i`.
      Returns the chunks yielded and the rows still buffered. */
  method BufferRows<T, E>(rows: seq<Result<T, E>>, chunkSize: int, raiseOnInvalid: bool)
    returns (chunks: seq<seq<T>>, buf: seq<T>, i: nat)
    ensures i <= |rows|
    ensures forall k :: 0 <= k < |chunks| ==> |chunks[k]| == BatchSize(chunkSize)
    ensures Flatten(chunks) + buf == Accepted(rows[..i])
    ensures |buf| < BatchSize(chunkSize)
    ensures raiseOnInvalid ==> forall j :: 0 <= j < i ==> rows[j].Success?
    ensures i < |rows| ==> raiseOnInvalid && rows[i].Failure?
  {
    chunks, buf, i := [], [], 0;
    while i < |rows|
      invariant 0 <= i <= |rows|
      invariant forall k :: 0 <= k < |chunks| ==> |chunks[k]| == BatchSize(chunkSize)
      invariant Flatten(chunks) + buf == Accepted(rows[..i])
      invariant |buf| < BatchSize(chunkSize)
      invariant raiseOnInvalid ==> forall j :: 0 <= j < i ==> rows[j].Success?
    {
      AcceptedSnoc(rows, i);
      match rows[i] {
        case Failure(e) =>
          if raiseOnInvalid {
            return;
          }
        case Success(x) =>
          buf := buf + [x];
          if |buf| >= chunkSize {
            FlattenAppend(chunks, buf);
            chunks, buf := chunks + [buf], [];
          }
      }
      i := i + 1;
    }
  }

  /** The readers' buffering: the chunks of `BufferRows`, then the rest of the
      buffer at the end. A refused row under `raiseOnInvalid` ends the read
      with its line number (data lines are numbered from 2), after the full
      chunks before it were yielded. */
  method Buffer<T, E>(rows: seq<Result<T, E>>, chunkSize: int, raiseOnInvalid: bool) returns (out: ReadOutcome<T, E>)
    ensures out.error.None? ==> IsChunking(out.chunks, Accepted(rows), BatchSize(chunkSize))
    ensures out.error.None? <==> !raiseOnInvalid || forall i :: 0 <= i < |rows| ==> rows[i].Success?
    ensures raiseOnInvalid ==> forall i :: 0 <= i < |rows| && rows[i].Failure? && (forall j :: 0 <= j < i ==> rows[j].Success?) ==>
      && out.error == Some(BadRow(i + 2, rows[i].error))
      && Flatten(out.chunks) <= Accepted(rows[..i])
      && |Accepted(rows[..i])| - |Flatten(out.chunks)| < BatchSize(chunkSize)
    ensures forall k :: 0 <= k < |out.chunks| && out.error.Some? ==> |out.chunks[k]| == BatchSize(chunkSize)
  {
    var chunks, buf, i := BufferRows(rows, chunkSize, raiseOnInvalid);
    if i < |rows| {
      return ReadOutcome(chunks, Some(BadRow(i + 2, rows[i].error)));
    }
    assert rows[..i] == rows;
    if buf != [] {
      FlattenAppend(chunks, buf);
      chunks := chunks + [buf];
    } else {
      assert Flatten(chunks) == Accepted(rows);
    }
    out := ReadOutcome(chunks, None);
  }

  // ----------------------------------------------------------------------------
  // The three readers

  /** The row parse of scripts/1_upload_data.py: the stripped `user_id` must
      not be empty, then the stripped `occurred_at` must parse. */
  datatype RowError = EmptyUserId | BadTimestamp(cause: TimestampError)

  function ParseRow(row: Row, fromIso: IsoParser): (r: Result<(UserId, Stamp), RowError>)
    ensures Strip(FieldOr(row, "user_id")) == [] ==> r == Failure(EmptyUserId)
    ensures r.Success? ==> r.value.0 == Strip(FieldOr(row, "user_id")) && r.value.0 != [] && r.value.1.offsetMinutes.Some?
    ensures Strip(FieldOr(row, "user_id")) != [] ==>
      (r.Failure? <==> ParseIsoTs(FieldOr(row, "occurred_at"), fromIso).Failure?)
  {
    var userId := Strip(FieldOr(row, "user_id"));
    var raw := Strip(FieldOr(row, "occurred_at"));
    ParseIgnoresOuterSpace(FieldOr(row, "occurred_at"), fromIso);
    if userId == [] then Failure(EmptyUserId)
    else
      match ParseIsoTs(raw, fromIso)
      case Failure(e) => Failure(BadTimestamp(e))
      case Success(t) => Success((userId, t))
  }

  /** The header names both `user_id` and `occurred_at`. */
  predicate HasRequiredColumns(header: Option<seq<string>>) {
    header.Some? && "user_id" in header.value && "occurred_at" in header.value
  }

  /** Each row parsed, in order. */
  function ParsedRows(rows: seq<Row>, fromIso: IsoParser): (r: seq<Result<(UserId, Stamp), RowError>>)
    ensures |r| == |rows|
  {
    seq(|rows|, i requires 0 <= i < |rows| => ParseRow(rows[i], fromIso))
  }

  /** `read_activity_csv_in_chunks` of scripts/1_upload_data.py: the header
      must name `user_id` and `occurred_at`, every row must parse, and
      `chunk_size` is not checked. */
  method ReadStrict(header: Option<seq<string>>, rows: seq<Row>, chunkSize: int, fromIso: IsoParser)
    returns (out: ReadOutcome<(UserId, Stamp), RowError>)
    ensures !HasRequiredColumns(header) ==> out == ReadOutcome([], Some(MissingColumns))
    ensures HasRequiredColumns(header) && out.error.None? ==> IsChunking(out.chunks, Accepted(ParsedRows(rows, fromIso)), BatchSize(chunkSize))
    ensures HasRequiredColumns(header) ==> (out.error.None? <==> forall i :: 0 <= i < |rows| ==> ParsedRows(rows, fromIso)[i].Success?)
    ensures HasRequiredColumns(header) ==> forall i :: 0 <= i < |rows| && ParsedRows(rows, fromIso)[i].Failure? && (forall j :: 0 <= j < i ==> ParsedRows(rows, fromIso)[j].Success?) ==>
      out.error == Some(BadRow(i + 2, ParsedRows(rows, fromIso)[i].error))
  {
    if !HasRequiredColumns(header) {
      return ReadOutcome([], Some(MissingColumns));
    }
    out := Buffer(ParsedRows(rows, fromIso), chunkSize, true);
  }

  /** Pydantic's reading of an `occurred_at` value, which this model does not
      define. */
  type DateTimeValidator = string -> Option<Stamp>

  /** The row is not a valid `ActivityEvent`. */
  datatype Invalid = Invalid

  /** `ActivityEvent.model_validate(row)` of src/daulingo/io.py: `user_id`
      present and of the declared shape, `occurred_at` present and valid. */
  function ValidateEvent(row: Row, validTs: DateTimeValidator): (r: Result<(UserId, Stamp), Invalid>)
    ensures r.Success? <==> "user_id" in row && UserIdShape(row["user_id"]) && "occurred_at" in row && validTs(row["occurred_at"]).Some?
    ensures r.Success? ==> r.value == (row["user_id"], validTs(row["occurred_at"]).value)
  {
    ValidUserIdIsShape(FieldOr(row, "user_id"));
    if "user_id" in row && ValidUserId(row["user_id"]) && "occurred_at" in row && validTs(row["occurred_at"]).Some?
    then Success((row["user_id"], validTs(row["occurred_at"]).value))
    else Failure(Invalid)
  }

  /** Each row validated, in order. */
  function ValidatedRows(rows: seq<Row>, validTs: DateTimeValidator): (r: seq<Result<(UserId, Stamp), Invalid>>)
    ensures |r| == |rows|
  {
    seq(|rows|, i requires 0 <= i < |rows| => ValidateEvent(rows[i], validTs))
  }

  /** `read_activity_csv_in_chunks` of src/daulingo/io.py: a non-positive
      `chunk_size` is refused before any row is read, and invalid rows are
      skipped. */
  method ReadSkippingInvalid(rows: seq<Row>, chunkSize: int, validTs: DateTimeValidator)
    returns (out: ReadOutcome<(UserId, Stamp), Invalid>)
    ensures chunkSize <= 0 ==> out == ReadOutcome([], Some(BadChunkSize))
    ensures chunkSize > 0 ==> out.error.None? && IsChunking(out.chunks, Accepted(ValidatedRows(rows, validTs)), chunkSize)
  {
    if chunkSize <= 0 {
      return ReadOutcome([], Some(BadChunkSize));
    }
    out := Buffer(ValidatedRows(rows, validTs), chunkSize, false);
  }

  /** Each row put through `validate`, in order. */
  function CheckedRows<A>(rows: seq<Row>, validate: Row -> Option<A>): (r: seq<Result<A, Invalid>>)
    ensures |r| == |rows|
    ensures forall i :: 0 <= i < |rows| ==> (r[i].Success? <==> validate(rows[i]).Some?)
    ensures forall i :: 0 <= i < |rows| && r[i].Success? ==> r[i].value == validate(rows[i]).value
    ensures forall i :: 0 <= i < |rows| && r[i].Failure? ==> r[i].error == Invalid
  {
    seq(|rows|, i requires 0 <= i < |rows| => if validate(rows[i]).Some? then Success(validate(rows[i]).value) else Failure(Invalid))
  }

  /** `read_activity_csv_in_chunks` of src/backend/services/io.py over the
      `Activity` model's validation, which is a parameter here: a non-positive
      `chunk_size` is refused, and an invalid row is skipped or, with
      `raiseOnInvalid`, ends the read citing its line. */
  method ReadActivities<A>(rows: seq<Row>, chunkSize: int, raiseOnInvalid: bool, validate: Row -> Option<A>)
    returns (out: ReadOutcome<A, Invalid>)
    ensures chunkSize <= 0 ==> out == ReadOutcome([], Some(BadChunkSize))
    ensures chunkSize > 0 && out.error.None? ==> IsChunking(out.chunks, Accepted(CheckedRows(rows, validate)), chunkSize)
    ensures chunkSize > 0 ==> (out.error.None? <==> !raiseOnInvalid || forall i :: 0 <= i < |rows| ==> validate(rows[i]).Some?)
    ensures chunkSize > 0 && raiseOnInvalid ==> forall i :: 0 <= i < |rows| && validate(rows[i]).None? && (forall j :: 0 <= j < i ==> validate(rows[j]).Some?) ==>
      out.error == Some(BadRow(i + 2, Invalid))
  {
    if chunkSize <= 0 {
      return ReadOutcome([], Some(BadChunkSize));
    }
    out := Buffer(CheckedRows(rows, validate), chunkSize, raiseOnInvalid);
  }
}
