# File-backed URL repository of the shortener

This project models the storage core of a URL shortener, `cmd/shortener/repository/repository.go`,
in Dafny and proves properties of the model. The core has three parts:

- **In-memory index.** This is a map from short id to full URL (`Storage`) plus the last id handed out (`CurrentInd`).
  - `Save` takes the next id and stores the URL under it.
  - `Get` turns the id text into an integer with `strconv.Atoi` and looks it up.
- **Append-only log.** Each `Save` appends one line to the log file: the `json.Marshal` form of `ShortToFullURL{Index, FullURL}` followed by a newline.
- **Recovery.** `NewRepository` reads the log with `bufio.Reader.ReadBytes('\n')`, decodes each line with `json.Unmarshal`, and rebuilds the map. A later line wins over an earlier line with the same index. The counter becomes the larger of 0 and the largest index seen.

Files:

- `common.dfy`: `Option`, `Result` and the error values the repository reports.
- `decimal.dfy`: `strconv.Itoa` and `strconv.Atoi` on unbounded integers. Itoa is also how `json.Marshal` writes an `int`.
- `record_codec.dfy`: the record `ShortToFullURL` and its log line.
  - `Marshal` follows the string escaping of `encoding/json` before Go 1.22:
    - `\"`, `\\`, `\n`, `\r` and `\t` for quote, backslash, newline, carriage return and tab;
    - `\u00XX` with lower-case hex for every other control character (backspace and form feed included) and for `<`, `>` and `&`;
    - `\u2028` and `\u2029` for the line and paragraph separators.
  - `Unmarshal` accepts that layout with JSON whitespace around it.
- `log_replay.dfy`: reading the log.
  - `ReadBytes` behaves like bufio: a final fragment without a newline comes back with `io.EOF`, and the loop drops it.
  - `Replay` is the pure left fold over the decoded lines. `Recover` is the outcome of `NewRepository` on a given file content.
  - `ReadLog` is the read loop itself, proved equal to `Recover`.
- `repository.dfy`: the `Repository` class with `Get` and `Save`, and `NewRepository`.
  - The file system is a `FileSystem` object holding a map from file name to content. A file that does not exist reads as empty.
  - Whether a file step fails is an input: `SaveFault` and `ReadFault`.
- Scenario lemmas for the repository tests, stated over the log that runs of `Save` write.

The central invariant is `Repository.InSync`: the log file is empty or ends in a newline, and recovers to exactly the in-memory index.

- A successful `Save` keeps `InSync`.
- `NewRepository` establishes `InSync` on every terminated log.
- A failed `Save` leaves a log that still recovers to the index as it was before the call. Memory has moved on by then, because the code updates the map and the counter before it opens the file (`repository.go:44-45` come before `repository.go:47-61`).

Appending to the log before updating memory would be the safer order, because the log is what recovery trusts. The code does the reverse, and `Save`'s contract states what the code does.

## Model

| member | source | states |
|---|---|---|
| Decimal.Atoi | cmd/shortener/repository/repository.go:30-33 | Atoi yields a number exactly when the text has an optional sign followed by at least one digit. Otherwise it yields the syntax error. |
| Decimal.AtoiItoa | cmd/shortener/repository/repository.go:30 | Parsing the decimal text of any integer gives back that integer, so every id reads back as itself. |
| Decimal.ItoaInjective | cmd/shortener/repository/repository.go:53 | Two different integers never have the same decimal text. |
| Decimal.AtoiLeadingZeros | cmd/shortener/repository/repository.go:30 | Atoi reads the decimal text of any n ≥ 0 as n after any number of leading zeros. With a plus sign it also reads n, and with a minus sign -n ("007" and "+007" are 7, "-007" is -7). |
| Decimal.ValueOfLeadingZeros | cmd/shortener/repository/repository.go:30 | Leading zeros do not change the value of a digit string. |
| Decimal.AtoiRejectsNonDigit | cmd/shortener/repository/repository.go:30-33 | A character that is neither a digit nor a leading sign makes Atoi fail, as for the id "abc". |
| RecordCodec.Marshal | cmd/shortener/repository/repository.go:53 | The JSON form of a record starts with the Index key and contains no newline. A log line is therefore exactly one record. |
| RecordCodec.Hex4RoundTrip | cmd/shortener/repository/repository.go:53 | Parsing the four lower-case hex digits Marshal writes for a code unit gives back that code unit. |
| RecordCodec.UnicodeEscapeParses | cmd/shortener/repository/repository.go:89 | A character Marshal writes as a `\u` escape decodes back to itself. That is `\u00XX` for a control character without a short escape and for `<`, `>`, `&`, and `\u2028`/`\u2029` for the separators. Decoding then continues after the escape. |
| RecordCodec.EscapeCharParses | cmd/shortener/repository/repository.go:89 | Every character, escaped the way Marshal escapes it, decodes back to itself. Decoding then continues with what follows. |
| RecordCodec.EscapePlain | cmd/shortener/repository/repository.go:53 | A URL with no quote, backslash, control, HTML-sensitive, or line/paragraph separator character is written unchanged inside the string literal. |
| RecordCodec.EscapeParses | cmd/shortener/repository/repository.go:89 | Decoding an escaped URL followed by the closing quote yields the URL and what follows the quote. |
| RecordCodec.ParseIntItoa | cmd/shortener/repository/repository.go:89 | The decoder reads the integer Marshal wrote back as the same integer, provided a non-digit follows it. |
| RecordCodec.ParseFieldsAt | cmd/shortener/repository/repository.go:89-92 | After the Index key, a record's fields decode to that record exactly when only whitespace follows the closing brace. |
| RecordCodec.UnmarshalMarshal | cmd/shortener/repository/repository.go:89-92 | The line Save writes (the record's JSON plus a newline) decodes to the record it was written from. |
| RecordCodec.MarshalInjective | cmd/shortener/repository/repository.go:53 | Two different records never produce the same line. |
| RecordCodec.FractionalIndexRejected | cmd/shortener/repository/repository.go:89-92 | A line whose Index number carries a fraction or an exponent (`4.0`, `4e0`) does not decode, whatever follows. |
| RecordCodec.GluedRecordsDoNotDecode | cmd/shortener/repository/repository.go:89-92 | Two records written on one line do not decode. |
| LogReplay.ReadBytes | cmd/shortener/repository/repository.go:79-83 | At end of file the remaining fragment comes back as the EOF result. A line read always consumes input. |
| LogReplay.ReadBytesLine | cmd/shortener/repository/repository.go:79-83 | ReadBytes yields a line exactly when a newline is left. The line ends at the first newline and includes it, and line plus rest is the input. |
| LogReplay.ReadLog | cmd/shortener/repository/repository.go:73-99 | The read loop (ReadBytes, Unmarshal, insert into the map, raise the maximum) returns what Recover states for every content and every read fault. That is the fold of the decoded lines, the first undecodable line's error, or the read error. |
| LogReplay.ReadStep | cmd/shortener/repository/repository.go:79-86 | Each ReadBytes call either yields the next line of the file, or finds that every line has been read. |
| LogReplay.ReplayStep | cmd/shortener/repository/repository.go:94-98 | Replaying one more decoded line applies its record to the state replayed so far. |
| LogReplay.RecoverReadError | cmd/shortener/repository/repository.go:84-86 | A read error on a call before any corrupt line ends recovery with that I/O error. |
| LogReplay.RecoverCorrupt | cmd/shortener/repository/repository.go:89-92 | A line that does not decode, after a clean prefix and before any read error, ends recovery with the error for that line. |
| LogReplay.RecoverClean | cmd/shortener/repository/repository.go:81-83 | When no read fault strikes before end of file, recovery is the replay of all lines. |
| LogReplay.LinesAppend | cmd/shortener/repository/repository.go:78-86 | The lines of a terminated log followed by more text are the lines of each, in order. |
| LogReplay.LinesOfOneLine | cmd/shortener/repository/repository.go:79 | Text without a newline, plus a newline, reads as exactly that one line. |
| LogReplay.LinesAreLines | cmd/shortener/repository/repository.go:79 | Every line read ends in its only newline. |
| LogReplay.LinesJoin | cmd/shortener/repository/repository.go:81-83 | The lines read are a prefix of the file, and what they leave over contains no newline. |
| LogReplay.LinesJoinTerminated | cmd/shortener/repository/repository.go:81-83 | For a terminated file the lines read are the whole file. |
| LogReplay.UnterminatedTailDropped | cmd/shortener/repository/repository.go:81-83 | A final fragment without a newline is not a line, and recovery with or without it is the same under every read fault. |
| LogReplay.ReplayLast | cmd/shortener/repository/repository.go:78-99 | Replaying one more line fails with an earlier failure, fails at that line if it did not decode, or applies its record. |
| LogReplay.ApplyRaisesMark | cmd/shortener/repository/repository.go:96-98 | Raising the maximum keeps the counter equal to the larger of 0 and the largest index seen. |
| LogReplay.ApplyKeepsLastWrite | cmd/shortener/repository/repository.go:94 | Inserting a record keeps the map holding exactly the indices seen, each with the URL of the last record carrying it. |
| LogReplay.ReplayState | cmd/shortener/repository/repository.go:94-98 | When every line decodes, replay succeeds, the counter is the larger of 0 and the largest index seen, and the map is last-write-wins over the records. |
| LogReplay.ReplaySucceedsIff | cmd/shortener/repository/repository.go:89-92 | Replay succeeds exactly when every line decodes. |
| LogReplay.ReplayPrefixFailure | cmd/shortener/repository/repository.go:89-92 | Once a line fails to decode after a clean prefix, every longer prefix fails at that line. |
| LogReplay.ReplayFailureIsFirstCorrupt | cmd/shortener/repository/repository.go:89-92 | A failed replay names a line that did not decode, and every earlier line decoded. |
| LogReplay.DecodedAppend | cmd/shortener/repository/repository.go:89 | Decoding a log with one more line adds that line's decoding at the end. |
| LogReplay.AppendRecordReplays | cmd/shortener/repository/repository.go:53-58 | Appending the line for the next id to a consistent log adds exactly that line, keeps the log terminated, and recovers to the index with the new entry. |
| LogReplay.LinesOfLogOf | cmd/shortener/repository/repository.go:58 | The log N successful Saves write is terminated and holds N lines. |
| LogReplay.NumberedAt | cmd/shortener/repository/repository.go:44-45 | The index a run of N Saves builds holds exactly ids 1..N, with id i holding the i-th URL. |
| LogReplay.RecoverRun | cmd/shortener/repository/repository.go:94-100 | Recovering the log of N successful Saves from an empty store gives ids 1..N mapped to the URLs in call order, with counter N. |
| LogReplay.LostNewlineCorruptsNextRecord | cmd/shortener/repository/repository.go:58-61 | If a write loses only its newline, the next record is glued onto the same line, and recovery then fails at that line. |
| Repository.Repository.Get | cmd/shortener/repository/repository.go:29-41 | Get yields no error exactly when the id parses and is in the map, and then yields the stored URL. Otherwise it yields "" and the error: the Atoi syntax error, or the NoFullURL message followed by the id text. It only reads the object. |
| Repository.Repository.Save | cmd/shortener/repository/repository.go:43-64 | The counter rises by one and the URL is stored under it, whatever the file does. On success it returns the new id and appends exactly the record's line. On a failure it returns 0 and the error, and the file is untouched or holds a cut line. A log in sync stays in sync on success, and on failure it still recovers to the index before the call. |
| Repository.NewRepository | cmd/shortener/repository/repository.go:66-101 | The result is the Recover outcome of the file, which is created if absent. Success gives a fresh repository with that index and the file name; failure gives no repository and the error. A terminated log leaves the new repository in sync. |
| Repository.GetIssued | cmd/shortener/repository/repository.go:35-36 | Every id in the map reads back through its decimal text as its URL. |
| Repository.GetNeverIssued | cmd/shortener/repository/repository.go:37-39 | A well-formed id not in the map yields "" and the NoFullURL message for that id. |
| Repository.GetIgnoresSpelling | cmd/shortener/repository/repository.go:29-41 | Id text with leading zeros, with or without a plus sign, reads the entry of the plain id; with a minus sign it reads the negated id. A miss on such text, with or without a sign, reports the NoFullURL message with the text as given. |
| Repository.SaveReplays | cmd/shortener/repository/repository.go:47-61 | Starting from a log in sync, the file left by Save recovers to the index with the new entry on success. After an open or write failure it recovers to the old index. |
| Repository.SaveExtendsRun | cmd/shortener/repository/repository.go:44-63 | One more successful Save extends the log and the index of a run of Saves by the next id. |
| Repository.SaveAll | cmd/shortener/handlers/shortener_test.go:189-216 | Saves of urls on a fresh repository return 1..N in call order, whatever the log file holds. A Save whose file step fails returns 0 instead. Afterwards the counter is N, the index holds ids 1..N with the URLs in call order, and Get reads id i+1 back as the i-th URL. |
| Repository.SaveNext | cmd/shortener/repository/repository.go:43-64 | On a repository whose file is the log of successful Saves of urls and whose index is theirs, a successful Save returns id \|urls\|+1 and leaves the log and index of the extended run, in sync. |
| Repository.SaveThenRestart | cmd/shortener/repository/repository.go:43-101 | After a successful Save on a repository in sync, reopening the log gives a repository with the same index, which reads the new id back as the URL. |
| Repository.ThreeRecordLogRecovers | cmd/shortener/repository/repository_test.go:26-48 | The three-record log recovers to ids 1..3 with their URLs and counter 3. |
| Repository.AbsentLogRecovers | cmd/shortener/repository/repository_test.go:15-24 | A log file that does not exist recovers to the empty map and counter 0. |
| Repository.GetCases | cmd/shortener/repository/repository_test.go:50-93 | On the one-entry map, "1" yields the URL, "abc" the syntax error, and "2" the NoFullURL error with "" as URL. |
| Repository.FourthSaveAppendsLine | cmd/shortener/repository/repository_test.go:95-117 | A Save after the three-record log takes id 4, its line `{"Index":4,"FullURL":"…"}` is the fourth line of the file, and the file recovers to four entries. |

## Left out

- The HTTP handlers, the router, `main` and the configuration are not part of this model. They are adapters over `Get` and `Save`, plus server lifecycle and flag parsing.
- The generated `Repositorier` mock and the `Repositorier` interface itself: the model calls the repository directly.
- Concurrency: the code has no lock around the map, the counter or the file. The model is single-threaded.
- Go's 64-bit `int` is not modelled. Integers are unbounded, so `CurrentInd++` never wraps and Atoi's out-of-range error is not modelled.
- `Marshal` writes backspace and form feed as `\u0008` and `\u000c`, as `encoding/json` did before Go 1.22. Go 1.22 and later write `\b` and `\f`, and that form is not modelled. The decoder accepts both.
- Text is a sequence of characters, not UTF-8 bytes. Invalid UTF-8 in a URL, which `json.Marshal` would replace, is not modelled.
- `Unmarshal` accepts only the layout `Marshal` writes, with JSON whitespace before and after. Internal whitespace, reordered, missing or unknown fields, and `null` written by other tools are not modelled. A fraction or exponent in `Index` is rejected, as Go rejects it for an `int` field. A `\u` escape of a surrogate half decodes to U+FFFD on its own; surrogate pairs are not combined.
- The `json.Marshal` error branch (`repository.go:53-56`) cannot be taken for this struct, so the model has no error there.
- Closing the file, and errors from the deferred `Close`, are not modelled.
- Open, read and write failures are inputs (`SaveFault`, `ReadFault`) rather than nondeterminism. A failed write is modelled as leaving at most all but the newline of the line.
- Go's error values are abstracted. A file error is `IoFailure` and a decoding error is `CorruptLine` with the 0-based line number, without Go's message text. Only the NoFullURL message is modelled exactly.
- The three-record test log is stated as the log of three Saves of arbitrary URLs (`LogOf`), not as the literal text of the test's constant.
- Repository.FourthSaveAppendsLine: the line's text is stated for a URL made only of characters Marshal writes unchanged (as in the test), not for every URL.
- Replay: the fold has no contract of its own; its properties are the lemmas ReplayState, ReplaySucceedsIff, ReplayPrefixFailure and ReplayFailureIsFirstCorrupt.
