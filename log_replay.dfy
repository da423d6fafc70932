/** The append-only log and the replay NewRepository runs at startup: the file is read
    line by line with bufio.Reader.ReadBytes('\n'), every line is decoded, and the records
    are applied in file order to a fresh map and a high-water mark starting at 0. */
module LogReplay {
  import opened Common
  import opened Decimal
  import opened RecordCodec

  /*** Reading lines ***/

  /** What one ReadBytes('\n') call returns: a line with its terminator and the unread
      remainder, or, at end of file, the unterminated remainder together with io.EOF. */
  datatype ReadResult = Line(bytes: string, rest: string) | Eof(partial: string)

  /** True of a string that ends in its only newline: one line as ReadBytes returns it. */
  predicate IsLine(s: string) {
    |s| > 0 && s[|s| - 1] == '\n' && '\n' !in s[..|s| - 1]
  }

  /** bufio.Reader.ReadBytes('\n') on the unread part of the file. */
  function ReadBytes(buf: string): (r: ReadResult)
    ensures r.Line? ==> |r.rest| < |buf|
    ensures r.Eof? ==> r.partial == buf
    decreases |buf|
  {
    if buf == [] then Eof([])
    else if buf[0] == '\n' then Line("\n", buf[1..])
    else match ReadBytes(buf[1..])
      case Line(b, rest) => Line([buf[0]] + b, rest)
      case Eof(_) => Eof(buf)
  }

  /** ReadBytes returns a line exactly when a newline is left, and the line it returns
      runs up to and including the first newline. */
  lemma {:induction false} ReadBytesLine(buf: string)
    ensures ReadBytes(buf).Line? <==> '\n' in buf
    ensures ReadBytes(buf).Line? ==>
      buf == ReadBytes(buf).bytes + ReadBytes(buf).rest && IsLine(ReadBytes(buf).bytes)
    decreases |buf|
  {
    if buf != [] && buf[0] != '\n' {
      ReadBytesLine(buf[1..]);
      var r := ReadBytes(buf[1..]);
      if r.Line? {
        var b := r.bytes;
        assert ([buf[0]] + b)[..|b|] == [buf[0]] + b[..|b| - 1];
      }
      assert '\n' in buf <==> '\n' in buf[1..] by {
        assert buf == [buf[0]] + buf[1..];
      }
    }
  }

  /** The concatenation of a sequence of lines. */
  function Join(lines: seq<string>): string
    decreases |lines|
  {
    if lines == [] then [] else lines[0] + Join(lines[1..])
  }

  /** The lines the replay loop sees, in file order: every newline-terminated line of the
      file; a final fragment without a newline comes back with io.EOF and is not seen. */
  function Lines(content: string): seq<string>
    decreases |content|
  {
    match ReadBytes(content)
    case Line(b, rest) => [b] + Lines(rest)
    case Eof(_) => []
  }

  /** Empty, or ending in a newline: a file every successful Save leaves behind. */
  predicate Terminated(s: string) { s == [] || s[|s| - 1] == '\n' }

  /*** Replay ***/

  /** The in-memory index: Storage and CurrentInd of a Repository. */
  datatype Index = Index(storage: map<int, string>, currentInd: int)

  const EmptyIndex := Index(map[], 0)

  /** One iteration of the replay loop: store the record's URL under its index
      (overwriting any earlier one) and raise the high-water mark if needed. */
  function Apply(ix: Index, rec: ShortToFullURL): Index {
    Index(ix.storage[rec.index := rec.fullURL],
          if rec.index > ix.currentInd then rec.index else ix.currentInd)
  }

  /** What json.Unmarshal makes of each line: the record, or None where it fails. */
  function Decoded(lines: seq<string>): (ds: seq<Option<ShortToFullURL>>)
    ensures |ds| == |lines|
  {
    seq(|lines|, k requires 0 <= k < |lines| => Unmarshal(lines[k]))
  }

  /** Apply the decoded lines in order, starting from the empty index; the first line
      that failed to decode aborts the replay with its (0-based) line number. */
  function Replay(ds: seq<Option<ShortToFullURL>>): Result<Index, Error>
    decreases |ds|
  {
    if ds == [] then Success(EmptyIndex)
    else match Replay(ds[..|ds| - 1])
      case Failure(e) => Failure(e)
      case Success(ix) =>
        match ds[|ds| - 1]
        case None => Failure(CorruptLine(|ds| - 1))
        case Some(rec) => Success(Apply(ix, rec))
  }

  /** How the file steps of NewRepository go: all succeed; opening the file fails; or the
      given ReadBytes call (0-based) returns an error other than io.EOF. */
  datatype ReadFault = NoReadFault | ReadOpenFails | ReadFails(atCall: nat)

  /** The outcome of NewRepository on a file with the given content. */
  function Recover(content: string, fault: ReadFault): Result<Index, Error> {
    var ds := Decoded(Lines(content));
    match fault
    case ReadOpenFails => Failure(IoFailure)
    case NoReadFault => Replay(ds)
    case ReadFails(k) =>
      if k <= |ds| then
        match Replay(ds[..k])
        case Success(_) => Failure(IoFailure)
        case Failure(e) => Failure(e)
      else Replay(ds)
  }

  /** The read loop of NewRepository. */
  method ReadLog(content: string, fault: ReadFault) returns (res: Result<Index, Error>)
    ensures res == Recover(content, fault)
  {
    if fault.ReadOpenFails? {
      return Failure(IoFailure);
    }
    ghost var lines := Lines(content);
    ghost var ds := Decoded(lines);
    var storageMap: map<int, string> := map[];
    var maxIndex := 0;
    var unread := content;
    var calls: nat := 0;
    while true
      invariant calls <= |lines|
      invariant Lines(unread) == lines[calls..]
      invariant Replay(ds[..calls]) == Success(Index(storageMap, maxIndex))
      invariant fault.ReadFails? ==> calls <= fault.atCall
      decreases |unread|
    {
      if fault == ReadFails(calls) {
        RecoverReadError(content, calls);
        return Failure(IoFailure);
      }
      var r := ReadBytes(unread);
      ReadStep(unread, lines, calls);
      if r.Eof? {
        assert ds[..calls] == ds;
        break;
      }
      var item := Unmarshal(r.bytes);
      assert ds[calls] == item;
      if item.None? {
        RecoverCorrupt(content, fault, calls);
        return Failure(CorruptLine(calls));
      }
      ghost var before := Index(storageMap, maxIndex);
      storageMap := storageMap[item.value.index := item.value.fullURL];
      if item.value.index > maxIndex {
        maxIndex := item.value.index;
      }
      assert Index(storageMap, maxIndex) == Apply(before, item.value);
      ReplayStep(ds, calls, before);
      unread := r.rest;
      calls := calls + 1;
    }
    RecoverClean(content, fault);
    return Success(Index(storageMap, maxIndex));
  }

  /** One ReadBytes call of the read loop, on the text left after `calls` lines: either
      it reads the next line, or every line has been read. */
  lemma {:induction false} ReadStep(unread: string, lines: seq<string>, calls: nat)
    requires calls <= |lines| && Lines(unread) == lines[calls..]
    ensures ReadBytes(unread).Eof? ==> calls == |lines|
    ensures ReadBytes(unread).Line? ==>
      && calls < |lines| && lines[calls] == ReadBytes(unread).bytes
      && lines[calls + 1..] == Lines(ReadBytes(unread).rest)
  {
    var r := ReadBytes(unread);
    if r.Line? {
      assert Lines(unread) == [r.bytes] + Lines(r.rest);
    }
  }

  /** Replaying one more line that decoded applies its record. */
  lemma {:induction false} ReplayStep(ds: seq<Option<ShortToFullURL>>, k: nat, ix: Index)
    requires k < |ds| && ds[k].Some? && Replay(ds[..k]) == Success(ix)
    ensures Replay(ds[..k + 1]) == Success(Apply(ix, ds[k].value))
  {
    assert ds[..k + 1] == ds[..k] + [ds[k]];
    ReplayLast(ds[..k], ds[k]);
  }

  /** The three ways the read loop ends, stated on Recover. */
  lemma {:induction false} RecoverReadError(content: string, k: nat)
    requires k <= |Lines(content)|
    requires Replay(Decoded(Lines(content))[..k]).Success?
    ensures Recover(content, ReadFails(k)) == Failure(IoFailure)
  {
  }

  lemma {:induction false} RecoverCorrupt(content: string, fault: ReadFault, j: nat)
    requires !fault.ReadOpenFails? && (fault.ReadFails? ==> j < fault.atCall)
    requires j < |Lines(content)|
    requires Replay(Decoded(Lines(content))[..j]).Success? && Decoded(Lines(content))[j].None?
    ensures Recover(content, fault) == Failure(CorruptLine(j))
  {
    var ds := Decoded(Lines(content));
    ReplayPrefixFailure(ds, j, |ds|);
    assert ds[..|ds|] == ds;
    if fault.ReadFails? && fault.atCall <= |ds| {
      ReplayPrefixFailure(ds, j, fault.atCall);
    }
  }

  lemma {:induction false} RecoverClean(content: string, fault: ReadFault)
    requires !fault.ReadOpenFails? && (fault.ReadFails? ==> |Lines(content)| < fault.atCall)
    ensures Recover(content, fault) == Replay(Decoded(Lines(content)))
  {
  }

  /*** Lemmas about reading lines ***/

  lemma {:induction false} ReadBytesAppend(a: string, b: string)
    requires '\n' in a
    ensures ReadBytes(a).Line?
    ensures ReadBytes(a + b) == Line(ReadBytes(a).bytes, ReadBytes(a).rest + b)
    decreases |a|
  {
    if a[0] != '\n' {
      assert (a + b)[1..] == a[1..] + b;
      assert '\n' in a[1..] by { assert a == [a[0]] + a[1..]; }
      ReadBytesAppend(a[1..], b);
    } else {
      assert (a + b)[1..] == a[1..] + b;
    }
  }

  lemma {:induction false} RestTerminated(a: string)
    requires a != [] && Terminated(a)
    ensures ReadBytes(a).Line? && Terminated(ReadBytes(a).rest)
  {
    assert a[|a| - 1] == '\n';
    ReadBytesLine(a);
    var r := ReadBytes(a);
    if r.rest != [] {
      assert a[|a| - 1] == r.rest[|r.rest| - 1];
    }
  }

  /** Reading a terminated prefix and then the rest gives the lines of both, in order. */
  lemma {:induction false} LinesAppend(a: string, b: string)
    requires Terminated(a)
    ensures Lines(a + b) == Lines(a) + Lines(b)
    decreases |a|
  {
    if a == [] {
      assert a + b == b;
    } else {
      var r := ReadBytes(a);
      assert r.Line? && Terminated(r.rest) by { RestTerminated(a); }
      var x, y := r.bytes, r.rest;
      assert ReadBytes(a + b) == Line(x, y + b) by { ReadBytesAppend(a, b); }
      LinesAppend(y, b);
      calc {
        Lines(a + b);
        [x] + Lines(y + b);
        [x] + (Lines(y) + Lines(b));
        ([x] + Lines(y)) + Lines(b);
        Lines(a) + Lines(b);
      }
    }
  }

  lemma {:induction false} LinesOfOneLine(x: string)
    requires '\n' !in x
    ensures Lines(x + "\n") == [x + "\n"]
  {
    var s := x + "\n";
    assert s[|x|] == '\n';
    ReadBytesLine(s);
    var r := ReadBytes(s);
    assert s == r.bytes + r.rest;
    assert s[|r.bytes| - 1] == '\n';
    assert |r.bytes| == |s|;
    assert r.bytes == s && r.rest == [];
    assert Lines(r.rest) == [];
  }

  /** Every line the loop sees is one newline-terminated line of the file. */
  lemma {:induction false} LinesAreLines(content: string)
    ensures forall k :: 0 <= k < |Lines(content)| ==> IsLine(Lines(content)[k])
    decreases |content|
  {
    ReadBytesLine(content);
    var r := ReadBytes(content);
    if r.Line? {
      LinesAreLines(r.rest);
      assert Lines(content) == [r.bytes] + Lines(r.rest);
    }
  }

  /** The lines put back together are the file up to its last newline, and what
      follows them has no newline. */
  lemma {:induction false} LinesJoin(content: string)
    ensures Join(Lines(content)) <= content
    ensures '\n' !in content[|Join(Lines(content))|..]
    decreases |content|
  {
    ReadBytesLine(content);
    var r := ReadBytes(content);
    if r.Line? {
      LinesJoin(r.rest);
      var ls, j := Lines(content), Join(Lines(r.rest));
      assert Join(ls) == r.bytes + j by {
        assert ls == [r.bytes] + Lines(r.rest);
        assert ls[1..] == Lines(r.rest);
      }
      assert content[|Join(ls)|..] == r.rest[|j|..] by {
        assert content == r.bytes + r.rest;
      }
    } else {
      assert Join(Lines(content)) == [];
    }
  }

  /** A terminated file is given back whole by its lines. */
  lemma {:induction false} LinesJoinTerminated(content: string)
    requires Terminated(content)
    ensures Join(Lines(content)) == content
  {
    LinesJoin(content);
  }

  /** A final fragment without a newline is never replayed. */
  lemma {:induction false} UnterminatedTailDropped(content: string, fragment: string)
    requires Terminated(content) && '\n' !in fragment
    ensures Lines(content + fragment) == Lines(content)
    ensures forall fault :: Recover(content + fragment, fault) == Recover(content, fault)
  {
    LinesAppend(content, fragment);
    assert Lines(fragment) == [] by { ReadBytesLine(fragment); }
    assert Lines(content) + [] == Lines(content);
  }

  /*** Lemmas about replay ***/

  /** Every line decoded. */
  predicate AllDecode(ds: seq<Option<ShortToFullURL>>) {
    forall k :: 0 <= k < |ds| ==> ds[k].Some?
  }

  /** The records of lines that all decoded. */
  function Records(ds: seq<Option<ShortToFullURL>>): (rs: seq<ShortToFullURL>)
    requires AllDecode(ds)
    ensures |rs| == |ds|
    ensures forall k :: 0 <= k < |ds| ==> ds[k] == Some(rs[k])
    decreases |ds|
  {
    if ds == [] then []
    else
      var init := ds[..|ds| - 1];
      assert AllDecode(init) by {
        assert forall k :: 0 <= k < |init| ==> init[k] == ds[k];
      }
      Records(init) + [ds[|ds| - 1].value]
  }

  /** m is the largest index among the records, or 0 when none is larger. */
  ghost predicate HighWaterMark(rs: seq<ShortToFullURL>, m: int) {
    && m >= 0
    && (forall k :: 0 <= k < |rs| ==> rs[k].index <= m)
    && (m == 0 || exists k :: 0 <= k < |rs| && rs[k].index == m)
  }

  /** No record after position k has the same index as record k. */
  ghost predicate IsLastWrite(rs: seq<ShortToFullURL>, k: int) {
    0 <= k < |rs| && forall j :: k < j < |rs| ==> rs[j].index != rs[k].index
  }

  /** The map holds exactly the indices of the records, each with the URL of the
      last record that carries it. */
  ghost predicate LastWriteWins(rs: seq<ShortToFullURL>, storage: map<int, string>) {
    && (forall k :: 0 <= k < |rs| ==> rs[k].index in storage)
    && (forall i :: i in storage ==> exists k :: 0 <= k < |rs| && rs[k].index == i)
    && (forall k :: IsLastWrite(rs, k) ==> storage[rs[k].index] == rs[k].fullURL)
  }

  /** A non-empty sequence is its prefix and its last element. */
  lemma {:induction false} SplitLast<T>(s: seq<T>)
    requires s != []
    ensures s == s[..|s| - 1] + [s[|s| - 1]]
  {
  }

  /** Applying one more record to the replayed state. */
  lemma {:induction false} ReplayLast(ds: seq<Option<ShortToFullURL>>, d: Option<ShortToFullURL>)
    ensures Replay(ds + [d]) == match Replay(ds)
      case Failure(e) => Failure(e)
      case Success(ix) =>
        match d
        case None => Failure(CorruptLine(|ds|))
        case Some(rec) => Success(Apply(ix, rec))
  {
    assert (ds + [d])[..|ds|] == ds;
  }

  /** Applying a record keeps the high-water mark the largest index seen. */
  lemma {:induction false} ApplyRaisesMark(rs: seq<ShortToFullURL>, ix: Index, rec: ShortToFullURL,
                                            rs': seq<ShortToFullURL>)
    requires HighWaterMark(rs, ix.currentInd) && rs' == rs + [rec]
    ensures HighWaterMark(rs', Apply(ix, rec).currentInd)
  {
    var m := Apply(ix, rec).currentInd;
    if m != 0 {
      if rec.index > ix.currentInd {
        assert rs'[|rs|].index == m;
      } else {
        var k :| 0 <= k < |rs| && rs[k].index == ix.currentInd;
        assert rs'[k].index == m;
      }
    }
  }

  /** Applying a record keeps the map last-write-wins over the records. */
  lemma {:induction false} ApplyKeepsLastWrite(rs: seq<ShortToFullURL>, ix: Index, rec: ShortToFullURL,
                                                rs': seq<ShortToFullURL>)
    requires LastWriteWins(rs, ix.storage) && rs' == rs + [rec]
    ensures LastWriteWins(rs', Apply(ix, rec).storage)
  {
    var st := Apply(ix, rec).storage;
    var n := |rs|;
    forall k | 0 <= k < |rs'| ensures rs'[k].index in st {
      if k < n { assert rs'[k] == rs[k]; }
    }
    forall i | i in st
      ensures exists k :: 0 <= k < |rs'| && rs'[k].index == i
    {
      if i == rec.index {
        assert rs'[n].index == i;
      } else {
        var k :| 0 <= k < n && rs[k].index == i;
        assert rs'[k].index == i;
      }
    }
    forall k | IsLastWrite(rs', k)
      ensures st[rs'[k].index] == rs'[k].fullURL
    {
      if k < n {
        assert rs'[n].index != rs'[k].index;
        assert IsLastWrite(rs, k) by {
          forall j | k < j < n ensures rs[j].index != rs[k].index {
            assert rs'[j] == rs[j];
          }
        }
      }
    }
  }

  /** A log whose lines all decode replays to the map that last-write-wins gives and to
      the larger of 0 and the largest index seen. */
  lemma {:induction false} ReplayState(ds: seq<Option<ShortToFullURL>>)
    requires AllDecode(ds)
    ensures Replay(ds).Success?
    ensures HighWaterMark(Records(ds), Replay(ds).value.currentInd)
    ensures LastWriteWins(Records(ds), Replay(ds).value.storage)
    decreases |ds|
  {
    if ds != [] {
      var n := |ds| - 1;
      var init := ds[..n];
      assert AllDecode(init) by {
        assert forall k :: 0 <= k < |init| ==> init[k] == ds[k];
      }
      ReplayState(init);
      var ix, rec := Replay(init).value, ds[n].value;
      SplitLast(ds);
      ReplayLast(init, Some(rec));
      assert Records(ds) == Records(init) + [rec];
      ApplyRaisesMark(Records(init), ix, rec, Records(ds));
      ApplyKeepsLastWrite(Records(init), ix, rec, Records(ds));
    }
  }

  /** Replay succeeds exactly when every line decodes. */
  lemma {:induction false} ReplaySucceedsIff(ds: seq<Option<ShortToFullURL>>)
    ensures Replay(ds).Success? <==> AllDecode(ds)
    decreases |ds|
  {
    if AllDecode(ds) {
      ReplayState(ds);
    } else if ds != [] {
      var n := |ds| - 1;
      var init := ds[..n];
      ReplaySucceedsIff(init);
      if AllDecode(init) {
        assert forall k :: 0 <= k < |init| ==> init[k] == ds[k];
        assert ds[n].None?;
      }
    }
  }

  /** Once line j fails to decode after a clean prefix, every longer prefix fails there. */
  lemma {:induction false} ReplayPrefixFailure(ds: seq<Option<ShortToFullURL>>, j: nat, k: nat)
    requires j < k <= |ds|
    requires Replay(ds[..j]).Success? && ds[j].None?
    ensures Replay(ds[..k]) == Failure(CorruptLine(j))
    decreases k
  {
    assert ds[..k][..k - 1] == ds[..k - 1];
    if k > j + 1 {
      ReplayPrefixFailure(ds, j, k - 1);
    }
  }

  /** A failed replay names the first line that does not decode. */
  lemma {:induction false} ReplayFailureIsFirstCorrupt(ds: seq<Option<ShortToFullURL>>)
    requires Replay(ds).Failure?
    ensures Replay(ds).error.CorruptLine?
    ensures var j := Replay(ds).error.lineNo;
      j < |ds| && ds[j].None? && forall i :: 0 <= i < j ==> ds[i].Some?
    decreases |ds|
  {
    var n := |ds| - 1;
    var init := ds[..n];
    assert forall i :: 0 <= i < |init| ==> init[i] == ds[i];
    if Replay(init).Failure? {
      ReplayFailureIsFirstCorrupt(init);
    } else {
      ReplaySucceedsIff(init);
    }
  }

  /*** The log that Save writes ***/

  lemma {:induction false} DecodedAppend(lines: seq<string>, line: string)
    ensures Decoded(lines + [line]) == Decoded(lines) + [Unmarshal(line)]
  {
    var a, b := Decoded(lines + [line]), Decoded(lines) + [Unmarshal(line)];
    forall k | 0 <= k < |a| ensures a[k] == b[k] {
      if k < |lines| {
        assert (lines + [line])[k] == lines[k];
      } else {
        assert (lines + [line])[k] == line;
      }
    }
  }

  /** Appending the line for the next id to a consistent log yields exactly one new line
      and replays to the index that Save produces in memory. */
  lemma {:induction false} AppendRecordReplays(content: string, ix: Index, url: string)
    requires Terminated(content)
    requires Recover(content, NoReadFault) == Success(ix)
    ensures var n := ix.currentInd + 1;
      var line := RecordLine(ShortToFullURL(n, url));
      && Terminated(content + line)
      && Lines(content + line) == Lines(content) + [line]
      && Recover(content + line, NoReadFault) == Success(Index(ix.storage[n := url], n))
  {
    var n := ix.currentInd + 1;
    var rec := ShortToFullURL(n, url);
    var line := RecordLine(rec);
    LinesAppend(content, line);
    LinesOfOneLine(Marshal(rec));
    UnmarshalMarshal(rec);
    DecodedAppend(Lines(content), line);
    ReplayLast(Decoded(Lines(content)), Some(rec));
  }

  /** The log that successive successful Saves of urls write to an empty file:
      record i + 1 holds urls[i]. */
  function LogOf(urls: seq<string>): string
    decreases |urls|
  {
    if urls == [] then []
    else LogOf(urls[..|urls| - 1]) + RecordLine(ShortToFullURL(|urls|, urls[|urls| - 1]))
  }

  /** The log of N Saves is terminated and holds N lines. */
  lemma {:induction false} LinesOfLogOf(urls: seq<string>)
    ensures Terminated(LogOf(urls)) && |Lines(LogOf(urls))| == |urls|
    decreases |urls|
  {
    if urls == [] {
      assert Lines([]) == [];
    } else {
      var n := |urls|;
      var init := urls[..n - 1];
      var rec := ShortToFullURL(n, urls[n - 1]);
      LinesOfLogOf(init);
      assert LogOf(urls) == LogOf(init) + RecordLine(rec);
      LinesAppend(LogOf(init), RecordLine(rec));
      LinesOfOneLine(Marshal(rec));
    }
  }

  /** The ids 1..N mapped to the URLs saved under them. */
  function Numbered(urls: seq<string>): map<int, string>
    decreases |urls|
  {
    if urls == [] then map[]
    else Numbered(urls[..|urls| - 1])[|urls| := urls[|urls| - 1]]
  }

  /** Numbered holds exactly the ids 1..N, id i with the i-th URL. */
  lemma {:induction false} NumberedAt(urls: seq<string>)
    ensures forall i :: i in Numbered(urls) <==> 1 <= i <= |urls|
    ensures forall i :: 1 <= i <= |urls| ==> Numbered(urls)[i] == urls[i - 1]
    decreases |urls|
  {
    if urls != [] {
      var init := urls[..|urls| - 1];
      NumberedAt(init);
      assert forall i :: 0 <= i < |init| ==> init[i] == urls[i];
    }
  }

  /** Replaying the log of N successful Saves from an empty store gives ids 1..N mapped to
      the URLs in call order, with N as the high-water mark. */
  lemma {:induction false} RecoverRun(urls: seq<string>)
    ensures Terminated(LogOf(urls))
    ensures Recover(LogOf(urls), NoReadFault) == Success(Index(Numbered(urls), |urls|))
    decreases |urls|
  {
    if urls == [] {
      assert Recover([], NoReadFault) == Success(EmptyIndex) by {
        assert Lines([]) == [];
      }
    } else {
      var n := |urls|;
      var init := urls[..n - 1];
      var content := LogOf(init);
      var line := RecordLine(ShortToFullURL(n, urls[n - 1]));
      assert LogOf(urls) == content + line;
      assert Numbered(urls) == Numbered(init)[n := urls[n - 1]];
      RecoverRun(init);
      AppendRecordReplays(content, Index(Numbered(init), n - 1), urls[n - 1]);
    }
  }

  lemma {:induction false} GlueRegroup(c: string, a: string, b: string)
    ensures c + a + b == c + (a + b)
  {
  }

  /** A write that lost only its newline glues the next record onto the same line,
      which no longer decodes: replay then aborts at that line. */
  lemma {:induction false} LostNewlineCorruptsNextRecord(content: string, r1: ShortToFullURL, r2: ShortToFullURL)
    requires Terminated(content) && Recover(content, NoReadFault).Success?
    ensures Recover(content + Marshal(r1) + RecordLine(r2), NoReadFault)
            == Failure(CorruptLine(|Lines(content)|))
  {
    var glued := Marshal(r1) + RecordLine(r2);
    GlueRegroup(content, Marshal(r1), RecordLine(r2));
    assert glued == (Marshal(r1) + Marshal(r2)) + "\n";
    LinesAppend(content, glued);
    LinesOfOneLine(Marshal(r1) + Marshal(r2));
    GluedRecordsDoNotDecode(r1, r2);
    DecodedAppend(Lines(content), glued);
    ReplayLast(Decoded(Lines(content)), None);
  }
}
