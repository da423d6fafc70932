/** The file-backed URL repository: an in-memory index (Storage, CurrentInd) that hands
    out consecutive ids, an append-only log file with one JSON record per line, and the
    replay that rebuilds the index from the log at startup. */
module Repository {
  import opened Common
  import opened Decimal
  import opened RecordCodec
  import opened LogReplay

  /** The files on disk, by name. */
  class FileSystem {
    var files: map<string, string>

    constructor (files: map<string, string>)
      ensures this.files == files
    {
      this.files := files;
    }
  }

  /** What reading a file gives: its content, or nothing for a file that does not exist. */
  function ContentOf(files: map<string, string>, name: string): string {
    if name in files then files[name] else []
  }

  /** How the file steps of Save go: all succeed; opening the file fails; or the write
      fails after the given number of characters reached the file (a failed write never
      delivers the whole line, so at most all but its newline). */
  datatype SaveFault = NoSaveFault | SaveOpenFails | WriteFails(written: nat)

  /** The part of a line a failed write leaves in the file. */
  function Written(line: string, fault: SaveFault): (w: string)
    requires fault.WriteFails? && line != []
    ensures w < line
  {
    line[..if fault.written < |line| then fault.written else |line| - 1]
  }

  /** The log after a Save of rec that started from `before`: the whole line appended,
      the file untouched when it could not be opened, or the part a failed write left. */
  function SavedContent(before: string, rec: ShortToFullURL, fault: SaveFault): string {
    match fault
    case NoSaveFault => before + RecordLine(rec)
    case SaveOpenFails => before
    case WriteFails(_) => before + Written(RecordLine(rec), fault)
  }

  /** The log is terminated and recovers to exactly ix. */
  predicate Consistent(content: string, ix: Index) {
    Terminated(content) && Recover(content, NoReadFault) == Success(ix)
  }

  const NoFullURLMessage: string := "No full url for short url index "

  class Repository {
    /** Short id to full URL. */
    var storage: map<int, string>
    /** The last id handed out. */
    var currentInd: int
    /** The log file. */
    const fileName: string

    constructor (storage: map<int, string>, currentInd: int, fileName: string)
      ensures this.storage == storage && this.currentInd == currentInd
      ensures this.fileName == fileName
    {
      this.storage := storage;
      this.currentInd := currentInd;
      this.fileName := fileName;
    }

    /** The in-memory index. */
    function State(): Index
      reads this
    {
      Index(storage, currentInd)
    }

    /** The log file is terminated and replays to exactly the in-memory index. */
    predicate InSync(fs: FileSystem)
      reads this, fs
    {
      Consistent(ContentOf(fs.files, fileName), State())
    }

    /** The URL stored under the id the text names. On an id strconv.Atoi refuses, nothing
        and the syntax error; on an id with no entry, nothing and the NoFullURL message. */
    function Get(shortURLID: string): (r: (string, Option<Error>))
      reads this
      ensures r.1.None? <==> AtoiSyntax(shortURLID) && Atoi(shortURLID).value in storage
      ensures r.1.None? ==> r.0 == storage[Atoi(shortURLID).value]
      ensures r.1.Some? ==> r.0 == []
      ensures !AtoiSyntax(shortURLID) ==> r.1 == Some(InvalidSyntax(shortURLID))
      ensures AtoiSyntax(shortURLID) && r.1.Some? ==>
        r.1 == Some(NoFullURL(NoFullURLMessage + shortURLID))
    {
      match Atoi(shortURLID)
      case None => ([], Some(InvalidSyntax(shortURLID)))
      case Some(shortID) =>
        if shortID in storage then (storage[shortID], None)
        else ([], Some(NoFullURL(NoFullURLMessage + shortURLID)))
    }

    /** Take the next id, store url under it, then append the record to the log. The
        index is advanced before the file is touched, so it is advanced even when a file
        step fails; the call then returns id 0 and the error. */
    method Save(url: string, fs: FileSystem, fault: SaveFault) returns (id: int, err: Option<Error>)
      modifies this, fs
      ensures currentInd == old(currentInd) + 1
      ensures storage == old(storage)[currentInd := url]
      ensures fault.NoSaveFault? ==> id == currentInd && err.None?
      ensures !fault.NoSaveFault? ==> id == 0 && err == Some(IoFailure)
      ensures fault.SaveOpenFails? ==> fs.files == old(fs.files)
      ensures !fault.SaveOpenFails? ==> fs.files == old(fs.files)[fileName :=
        SavedContent(ContentOf(old(fs.files), fileName), ShortToFullURL(currentInd, url), fault)]
      ensures old(InSync(fs)) && fault.NoSaveFault? ==> InSync(fs)
      ensures old(InSync(fs)) && !fault.NoSaveFault? ==>
        Recover(ContentOf(fs.files, fileName), NoReadFault) == Success(old(State()))
    {
      ghost var wasInSync := InSync(fs);
      ghost var ix := State();
      currentInd := currentInd + 1;
      storage := storage[currentInd := url];

      if fault.SaveOpenFails? {
        return 0, Some(IoFailure);
      }
      // O_CREATE: a successful open creates the file if needed.
      var before := ContentOf(fs.files, fileName);
      fs.files := fs.files[fileName := before];

      var line := RecordLine(ShortToFullURL(currentInd, url));
      if fault.WriteFails? {
        fs.files := fs.files[fileName := before + Written(line, fault)];
        if wasInSync {
          SaveReplays(before, ix, url, fault);
        }
        return 0, Some(IoFailure);
      }
      fs.files := fs.files[fileName := before + line];
      if wasInSync {
        SaveReplays(before, ix, url, NoSaveFault);
      }
      return currentInd, None;
    }
  }

  /** Open (creating it if absent) and replay the log file into a new Repository; any
      file error or a line that does not decode yields no repository and the error. */
  method NewRepository(fileName: string, fs: FileSystem, fault: ReadFault)
    returns (repo: Repository?, err: Option<Error>)
    modifies fs
    ensures fault.ReadOpenFails? ==> fs.files == old(fs.files)
    ensures !fault.ReadOpenFails? ==>
      fs.files == old(fs.files)[fileName := ContentOf(old(fs.files), fileName)]
    ensures match Recover(ContentOf(old(fs.files), fileName), fault)
      case Success(ix) =>
        && repo != null && fresh(repo) && err.None?
        && repo.State() == ix && repo.fileName == fileName
      case Failure(e) => repo == null && err == Some(e)
    ensures repo != null && fault.NoReadFault? && Terminated(ContentOf(old(fs.files), fileName))
      ==> repo.InSync(fs)
  {
    if fault.ReadOpenFails? {
      return null, Some(IoFailure);
    }
    var content := ContentOf(fs.files, fileName);
    fs.files := fs.files[fileName := content];
    var res := ReadLog(content, fault);
    match res
    case Failure(e) =>
      return null, Some(e);
    case Success(ix) =>
      repo := new Repository(ix.storage, ix.currentInd, fileName);
      return repo, None;
  }

  /*** Lemmas ***/

  /** Every id in the index reads back through its decimal text. */
  lemma {:induction false} GetIssued(repo: Repository, n: int)
    requires n in repo.storage
    ensures repo.Get(Itoa(n)) == (repo.storage[n], None)
  {
    AtoiItoa(n);
  }

  /** A well-formed id that was never stored reads back as the NoFullURL error. */
  lemma {:induction false} GetNeverIssued(repo: Repository, n: int)
    requires n !in repo.storage
    ensures repo.Get(Itoa(n)) == ([], Some(NoFullURL(NoFullURLMessage + Itoa(n))))
  {
    AtoiItoa(n);
  }

  /** Ids with leading zeros or a plus sign name the same entry as the plain id, and a
      minus sign names the negated entry; a miss reports the text as it was given. */
  lemma {:induction false} GetIgnoresSpelling(repo: Repository, k: nat, n: nat)
    ensures var s := Zeros(k) + Itoa(n);
      && (n in repo.storage ==>
            repo.Get(s) == (repo.storage[n], None) && repo.Get("+" + s) == (repo.storage[n], None))
      && (n !in repo.storage ==>
            && repo.Get(s) == ([], Some(NoFullURL(NoFullURLMessage + s)))
            && repo.Get("+" + s) == ([], Some(NoFullURL(NoFullURLMessage + ("+" + s)))))
      && (-(n as int) in repo.storage ==> repo.Get("-" + s) == (repo.storage[-(n as int)], None))
      && (-(n as int) !in repo.storage ==>
            repo.Get("-" + s) == ([], Some(NoFullURL(NoFullURLMessage + ("-" + s)))))
  {
    AtoiLeadingZeros(k, n);
  }

  /** What the log left by a Save replays to, starting from a log in sync with the
      index: the index with the new record when the write succeeded, and the index as
      it was before the call when a file step failed, although memory has moved on. */
  lemma {:induction false} SaveReplays(before: string, ix: Index, url: string, fault: SaveFault)
    requires Terminated(before) && Recover(before, NoReadFault) == Success(ix)
    ensures var n := ix.currentInd + 1;
      var after := SavedContent(before, ShortToFullURL(n, url), fault);
      && (fault.NoSaveFault? ==> Terminated(after))
      && Recover(after, NoReadFault)
         == if fault.NoSaveFault? then Success(Index(ix.storage[n := url], n)) else Success(ix)
  {
    var n := ix.currentInd + 1;
    var rec := ShortToFullURL(n, url);
    match fault
    case NoSaveFault =>
      AppendRecordReplays(before, ix, url);
    case SaveOpenFails =>
    case WriteFails(_) =>
      var line := RecordLine(rec);
      var w := Written(line, fault);
      assert '\n' !in w by {
        assert w == line[..|w|] && |w| <= |Marshal(rec)|;
        assert w == Marshal(rec)[..|w|];
      }
      UnterminatedTailDropped(before, w);
  }

  /*** The scenarios of the repository tests ***/

  /** Recovery of the log three Saves write to an empty file (the three-record log the
      recovery test starts from): ids 1 to 3 with their URLs, high-water mark 3. */
  lemma {:induction false} ThreeRecordLogRecovers(a: string, b: string, c: string)
    ensures Recover(LogOf([a, b, c]), NoReadFault) == Success(Index(map[1 := a, 2 := b, 3 := c], 3))
  {
    RecoverRun([a, b, c]);
    assert [a, b, c][..2] == [a, b] && [a, b][..1] == [a] && [a][..0] == [];
    assert Numbered([a]) == map[1 := a];
    assert Numbered([a, b]) == map[1 := a, 2 := b];
    assert Numbered([a, b, c]) == map[1 := a, 2 := b, 3 := c];
  }

  /** Recovery of a file that does not exist yet: the empty index. */
  lemma {:induction false} AbsentLogRecovers(files: map<string, string>, name: string)
    requires name !in files
    ensures Recover(ContentOf(files, name), NoReadFault) == Success(EmptyIndex)
  {
    assert Lines([]) == [];
  }

  /** Get on the one-entry index of the Get tests: the stored id, a non-numeric id, and
      an id with no entry. */
  lemma {:induction false} GetCases(repo: Repository)
    requires repo.storage == map[1 := "https://stepik.org/"]
    ensures repo.Get("1") == ("https://stepik.org/", None)
    ensures repo.Get("abc") == ([], Some(InvalidSyntax("abc")))
    ensures repo.Get("2") == ([], Some(NoFullURL(NoFullURLMessage + "2")))
  {
    GetIssued(repo, 1);
    GetNeverIssued(repo, 2);
    AtoiRejectsNonDigit("abc", 0);
  }

  /** A Save after recovering the three-record log takes id 4: its record is the fourth
      line of the file, and the file then recovers to four entries. */
  lemma {:induction false} FourthSaveAppendsLine(a: string, b: string, c: string, url: string)
    requires forall i :: 0 <= i < |url| ==> IsPlain(url[i])
    ensures var after := SavedContent(LogOf([a, b, c]), ShortToFullURL(4, url), NoSaveFault);
      && |Lines(after)| == 4
      && Lines(after)[3] == IndexKey + "4" + URLKey + url + RecordEnd + "\n"
      && Recover(after, NoReadFault) == Success(Index(map[1 := a, 2 := b, 3 := c, 4 := url], 4))
  {
    var rec := ShortToFullURL(4, url);
    var log := LogOf([a, b, c]);
    LinesOfLogOf([a, b, c]);
    ThreeRecordLogRecovers(a, b, c);
    LinesAppend(log, RecordLine(rec));
    LinesOfOneLine(Marshal(rec));
    EscapePlain(url);
    assert Itoa(4) == "4";
    SaveReplays(log, Index(map[1 := a, 2 := b, 3 := c], 3), url, NoSaveFault);
  }
  /** One more successful Save on a store built by successful Saves of urls: it takes
      id |urls| + 1, so the log and the index are those of the run extended by url. */
  lemma {:induction false} SaveExtendsRun(urls: seq<string>, url: string)
    ensures var n := |urls| + 1;
      && SavedContent(LogOf(urls), ShortToFullURL(n, url), NoSaveFault) == LogOf(urls + [url])
      && Index(Numbered(urls)[n := url], n) == Index(Numbered(urls + [url]), n)
  {
    assert (urls + [url])[..|urls|] == urls;
  }

  /** Successive Saves of urls on a fresh in-memory repository, whatever its log file
      holds and whichever file steps fail: the ids are handed out by the counter alone, so
      the i-th Save returns i + 1 when its file steps succeed (0 with an error otherwise),
      the index holds ids 1..N with the URLs in call order, and each id reads back. */
  method SaveAll(repo: Repository, fs: FileSystem, urls: seq<string>, faults: seq<SaveFault>)
    returns (ids: seq<int>)
    requires repo.currentInd == 0 && repo.storage == map[]
    requires |faults| == |urls|
    modifies repo, fs
    ensures |ids| == |urls|
    ensures forall i :: 0 <= i < |ids| ==> ids[i] == if faults[i].NoSaveFault? then i + 1 else 0
    ensures repo.currentInd == |urls| && repo.storage == Numbered(urls)
    ensures forall i :: 0 <= i < |urls| ==> repo.Get(Itoa(i + 1)) == (urls[i], None)
  {
    ids := [];
    var i := 0;
    while i < |urls|
      invariant 0 <= i <= |urls| && |ids| == i
      invariant forall j :: 0 <= j < i ==> ids[j] == if faults[j].NoSaveFault? then j + 1 else 0
      invariant repo.currentInd == i && repo.storage == Numbered(urls[..i])
    {
      var id, err := repo.Save(urls[i], fs, faults[i]);
      NumberedPrefix(urls, i);
      ids := ids + [id];
      i := i + 1;
    }
    assert urls[..i] == urls;
    GetNumbered(repo, urls);
  }

  /** The index of the first i + 1 Saves is that of the first i plus id i + 1. */
  lemma {:induction false} NumberedPrefix(urls: seq<string>, i: nat)
    requires i < |urls|
    ensures Numbered(urls[..i + 1]) == Numbered(urls[..i])[i + 1 := urls[i]]
  {
    assert urls[..i + 1][..i] == urls[..i];
  }

  /** A repository holding the index of a run of Saves reads id i + 1 as the i-th URL. */
  lemma {:induction false} GetNumbered(repo: Repository, urls: seq<string>)
    requires repo.storage == Numbered(urls)
    ensures forall i :: 0 <= i < |urls| ==> repo.Get(Itoa(i + 1)) == (urls[i], None)
  {
    NumberedAt(urls);
    forall i | 0 <= i < |urls| ensures repo.Get(Itoa(i + 1)) == (urls[i], None) {
      GetIssued(repo, i + 1);
    }
  }

  /** A successful Save on a repository built by successful Saves of urls from an empty
      store: it returns id |urls| + 1, and the file and the index are
      those of the run extended by url, still in sync. */
  method SaveNext(repo: Repository, fs: FileSystem, urls: seq<string>, url: string) returns (id: int)
    requires ContentOf(fs.files, repo.fileName) == LogOf(urls)
    requires repo.State() == Index(Numbered(urls), |urls|)
    modifies repo, fs
    ensures id == |urls| + 1
    ensures fs.files == old(fs.files)[repo.fileName := LogOf(urls + [url])]
    ensures repo.State() == Index(Numbered(urls + [url]), |urls| + 1)
    ensures repo.InSync(fs)
  {
    RecoverRun(urls);
    var err;
    id, err := repo.Save(url, fs, NoSaveFault);
    SaveExtendsRun(urls, url);
  }

  /** Durability: after a successful Save on a repository in sync with its log, a restart
      that replays the log gives a repository that reads the new id back as the URL. */
  method SaveThenRestart(repo: Repository, fs: FileSystem, url: string)
    returns (id: int, restarted: Repository?)
    requires repo.InSync(fs)
    modifies repo, fs
    ensures restarted != null && restarted.State() == repo.State()
    ensures restarted.Get(Itoa(id)) == (url, None)
  {
    var err;
    id, err := repo.Save(url, fs, NoSaveFault);
    var err2;
    restarted, err2 := NewRepository(repo.fileName, fs, NoReadFault);
    GetIssued(restarted, id);
  }
}
