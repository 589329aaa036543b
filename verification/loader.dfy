/**
 Loading the dictionaries (`TextSearch.load_dictionaries` and `run`): every
 non-empty line of the `location` setting names a folder; every `.txt` file
 listed there is parsed into a record keyed by its title; after each folder
 every record loaded so far is indexed with its own regex filter.

 The folder listings, file contents and regex engine are inputs. Failures
 inside the `try` (a bad header, a missing field, bytes that are not UTF-8)
 report the file and end the load with a mistake. Three failures sit outside
 the `try` and end the worker thread with an exception: an empty file (which
 cannot be memory-mapped), a folder that does not exist, and a regex filter
 that does not compile. `LoadAsWritten` keeps those as crashes; `Load` is the
 same loop with them reported like any other mistake.
 */
module Loader {
  import opened Wrappers
  import opened Text
  import opened OrderedMap
  import opened Header
  import opened Indexing
  import opened Records
  import opened Lookup

  /** A file's bytes: UTF-8 text (an empty file is `Decoded("")`), or bytes that do not decode. */
  datatype Contents = Decoded(text: string) | Undecodable

  datatype DictFile = DictFile(name: string, contents: Contents)

  /** Folder listings in `os.listdir` order; a path without an entry does not exist. */
  type FileSystem = map<string, seq<DictFile>>

  /**
   The regex engine: all matches of a pattern in a body, left to right, in
   multi-line mode, or `None` when the pattern does not compile.
   */
  type Finder = (string, string) -> Option<seq<Match>>

  /** An exception raised outside the `try`. */
  datatype Fault = EmptyFile(file: string) | MissingFolder(path: string) | BadFilter(title: string)

  /** How a load ends. */
  datatype Outcome =
    | Completed(dicts: Collection)
    | Mistake(name: string, dicts: Collection)
    | Crashed(fault: Fault)

  /** One pass over files or records: go on with a collection, or stop with an outcome. */
  datatype Step = Next(dicts: Collection) | Stop(outcome: Outcome)

  /**
   The number of `Done!` messages the load puts on the queue: one from `run`
   after a normal return, two after a mistake (one from the mistake report,
   one from `run` after the early return), none when an exception ends the
   thread.
   */
  function Signals(o: Outcome): nat {
    match o
    case Completed(_) => 1
    case Mistake(_, _) => 2
    case Crashed(_) => 0
  }

  function FaultName(f: Fault): string {
    match f
    case EmptyFile(file) => file
    case MissingFolder(path) => path
    case BadFilter(title) => title
  }

  /** An exception outside the `try`: a crash as written, a reported mistake when `guarded`. */
  function Fail(f: Fault, c: Collection, guarded: bool): (o: Outcome)
    ensures guarded ==> o == Mistake(FaultName(f), c)
    ensures !guarded ==> o == Crashed(f)
  {
    if guarded then Mistake(FaultName(f), c) else Crashed(f)
  }

  /** The record a parsed file yields, under its title, not yet indexed. */
  function RecordOf(p: Parsed): (string, DictRecord) {
    (p.header.title, DictRecord(p.header.pair, p.header.description, p.header.regexFilter, p.body, None))
  }

  /** The record a file yields when it decodes and its header parses. */
  function FileEntry(f: DictFile): Option<(string, DictRecord)> {
    match f.contents
    case Undecodable => None
    case Decoded(text) =>
      match ParseFile(text)
      case Failure(_) => None
      case Success(p) => Some(RecordOf(p))
  }

  predicate IsDictFile(f: DictFile) {
    EndsWith(f.name, ".txt")
  }

  /** One `.txt` file: map it, parse it, store its record under its title. */
  function ReadFile(c: Collection, f: DictFile, guarded: bool): Step {
    if f.contents == Decoded("") then Stop(Fail(EmptyFile(f.name), c, guarded))
    else
      match FileEntry(f)
      case None => Stop(Mistake(f.name, c))
      case Some(e) => Next(Put(c, e.0, e.1))
  }

  /** The loop over one folder's listing, from position `from` on. */
  function Gather(c: Collection, files: seq<DictFile>, from: nat, guarded: bool): Step
    requires from <= |files|
    decreases |files| - from
  {
    if from == |files| then Next(c)
    else if !IsDictFile(files[from]) then Gather(c, files, from + 1, guarded)
    else
      match ReadFile(c, files[from], guarded)
      case Stop(o) => Stop(o)
      case Next(c') => Gather(c', files, from + 1, guarded)
  }

  /** The index pass over every record loaded so far, from position `from` on. */
  function IndexRecords(c: Collection, from: nat, finder: Finder, guarded: bool): Step
    requires from <= |c|
    decreases |c| - from
  {
    if from == |c| then Next(c)
    else
      var (title, rec) := c[from];
      match finder(RStrip(rec.regexFilter), rec.body)
      case None => Stop(Fail(BadFilter(title), c, guarded))
      case Some(ms) => IndexRecords(c[from := (title, rec.(index := Some(Build(ms))))], from + 1, finder, guarded)
  }

  /** The loop over the folders, from position `from` on. */
  function LoadFrom(c: Collection, paths: seq<string>, from: nat, fs: FileSystem, finder: Finder, guarded: bool): Outcome
    requires from <= |paths|
    decreases |paths| - from
  {
    if from == |paths| then Completed(c)
    else if paths[from] !in fs then Fail(MissingFolder(paths[from]), c, guarded)
    else
      match Gather(c, fs[paths[from]], 0, guarded)
      case Stop(o) => o
      case Next(c1) =>
        match IndexRecords(c1, 0, finder, guarded)
        case Stop(o) => o
        case Next(c2) => LoadFrom(c2, paths, from + 1, fs, finder, guarded)
  }

  /** The load as the code runs it. */
  function LoadAsWritten(location: string, fs: FileSystem, finder: Finder): Outcome {
    LoadFrom([], NonEmptyLines(location), 0, fs, finder, false)
  }

  /** The load with every failure reported, so that the waiting window is always released. */
  function Load(location: string, fs: FileSystem, finder: Finder): Outcome {
    LoadFrom([], NonEmptyLines(location), 0, fs, finder, true)
  }

  // ---------------------------------------------------------------------
  // Completion signal
  // ---------------------------------------------------------------------

  /** A folder holding one empty `.txt` file ends the load with no `Done!` at all. */
  lemma EmptyFileHangs(finder: Finder)
    ensures LoadAsWritten("dicts", map["dicts" := [DictFile("empty.txt", Decoded(""))]], finder)
      == Crashed(EmptyFile("empty.txt"))
    ensures Signals(LoadAsWritten("dicts", map["dicts" := [DictFile("empty.txt", Decoded(""))]], finder)) == 0
  {
    var fs := map["dicts" := [DictFile("empty.txt", Decoded(""))]];
    OneLine("dicts");
    assert "empty.txt"[|"empty.txt"| - |".txt"|..] == ".txt";
    assert Gather([], fs["dicts"], 0, false) == Stop(Crashed(EmptyFile("empty.txt")));
  }

  /** With every failure reported, each load puts at least one `Done!` on the queue. */
  lemma {:induction false} LoadSignals(location: string, fs: FileSystem, finder: Finder)
    ensures Signals(Load(location, fs, finder)) >= 1
  {
    LoadFromSignals([], NonEmptyLines(location), 0, fs, finder);
  }

  lemma {:induction false} LoadFromSignals(c: Collection, paths: seq<string>, from: nat, fs: FileSystem, finder: Finder)
    requires from <= |paths|
    ensures !LoadFrom(c, paths, from, fs, finder, true).Crashed?
    decreases |paths| - from
  {
    if from < |paths| && paths[from] in fs {
      GatherReports(c, fs[paths[from]], 0);
      match Gather(c, fs[paths[from]], 0, true)
      case Stop(o) =>
      case Next(c1) =>
        IndexReports(c1, 0, finder);
        match IndexRecords(c1, 0, finder, true)
        case Stop(o) =>
        case Next(c2) => LoadFromSignals(c2, paths, from + 1, fs, finder);
    }
  }

  lemma {:induction false} GatherReports(c: Collection, files: seq<DictFile>, from: nat)
    requires from <= |files|
    ensures Gather(c, files, from, true).Stop? ==> Gather(c, files, from, true).outcome.Mistake?
    decreases |files| - from
  {
    if from < |files| {
      if !IsDictFile(files[from]) {
        GatherReports(c, files, from + 1);
      } else if ReadFile(c, files[from], true).Next? {
        GatherReports(ReadFile(c, files[from], true).dicts, files, from + 1);
      }
    }
  }

  lemma {:induction false} IndexReports(c: Collection, from: nat, finder: Finder)
    requires from <= |c|
    ensures IndexRecords(c, from, finder, true).Stop? ==> IndexRecords(c, from, finder, true).outcome.Mistake?
    decreases |c| - from
  {
    if from < |c| {
      var (title, rec) := c[from];
      if finder(RStrip(rec.regexFilter), rec.body).Some? {
        var ms := finder(RStrip(rec.regexFilter), rec.body).value;
        IndexReports(c[from := (title, rec.(index := Some(Build(ms))))], from + 1, finder);
      }
    }
  }

  /**
   A folder holding one file written from a header and a body loads as one
   record carrying exactly those values, indexed with its regex filter.
   */
  lemma RenderedFileLoads(path: string, name: string, h: Header, body: string, finder: Finder)
    requires |path| > 0 && forall k :: 0 <= k < |path| ==> InLine(path[k])
    requires EndsWith(name, ".txt")
    requires PlainValue(h.title) && PlainValue(h.pair) && PlainValue(h.description) && PlainValue(h.regexFilter)
    requires finder(RStrip(h.regexFilter), body).Some?
    ensures Load(path, map[path := [DictFile(name, Decoded(Render(h, body)))]], finder)
      == Completed([(h.title, DictRecord(h.pair, h.description, h.regexFilter, body,
                                          Some(Build(finder(RStrip(h.regexFilter), body).value))))])
  {
    RenderParse(h, body);
    assert Render(h, body)[0] == '#';
    SingleFileLoads(path, DictFile(name, Decoded(Render(h, body))), Parsed(h, body), finder);
  }

  lemma SingleFileLoads(path: string, f: DictFile, p: Parsed, finder: Finder)
    requires |path| > 0 && forall k :: 0 <= k < |path| ==> InLine(path[k])
    requires IsDictFile(f) && f.contents != Decoded("")
    requires f.contents.Decoded? && ParseFile(f.contents.text) == Success(p)
    requires finder(RStrip(p.header.regexFilter), p.body).Some?
    ensures Load(path, map[path := [f]], finder)
      == Completed([(p.header.title, RecordOf(p).1.(index := Some(Build(finder(RStrip(p.header.regexFilter), p.body).value))))])
  {
    var fs := map[path := [f]];
    OneLine(path);
    assert fs[path] == [f];
    FileEntryOf(f, p);
    ReadOne([], f, RecordOf(p), true);
    GatherOne([], f);
    assert Put([], RecordOf(p).0, RecordOf(p).1) == [RecordOf(p)];
    assert RecordOf(p) == (p.header.title, RecordOf(p).1);
    IndexOne(p.header.title, RecordOf(p).1, finder);
    OneFolderLoads([], path, fs, finder, true);
  }

  /** A location naming one folder whose files are read and indexed without a stop. */
  lemma OneFolderLoads(c: Collection, path: string, fs: FileSystem, finder: Finder, guarded: bool)
    requires path in fs && Gather(c, fs[path], 0, guarded).Next?
    requires IndexRecords(Gather(c, fs[path], 0, guarded).dicts, 0, finder, guarded).Next?
    ensures LoadFrom(c, [path], 0, fs, finder, guarded)
      == Completed(IndexRecords(Gather(c, fs[path], 0, guarded).dicts, 0, finder, guarded).dicts)
  {
    assert LoadFrom(c, [path], 0, fs, finder, guarded)
      == LoadFrom(IndexRecords(Gather(c, fs[path], 0, guarded).dicts, 0, finder, guarded).dicts, [path], 1, fs, finder, guarded);
  }

  lemma IndexOne(title: string, r: DictRecord, finder: Finder)
    requires finder(RStrip(r.regexFilter), r.body).Some?
    ensures IndexRecords([(title, r)], 0, finder, true)
      == Next([(title, r.(index := Some(Build(finder(RStrip(r.regexFilter), r.body).value))))])
  {
    var c := [(title, r)];
    var ms := finder(RStrip(r.regexFilter), r.body).value;
    assert IndexRecords(c, 0, finder, true) == IndexRecords(c[0 := (title, r.(index := Some(Build(ms))))], 1, finder, true);
  }

  lemma ReadOne(c: Collection, f: DictFile, e: (string, DictRecord), guarded: bool)
    requires f.contents != Decoded("") && FileEntry(f) == Some(e)
    ensures ReadFile(c, f, guarded) == Next(Put(c, e.0, e.1))
  {
  }

  lemma FileEntryOf(f: DictFile, p: Parsed)
    requires f.contents.Decoded? && ParseFile(f.contents.text) == Success(p)
    ensures FileEntry(f) == Some(RecordOf(p))
  {
  }

  lemma GatherOne(c: Collection, f: DictFile)
    requires IsDictFile(f)
    ensures Gather(c, [f], 0, true) == ReadFile(c, f, true)
  {
    var files := [f];
    assert files[0] == f;
    if ReadFile(c, f, true).Next? {
      assert Gather(c, files, 0, true) == Gather(ReadFile(c, f, true).dicts, files, 1, true);
    }
  }

  /**
   A folder with a good file followed by one that does not decode ends the
   load with a mistake, and the record already read stays without an index:
   the search as written then fails on it for every query, while the
   tolerant search reports the word as not found.
   */
  lemma MistakeLeavesUnindexed(path: string, h: Header, body: string, finder: Finder, query: string)
    requires |path| > 0 && forall k :: 0 <= k < |path| ==> InLine(path[k])
    requires PlainValue(h.title) && PlainValue(h.pair) && PlainValue(h.description) && PlainValue(h.regexFilter)
    ensures var fs := map[path := [DictFile("a.txt", Decoded(Render(h, body))), DictFile("b.txt", Undecodable)]];
      var c := [RecordOf(Parsed(h, body))];
      && LoadAsWritten(path, fs, finder) == Mistake("b.txt", c)
      && Load(path, fs, finder) == Mistake("b.txt", c)
      && c[0].1.index.None?
      && SearchAsWritten(c, query) == Failure(h.title)
      && Search(c, query) == Success(Shown([], true))
  {
    RenderParse(h, body);
    assert Render(h, body)[0] == '#';
    var f := DictFile("a.txt", Decoded(Render(h, body)));
    var g := DictFile("b.txt", Undecodable);
    assert "a.txt"[|"a.txt"| - |".txt"|..] == ".txt";
    assert "b.txt"[|"b.txt"| - |".txt"|..] == ".txt";
    StopsAfterFile(path, f, g, Parsed(h, body), finder);
    UnindexedSearch(RecordOf(Parsed(h, body)), query);
  }

  lemma StopsAfterFile(path: string, f: DictFile, g: DictFile, p: Parsed, finder: Finder)
    requires |path| > 0 && forall k :: 0 <= k < |path| ==> InLine(path[k])
    requires IsDictFile(f) && f.contents != Decoded("")
    requires f.contents.Decoded? && ParseFile(f.contents.text) == Success(p)
    requires IsDictFile(g) && g.contents == Undecodable
    ensures LoadAsWritten(path, map[path := [f, g]], finder) == Mistake(g.name, [RecordOf(p)])
    ensures Load(path, map[path := [f, g]], finder) == Mistake(g.name, [RecordOf(p)])
  {
    FileEntryOf(f, p);
    var c := [RecordOf(p)];
    assert Put([], c[0].0, c[0].1) == c;
    OneLine(path);
    GoodThenBad([], f, g, false);
    GoodThenBad([], f, g, true);
    var fs := map[path := [f, g]];
    assert fs[path] == [f, g];
  }

  /** A lone dictionary without an index: the search as written fails on it, the tolerant one finds nothing. */
  lemma UnindexedSearch(e: (string, DictRecord), query: string)
    requires e.1.index.None?
    ensures SearchAsWritten([e], query) == Failure(e.0)
    ensures Search([e], query) == Success(Shown([], true))
  {
    var c := [e];
    assert c[0] == e;
    SearchFromSpec(c, LowerStr(query), 0, 1, true);
    assert Hits(c, LowerStr(query), 0) == [];
  }

  lemma GoodThenBad(c: Collection, f: DictFile, g: DictFile, guarded: bool)
    requires IsDictFile(f) && IsDictFile(g) && ReadFile(c, f, guarded).Next? && g.contents == Undecodable
    ensures Gather(c, [f, g], 0, guarded) == Stop(Mistake(g.name, ReadFile(c, f, guarded).dicts))
  {
    var files := [f, g];
    assert files[0] == f && files[1] == g;
    assert Gather(c, files, 0, guarded) == Gather(ReadFile(c, f, guarded).dicts, files, 1, guarded);
    assert ReadFile(ReadFile(c, f, guarded).dicts, g, guarded) == Stop(Mistake(g.name, ReadFile(c, f, guarded).dicts));
  }

  // ---------------------------------------------------------------------
  // The two loops agree except where the code crashes
  // ---------------------------------------------------------------------

  /** `guarded` is `written` with every crash replaced by a mistake naming the same file, folder or title. */
  predicate Agrees(written: Outcome, guarded: Outcome) {
    if written.Crashed? then guarded.Mistake? && guarded.name == FaultName(written.fault)
    else guarded == written
  }

  predicate StepAgrees(written: Step, guarded: Step) {
    if written.Next? then guarded == written
    else guarded.Stop? && Agrees(written.outcome, guarded.outcome)
  }

  /** Wherever the code does not crash, the load with every failure reported gives the same outcome. */
  lemma LoadAgrees(location: string, fs: FileSystem, finder: Finder)
    ensures Agrees(LoadAsWritten(location, fs, finder), Load(location, fs, finder))
    ensures !LoadAsWritten(location, fs, finder).Crashed? ==> Load(location, fs, finder) == LoadAsWritten(location, fs, finder)
  {
    LoadFromAgrees([], NonEmptyLines(location), 0, fs, finder);
  }

  lemma {:induction false} LoadFromAgrees(c: Collection, paths: seq<string>, from: nat, fs: FileSystem, finder: Finder)
    requires from <= |paths|
    ensures Agrees(LoadFrom(c, paths, from, fs, finder, false), LoadFrom(c, paths, from, fs, finder, true))
    decreases |paths| - from
  {
    if from < |paths| && paths[from] in fs {
      GatherAgrees(c, fs[paths[from]], 0);
      match Gather(c, fs[paths[from]], 0, false)
      case Stop(o) =>
      case Next(c1) =>
        IndexAgrees(c1, 0, finder);
        match IndexRecords(c1, 0, finder, false)
        case Stop(o) =>
        case Next(c2) => LoadFromAgrees(c2, paths, from + 1, fs, finder);
    }
  }

  lemma {:induction false} GatherAgrees(c: Collection, files: seq<DictFile>, from: nat)
    requires from <= |files|
    ensures StepAgrees(Gather(c, files, from, false), Gather(c, files, from, true))
    decreases |files| - from
  {
    if from < |files| {
      if !IsDictFile(files[from]) {
        GatherAgrees(c, files, from + 1);
      } else if ReadFile(c, files[from], false).Next? {
        GatherAgrees(ReadFile(c, files[from], false).dicts, files, from + 1);
      }
    }
  }

  lemma {:induction false} IndexAgrees(c: Collection, from: nat, finder: Finder)
    requires from <= |c|
    ensures StepAgrees(IndexRecords(c, from, finder, false), IndexRecords(c, from, finder, true))
    decreases |c| - from
  {
    if from < |c| {
      var (title, rec) := c[from];
      if finder(RStrip(rec.regexFilter), rec.body).Some? {
        var ms := finder(RStrip(rec.regexFilter), rec.body).value;
        IndexAgrees(c[from := (title, rec.(index := Some(Build(ms))))], from + 1, finder);
      }
    }
  }

  // ---------------------------------------------------------------------
  // A mistake ends the load
  // ---------------------------------------------------------------------

  /** A `.txt` file the load stops at: empty, not UTF-8, or with a header that does not parse. */
  predicate Unreadable(f: DictFile) {
    f.contents == Decoded("") || FileEntry(f).None?
  }

  /** A file that stops the loop over a folder: an unreadable `.txt` file. */
  predicate Stops(f: DictFile) {
    IsDictFile(f) && Unreadable(f)
  }

  /** The first unreadable `.txt` file from `from` on, given one at `i`. */
  function FirstUnreadable(files: seq<DictFile>, from: nat, i: nat): (j: nat)
    requires from <= i < |files| && Stops(files[i])
    ensures from <= j <= i && Stops(files[j])
    ensures forall k :: from <= k < j ==> !Stops(files[k])
    decreases i - from
  {
    if Stops(files[from]) then from else FirstUnreadable(files, from + 1, i)
  }

  /**
   Once a folder's listing reaches an unreadable `.txt` file, the loop stops
   at the first unreadable `.txt` file: as written, an empty one crashes
   the load with `EmptyFile`; otherwise, and always when guarded, the load
   ends with a mistake naming that file and holding what the files before
   it gave. The files listed after it are never looked at.
   */
  lemma StopsAtUnreadable(c: Collection, files: seq<DictFile>, from: nat, i: nat,
                          more: seq<DictFile>, guarded: bool)
    requires from <= i < |files| && Stops(files[i])
    ensures Gather(c, files[..FirstUnreadable(files, from, i)], from, guarded).Next?
    ensures Gather(c, files, from, guarded) ==
      var j := FirstUnreadable(files, from, i);
      Stop(if files[j].contents == Decoded("") && !guarded then Crashed(EmptyFile(files[j].name))
           else Mistake(files[j].name, Gather(c, files[..j], from, guarded).dicts))
    ensures Gather(c, files, from, guarded) == Gather(c, files[..i + 1] + more, from, guarded)
  {
    StopsAtFirst(c, files, from, i, guarded);
    IgnoresLater(c, files, from, i, more, guarded);
  }

  /** The loop's outcome at the first unreadable `.txt` file. */
  lemma {:induction false} StopsAtFirst(c: Collection, files: seq<DictFile>, from: nat, i: nat, guarded: bool)
    requires from <= i < |files| && Stops(files[i])
    ensures Gather(c, files[..FirstUnreadable(files, from, i)], from, guarded).Next?
    ensures Gather(c, files, from, guarded) ==
      var j := FirstUnreadable(files, from, i);
      Stop(if files[j].contents == Decoded("") && !guarded then Crashed(EmptyFile(files[j].name))
           else Mistake(files[j].name, Gather(c, files[..j], from, guarded).dicts))
    decreases |files| - from
  {
    var j := FirstUnreadable(files, from, i);
    if from == j {
      assert |files[..j]| == from;
    } else {
      assert files[..j][from] == files[from];
      assert FirstUnreadable(files, from + 1, i) == j;
      if !IsDictFile(files[from]) {
        StopsAtFirst(c, files, from + 1, i, guarded);
      } else {
        StopsAtFirst(ReadFile(c, files[from], guarded).dicts, files, from + 1, i, guarded);
      }
    }
  }

  /** The files listed after an unreadable `.txt` file are never looked at. */
  lemma {:induction false} IgnoresLater(c: Collection, files: seq<DictFile>, from: nat, i: nat,
                                        more: seq<DictFile>, guarded: bool)
    requires from <= i < |files| && Stops(files[i])
    ensures Gather(c, files, from, guarded) == Gather(c, files[..i + 1] + more, from, guarded)
    decreases |files| - from
  {
    var other := files[..i + 1] + more;
    assert other[from] == files[from];
    if from < i {
      if !IsDictFile(files[from]) {
        IgnoresLater(c, files, from + 1, i, more, guarded);
      } else if ReadFile(c, files[from], guarded).Next? {
        IgnoresLater(ReadFile(c, files[from], guarded).dicts, files, from + 1, i, more, guarded);
      }
    }
  }

  // ---------------------------------------------------------------------
  // What a completed load holds
  // ---------------------------------------------------------------------

  /** The records without their indexes: what the files alone determine. */
  function Entries(c: Collection): (e: Collection)
    ensures |e| == |c|
    ensures forall i :: 0 <= i < |c| ==> e[i] == (c[i].0, c[i].1.(index := None))
  {
    seq(|c|, i requires 0 <= i < |c| => (c[i].0, c[i].1.(index := None)))
  }

  /** The `.txt` files of a listing, from position `from` on. */
  function DictFiles(files: seq<DictFile>, from: nat): seq<DictFile>
    requires from <= |files|
    decreases |files| - from
  {
    if from == |files| then []
    else (if IsDictFile(files[from]) then [files[from]] else []) + DictFiles(files, from + 1)
  }

  /** The `.txt` files of the folders `paths[from..]`, in the order the load reads them. */
  function Listed(paths: seq<string>, from: nat, fs: FileSystem): seq<DictFile>
    requires from <= |paths|
    decreases |paths| - from
  {
    if from == |paths| then []
    else (if paths[from] in fs then DictFiles(fs[paths[from]], 0) else []) + Listed(paths, from + 1, fs)
  }

  /** The records of the readable files among `files`, in order. */
  function EntriesOf(files: seq<DictFile>): seq<(string, DictRecord)> {
    if |files| == 0 then []
    else
      EntriesOf(files[..|files| - 1]) + EntryOf(files[|files| - 1])
  }

  /** The record one file contributes: none when it cannot be read. */
  function EntryOf(f: DictFile): seq<(string, DictRecord)> {
    if FileEntry(f).Some? then [FileEntry(f).value] else []
  }

  /** Every record carries the index built from the matches of its own regex filter over its own body. */
  predicate IndexedBy(c: Collection, finder: Finder) {
    forall i :: 0 <= i < |c| ==> Indexed(c[i].1, finder)
  }

  predicate Indexed(r: DictRecord, finder: Finder) {
    && finder(RStrip(r.regexFilter), r.body).Some?
    && r.index == Some(Build(finder(RStrip(r.regexFilter), r.body).value))
  }

  /**
   A completed load read every listed `.txt` file successfully, keyed each
   record by its title with later files overwriting earlier ones with the
   same title (`Entries` is the dictionary of the files' records), and
   indexed every record with its own regex filter.
   */
  lemma LoadCompleted(location: string, fs: FileSystem, finder: Finder)
    requires Load(location, fs, finder).Completed?
    ensures forall f :: f in Listed(NonEmptyLines(location), 0, fs) ==> !Unreadable(f)
    ensures Distinct(Load(location, fs, finder).dicts)
    ensures IndexedBy(Load(location, fs, finder).dicts, finder)
    ensures Entries(Load(location, fs, finder).dicts) == PutAll([], EntriesOf(Listed(NonEmptyLines(location), 0, fs)))
  {
    LoadFromCompleted([], NonEmptyLines(location), 0, fs, finder);
  }

  /** Of several files with the same title, the record of the last one read is the one kept. */
  lemma LastTitleWins(location: string, fs: FileSystem, finder: Finder, j: nat)
    requires Load(location, fs, finder).Completed?
    requires j < |EntriesOf(Listed(NonEmptyLines(location), 0, fs))|
    requires var es := EntriesOf(Listed(NonEmptyLines(location), 0, fs));
      forall k :: j < k < |es| ==> es[k].0 != es[j].0
    ensures var es := EntriesOf(Listed(NonEmptyLines(location), 0, fs));
      Get(Entries(Load(location, fs, finder).dicts), es[j].0) == Some(es[j].1)
  {
    var es := EntriesOf(Listed(NonEmptyLines(location), 0, fs));
    LoadCompleted(location, fs, finder);
    PutAllLast([], es, es[j].0);
    var i :| 0 <= i < |es| && es[i] == (es[j].0, Get(PutAll([], es), es[j].0).value)
      && forall k :: i < k < |es| ==> es[k].0 != es[j].0;
    assert i == j;
  }

  lemma {:induction false} LoadFromCompleted(c: Collection, paths: seq<string>, from: nat, fs: FileSystem, finder: Finder)
    requires from <= |paths| && Distinct(c) && IndexedBy(c, finder)
    ensures LoadFrom(c, paths, from, fs, finder, true).Completed? ==>
      && (forall f :: f in Listed(paths, from, fs) ==> !Unreadable(f))
      && Distinct(LoadFrom(c, paths, from, fs, finder, true).dicts)
      && IndexedBy(LoadFrom(c, paths, from, fs, finder, true).dicts, finder)
      && Entries(LoadFrom(c, paths, from, fs, finder, true).dicts) == PutAll(Entries(c), EntriesOf(Listed(paths, from, fs)))
    decreases |paths| - from
  {
    if from < |paths| && paths[from] in fs {
      var files := fs[paths[from]];
      FolderEntries(c, files, finder);
      GatherReports(c, files, 0);
      var g := Gather(c, files, 0, true);
      if g.Next? {
        IndexReports(g.dicts, 0, finder);
      }
      if g.Next? && IndexRecords(g.dicts, 0, finder, true).Next? {
        var c2 := IndexRecords(g.dicts, 0, finder, true).dicts;
        assert LoadFrom(c, paths, from, fs, finder, true) == LoadFrom(c2, paths, from + 1, fs, finder, true);
        LoadFromCompleted(c2, paths, from + 1, fs, finder);
        var here := DictFiles(files, 0);
        var rest := Listed(paths, from + 1, fs);
        assert Listed(paths, from, fs) == here + rest;
        EntriesOfAppend(here, rest);
        PutAllAppend(Entries(c), EntriesOf(here), EntriesOf(rest));
      }
    } else if from == |paths| {
      assert PutAll(Entries(c), EntriesOf([])) == Entries(c);
    }
  }

  /** One folder: its files read in order, then every record indexed. */
  lemma FolderEntries(c: Collection, files: seq<DictFile>, finder: Finder)
    requires Distinct(c)
    ensures var g := Gather(c, files, 0, true);
      g.Next? && IndexRecords(g.dicts, 0, finder, true).Next? ==>
      var c2 := IndexRecords(g.dicts, 0, finder, true).dicts;
      && (forall f :: f in DictFiles(files, 0) ==> !Unreadable(f))
      && Distinct(c2)
      && IndexedBy(c2, finder)
      && Entries(c2) == PutAll(Entries(c), EntriesOf(DictFiles(files, 0)))
  {
    GatherEntries(c, files, 0);
    var g := Gather(c, files, 0, true);
    if g.Next? {
      IndexEntries(g.dicts, 0, finder);
      if IndexRecords(g.dicts, 0, finder, true).Next? {
        SameKeysDistinct(g.dicts, IndexRecords(g.dicts, 0, finder, true).dicts);
      }
    }
  }

  /** The loop over one listing puts each readable `.txt` file's record under its title, in order. */
  lemma {:induction false} GatherEntries(c: Collection, files: seq<DictFile>, from: nat)
    requires from <= |files| && Distinct(c)
    ensures Gather(c, files, from, true).Next? ==>
      && (forall f :: f in DictFiles(files, from) ==> !Unreadable(f))
      && Distinct(Gather(c, files, from, true).dicts)
      && Entries(Gather(c, files, from, true).dicts) == PutAll(Entries(c), EntriesOf(DictFiles(files, from)))
    decreases |files| - from
  {
    if from == |files| {
      assert PutAll(Entries(c), EntriesOf([])) == Entries(c);
    } else if !IsDictFile(files[from]) {
      GatherEntries(c, files, from + 1);
      assert DictFiles(files, from) == DictFiles(files, from + 1);
    } else if ReadFile(c, files[from], true).Next? {
      ReadableStep(c, files[from], DictFiles(files, from + 1));
      GatherEntries(ReadFile(c, files[from], true).dicts, files, from + 1);
      assert DictFiles(files, from) == [files[from]] + DictFiles(files, from + 1);
    }
  }

  /** Reading one file that the load accepts, then the files after it. */
  lemma ReadableStep(c: Collection, f: DictFile, rest: seq<DictFile>)
    requires Distinct(c) && ReadFile(c, f, true).Next?
    ensures !Unreadable(f) && Distinct(ReadFile(c, f, true).dicts)
    ensures PutAll(Entries(ReadFile(c, f, true).dicts), EntriesOf(rest)) == PutAll(Entries(c), EntriesOf([f] + rest))
  {
    PutSpec(c, FileEntry(f).value.0, FileEntry(f).value.1);
    StoreEntry(c, f, rest);
  }

  /** Storing a readable file's record, then the rest, stores the records of the file and the rest. */
  lemma StoreEntry(c: Collection, f: DictFile, rest: seq<DictFile>)
    requires FileEntry(f).Some?
    ensures var e := FileEntry(f).value;
      PutAll(Entries(Put(c, e.0, e.1)), EntriesOf(rest)) == PutAll(Entries(c), EntriesOf([f] + rest))
  {
    var e := FileEntry(f).value;
    EntriesOfAppend([f], rest);
    assert EntriesOf([f]) == [e];
    PutAllAppend(Entries(c), [e], EntriesOf(rest));
    EntriesPut(c, e.0, e.1);
    assert PutAll(Entries(c), [e]) == Put(Entries(c), e.0, e.1);
  }

  /** The index pass changes nothing but indexes, and leaves every record indexed. */
  lemma {:induction false} IndexEntries(c: Collection, from: nat, finder: Finder)
    requires from <= |c|
    requires forall i :: 0 <= i < from ==> Indexed(c[i].1, finder)
    ensures IndexRecords(c, from, finder, true).Next? ==>
      && Entries(IndexRecords(c, from, finder, true).dicts) == Entries(c)
      && Keys(IndexRecords(c, from, finder, true).dicts) == Keys(c)
      && IndexedBy(IndexRecords(c, from, finder, true).dicts, finder)
    decreases |c| - from
  {
    if from < |c| {
      var (title, rec) := c[from];
      if finder(RStrip(rec.regexFilter), rec.body).Some? {
        var ms := finder(RStrip(rec.regexFilter), rec.body).value;
        var c' := c[from := (title, rec.(index := Some(Build(ms))))];
        IndexEntries(c', from + 1, finder);
        assert Entries(c') == Entries(c);
        assert Keys(c') == Keys(c);
      }
    }
  }

  /** Records of two listings read one after the other. */
  lemma {:induction false} EntriesOfAppend(a: seq<DictFile>, b: seq<DictFile>)
    ensures EntriesOf(a + b) == EntriesOf(a) + EntriesOf(b)
    decreases |b|
  {
    if |b| == 0 {
      assert a + b == a;
    } else {
      var init := b[..|b| - 1];
      EntriesOfAppend(a, init);
      assert (a + b)[..|a + b| - 1] == a + init;
      assert (a + b)[|a + b| - 1] == b[|b| - 1];
      Assoc(EntriesOf(a), EntriesOf(init), EntryOf(b[|b| - 1]));
    }
  }

  /** Storing a record and then dropping indexes is dropping indexes and then storing the record without its index. */
  lemma EntriesPut(c: Collection, k: string, r: DictRecord)
    ensures Entries(Put(c, k, r)) == Put(Entries(c), k, r.(index := None))
  {
    var e := Entries(c);
    assert Keys(e) == Keys(c);
    assert HasKey(e, k) <==> HasKey(c, k);
    if HasKey(c, k) {
      assert IndexOf(e, k) == IndexOf(c, k);
    }
  }
}
