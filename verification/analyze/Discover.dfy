// Walking the local modules of a configuration, starting from its root directory.
module Discover {
  import opened Wrappers

  // The source of a module block: literal text, or an expression that cannot be evaluated statically.
  datatype ModuleSource = Literal(source: string) | Ambiguous

  // What reading a file yields; Empty is a file the parser returns no syntax for.
  datatype Content = Unreadable | Empty | NotNative | Parsed(children: seq<ModuleSource>)

  datatype Entry = Entry(name: string, isDirectory: bool, content: Content)

  datatype Kind = Missing | NotDirectory | Directory(entries: Option<seq<Entry>>)

  // The file system: cleaning and joining paths, and what stands at a path. Only the directories in
  // all exist, so there are finitely many.
  datatype Files = Files(clean: string -> string, join: (string, string) -> string, at: string -> Kind, all: set<string>)

  datatype Finding = JsonFile(dir: string, name: string) | AmbiguousSource(dir: string, name: string) | RemoteSource(dir: string, source: string)

  datatype Fault = StatFailed | IsNoDirectory | ReadFailed | FileUnreadable | UnexpectedBody

  // What scanning adds to the result and to the queue.
  datatype Scan = Scan(files: seq<(string, string)>, findings: seq<Finding>, queued: seq<string>)

  // Cleaning twice is cleaning once, and no directory exists outside the finite set.
  ghost predicate Sane(fs: Files) {
    && (forall p :: fs.clean(fs.clean(p)) == fs.clean(p))
    && (forall p :: fs.at(p).Directory? ==> p in fs.all)
  }

  predicate HasSuffix(text: string, suffix: string): (has: bool)
    ensures has <==> exists stem: string :: text == stem + suffix
  {
    assert |suffix| <= |text| && text[|text| - |suffix|..] == suffix ==> text == text[..|text| - |suffix|] + suffix;
    |suffix| <= |text| && text[|text| - |suffix|..] == suffix
  }

  predicate IsLocal(source: string) {
    source == "." || source == ".." || "./" <= source || "../" <= source
  }

  function Join(x: Scan, y: Scan): Scan {
    Scan(x.files + y.files, x.findings + y.findings, x.queued + y.queued)
  }

  function ScanSources(fs: Files, dir: string, name: string, sources: seq<ModuleSource>): (scan: Scan)
    ensures scan.files == []
  {
    if sources == [] then Scan([], [], [])
    else Join(ScanSource(fs, dir, name, sources[0]), ScanSources(fs, dir, name, sources[1..]))
  }

  function ScanSource(fs: Files, dir: string, name: string, source: ModuleSource): Scan {
    match source
    case Ambiguous => Scan([], [AmbiguousSource(dir, name)], [])
    case Literal(text) =>
      if text == "" then Scan([], [], [])
      else if !IsLocal(text) then Scan([], [RemoteSource(dir, text)], [])
      else Scan([], [], [fs.clean(fs.join(dir, text))])
  }

  function ScanEntry(fs: Files, dir: string, entry: Entry): Result<Scan, Fault> {
    if entry.isDirectory then Success(Scan([], [], []))
    else if HasSuffix(entry.name, ".tf.json") then Success(Scan([(dir, entry.name)], [JsonFile(dir, entry.name)], []))
    else if !HasSuffix(entry.name, ".tf") then Success(Scan([], [], []))
    else
      match entry.content
      case Unreadable => Failure(FileUnreadable)
      case Empty => Success(Scan([(dir, entry.name)], [], []))
      case NotNative => Failure(UnexpectedBody)
      case Parsed(children) => Success(Join(Scan([(dir, entry.name)], [], []), ScanSources(fs, dir, entry.name, children)))
  }

  function ScanEntries(fs: Files, dir: string, entries: seq<Entry>): Result<Scan, Fault> {
    if entries == [] then Success(Scan([], [], []))
    else
      var first :- ScanEntry(fs, dir, entries[0]);
      var rest :- ScanEntries(fs, dir, entries[1..]);
      Success(Join(first, rest))
  }

  // Everything one module directory contributes.
  function ScanModule(fs: Files, dir: string): Result<Scan, Fault> {
    match fs.at(dir)
    case Missing => Failure(StatFailed)
    case NotDirectory => Failure(IsNoDirectory)
    case Directory(None) => Failure(ReadFailed)
    case Directory(Some(entries)) => ScanEntries(fs, dir, entries)
  }

  // ---- The module graph ----

  ghost predicate Edge(fs: Files, dir: string, child: string) {
    ScanModule(fs, dir).Success? && child in ScanModule(fs, dir).value.queued
  }

  // The native Terraform files of a directory.
  predicate IsNative(entry: Entry) {
    !entry.isDirectory && HasSuffix(entry.name, ".tf") && !HasSuffix(entry.name, ".tf.json")
  }

  // A directory that can be listed and whose native files can all be read.
  predicate CanScan(fs: Files, dir: string) {
    && fs.at(dir).Directory? && fs.at(dir).entries.Some?
    && forall e | e in fs.at(dir).entries.value && IsNative(e) :: e.content.Empty? || e.content.Parsed?
  }

  // What makes a directory fail.
  ghost predicate Faulty(fs: Files, dir: string, fault: Fault) {
    match fs.at(dir)
    case Missing => fault == StatFailed
    case NotDirectory => fault == IsNoDirectory
    case Directory(None) => fault == ReadFailed
    case Directory(Some(entries)) =>
      exists e | e in entries ::
        IsNative(e) && ((e.content.Unreadable? && fault == FileUnreadable) || (e.content.NotNative? && fault == UnexpectedBody))
  }

  lemma {:induction false} EntriesScan(fs: Files, dir: string, entries: seq<Entry>)
    ensures var r := ScanEntries(fs, dir, entries);
      && (r.Success? <==> forall e | e in entries && IsNative(e) :: e.content.Empty? || e.content.Parsed?)
      && (r.Failure? ==> exists e | e in entries ::
            IsNative(e) && ((e.content.Unreadable? && r.error == FileUnreadable) || (e.content.NotNative? && r.error == UnexpectedBody)))
  {
    hide HasSuffix, ScanSources;
    if entries != [] {
      EntriesScan(fs, dir, entries[1..]);
      JsonIsNotNative(entries[0]);
      assert forall e :: e in entries <==> e == entries[0] || e in entries[1..];
    }
  }

  lemma JsonIsNotNative(entry: Entry)
    ensures IsNative(entry) ==> !HasSuffix(entry.name, ".tf.json")
  {
  }

  // A directory goes through exactly when it can be scanned, and else the fault names what stops it.
  lemma ScanIff(fs: Files, dir: string)
    ensures ScanModule(fs, dir).Success? <==> CanScan(fs, dir)
    ensures ScanModule(fs, dir).Failure? ==> Faulty(fs, dir, ScanModule(fs, dir).error)
  {
    hide IsNative, ScanEntries;
    match fs.at(dir) {
      case Directory(Some(entries)) => EntriesScan(fs, dir, entries);
      case _ =>
    }
  }

  // Which entries hold module blocks, and where those lead.
  predicate Leads(fs: Files, dir: string, entry: Entry, child: string) {
    IsNative(entry) && entry.content.Parsed? && exists source | source in entry.content.children :: LeadsTo(fs, dir, source, child)
  }

  // A literal path relative to the directory of the module.
  predicate LeadsTo(fs: Files, dir: string, source: ModuleSource, child: string) {
    source.Literal? &&
    var text := source.source;
    (text == "." || text == ".." || "./" <= text || "../" <= text) && child == fs.clean(fs.join(dir, text))
  }

  // The findings one entry gives rise to: a JSON file for itself, a native file for its module blocks
  // whose source cannot be told, or leads out of the tree.
  predicate Raises(dir: string, entry: Entry, f: Finding) {
    !entry.isDirectory &&
    match f
    case JsonFile(d, name) => d == dir && name == entry.name && HasSuffix(name, ".tf.json")
    case AmbiguousSource(d, name) => d == dir && name == entry.name && IsNative(entry) && entry.content.Parsed? && Ambiguous in entry.content.children
    case RemoteSource(d, text) =>
      && d == dir && IsNative(entry) && entry.content.Parsed? && Literal(text) in entry.content.children
      && text != "" && text != "." && text != ".." && !("./" <= text) && !("../" <= text)
  }

  // The kind of module source a finding in a native file is about.
  function About(dir: string, name: string, f: Finding): Option<ModuleSource> {
    match f
    case JsonFile(_, _) => None
    case AmbiguousSource(d, n) => if d == dir && n == name then Some(Ambiguous) else None
    case RemoteSource(d, text) =>
      if d == dir && text !in {"", ".", ".."} && !("./" <= text) && !("../" <= text) then Some(Literal(text)) else None
  }

  lemma OneFinding(fs: Files, dir: string, name: string, source: ModuleSource, f: Finding)
    ensures multiset(ScanSource(fs, dir, name, source).findings)[f] == if About(dir, name, f) == Some(source) then 1 else 0
  {
  }

  // Every module block counts: there are as many findings as blocks, for each kind of source.
  lemma {:induction false} SourceFindings(fs: Files, dir: string, name: string, sources: seq<ModuleSource>, f: Finding)
    ensures var about := About(dir, name, f);
      multiset(ScanSources(fs, dir, name, sources).findings)[f] == if about.Some? then multiset(sources)[about.value] else 0
  {
    hide About, ScanSource;
    if sources != [] {
      OneFinding(fs, dir, name, sources[0], f);
      SourceFindings(fs, dir, name, sources[1..], f);
      assert sources == [sources[0]] + sources[1..];
    }
  }

  lemma SourcesRaise(fs: Files, dir: string, name: string, sources: seq<ModuleSource>, f: Finding)
    ensures f in ScanSources(fs, dir, name, sources).findings <==> About(dir, name, f).Some? && About(dir, name, f).value in sources
  {
    hide About, ScanSources;
    SourceFindings(fs, dir, name, sources, f);
    var scan := ScanSources(fs, dir, name, sources);
    assert f in scan.findings <==> multiset(scan.findings)[f] > 0;
  }

  lemma EntryFindings(fs: Files, dir: string, entry: Entry, f: Finding)
    requires ScanEntry(fs, dir, entry).Success?
    ensures f in ScanEntry(fs, dir, entry).value.findings <==> Raises(dir, entry, f)
  {
    hide ScanSources, HasSuffix;
    if entry.content.Parsed? { SourcesRaise(fs, dir, entry.name, entry.content.children, f); }
  }

  lemma {:induction false} EntriesFindings(fs: Files, dir: string, entries: seq<Entry>, f: Finding)
    requires ScanEntries(fs, dir, entries).Success?
    ensures f in ScanEntries(fs, dir, entries).value.findings <==> exists e | e in entries :: Raises(dir, e, f)
  {
    hide ScanEntry, Raises;
    if entries != [] {
      EntriesFindings(fs, dir, entries[1..], f);
      EntryFindings(fs, dir, entries[0], f);
      assert forall e :: e in entries <==> e == entries[0] || e in entries[1..];
    }
  }

  predicate IsListed(entry: Entry, name: string) {
    !entry.isDirectory && entry.name == name && (HasSuffix(name, ".tf") || HasSuffix(name, ".tf.json"))
  }

  lemma EntryFiles(fs: Files, dir: string, entry: Entry, file: (string, string))
    requires ScanEntry(fs, dir, entry).Success?
    ensures file in ScanEntry(fs, dir, entry).value.files <==> file.0 == dir && IsListed(entry, file.1)
  {
    hide HasSuffix;
  }

  lemma {:induction false} EntriesFiles(fs: Files, dir: string, entries: seq<Entry>, file: (string, string))
    requires ScanEntries(fs, dir, entries).Success?
    ensures file in ScanEntries(fs, dir, entries).value.files <==> file.0 == dir && exists e | e in entries :: IsListed(e, file.1)
  {
    hide IsListed, ScanEntry;
    if entries != [] {
      EntriesFiles(fs, dir, entries[1..], file);
      EntryFiles(fs, dir, entries[0], file);
      assert forall e :: e in entries <==> e == entries[0] || e in entries[1..];
    }
  }

  // The findings and files of some modules together, by what stands in their directories.
  lemma {:induction false} AllFindings(fs: Files, dirs: seq<string>)
    requires forall d | d in dirs :: ScanModule(fs, d).Success?
    ensures forall f :: f in ScanAll(fs, dirs).findings <==> exists d | d in dirs :: RaisedIn(fs, d, f)
    ensures forall p :: p in ScanAll(fs, dirs).files <==> p.0 in dirs && ListedIn(fs, p.0, p.1)
    decreases |dirs|
  {
    hide ScanModule, RaisedIn, ListedIn;
    if dirs != [] {
      var shorter, last := dirs[..|dirs| - 1], dirs[|dirs| - 1];
      AllFindings(fs, shorter);
      assert forall d :: d in dirs <==> d in shorter || d == last;
      ModuleFindings(fs, last);
    }
  }

  ghost predicate RaisedIn(fs: Files, dir: string, f: Finding) {
    fs.at(dir).Directory? && fs.at(dir).entries.Some? && exists e | e in fs.at(dir).entries.value :: Raises(dir, e, f)
  }

  ghost predicate ListedIn(fs: Files, dir: string, name: string) {
    fs.at(dir).Directory? && fs.at(dir).entries.Some? && exists e | e in fs.at(dir).entries.value :: IsListed(e, name)
  }

  lemma ModuleFindings(fs: Files, dir: string)
    requires ScanModule(fs, dir).Success?
    ensures forall f :: f in ScanModule(fs, dir).value.findings <==> RaisedIn(fs, dir, f)
    ensures forall p :: p in ScanModule(fs, dir).value.files <==> p.0 == dir && ListedIn(fs, dir, p.1)
  {
    var entries := fs.at(dir).entries.value;
    hide ScanEntries, Raises, IsListed;
    forall f ensures f in ScanEntries(fs, dir, entries).value.findings <==> exists e | e in entries :: Raises(dir, e, f) {
      EntriesFindings(fs, dir, entries, f);
    }
    forall p ensures p in ScanEntries(fs, dir, entries).value.files <==> p.0 == dir && exists e | e in entries :: IsListed(e, p.1) {
      EntriesFiles(fs, dir, entries, p);
    }
  }

  lemma OneLeads(fs: Files, dir: string, name: string, source: ModuleSource, child: string)
    ensures child in ScanSource(fs, dir, name, source).queued <==> LeadsTo(fs, dir, source, child)
  {
  }

  lemma {:induction false} SourcesLead(fs: Files, dir: string, name: string, sources: seq<ModuleSource>, child: string)
    ensures child in ScanSources(fs, dir, name, sources).queued <==> exists source | source in sources :: LeadsTo(fs, dir, source, child)
  {
    hide ScanSource, LeadsTo;
    if sources != [] {
      OneLeads(fs, dir, name, sources[0], child);
      SourcesLead(fs, dir, name, sources[1..], child);
      assert forall s :: s in sources <==> s == sources[0] || s in sources[1..];
    }
  }

  lemma {:induction false} EntriesLead(fs: Files, dir: string, entries: seq<Entry>, child: string)
    requires ScanEntries(fs, dir, entries).Success?
    ensures child in ScanEntries(fs, dir, entries).value.queued <==> exists e | e in entries :: Leads(fs, dir, e, child)
  {
    hide IsLocal, HasSuffix;
    if entries != [] {
      var entry := entries[0];
      EntriesLead(fs, dir, entries[1..], child);
      assert forall e :: e in entries <==> e == entry || e in entries[1..];
      if entry.content.Parsed? { SourcesLead(fs, dir, entry.name, entry.content.children, child); }
      assert child in ScanEntry(fs, dir, entry).value.queued <==> Leads(fs, dir, entry, child);
      hide ScanEntry, Leads;
    }
  }

  // An edge is a literal local source in a native Terraform file of a directory that can be scanned:
  // not in its subdirectories, not in JSON files, and not a remote, empty or computed source.
  lemma EdgeIff(fs: Files, dir: string, child: string)
    ensures Edge(fs, dir, child) <==> CanScan(fs, dir) && exists e | e in fs.at(dir).entries.value :: Leads(fs, dir, e, child)
  {
    ScanIff(fs, dir);
    if ScanModule(fs, dir).Success? { EntriesLead(fs, dir, fs.at(dir).entries.value, child); }
    hide Leads, CanScan;
  }

  ghost predicate Path(fs: Files, root: string, path: seq<string>) {
    && path != [] && path[0] == fs.clean(root)
    && forall i | 0 <= i < |path| - 1 :: Edge(fs, path[i], path[i + 1])
  }

  // Some chain of literal local sources leads from the root to the directory.
  ghost predicate Reachable(fs: Files, root: string, dir: string) {
    exists path: seq<string> :: Path(fs, root, path) && path[|path| - 1] == dir
  }

  lemma RootIsReachable(fs: Files, root: string)
    ensures Reachable(fs, root, fs.clean(root))
  {
    assert Path(fs, root, [fs.clean(root)]);
  }

  lemma ChildIsReachable(fs: Files, root: string, dir: string, child: string)
    requires Reachable(fs, root, dir) && Edge(fs, dir, child)
    ensures Reachable(fs, root, child)
  {
    var path: seq<string> :| Path(fs, root, path) && path[|path| - 1] == dir;
    assert Path(fs, root, path + [child]);
  }

  // A set with the root that is closed under edges holds everything reachable.
  ghost predicate Closed(fs: Files, root: string, dirs: set<string>) {
    && fs.clean(root) in dirs
    && forall d, c | d in dirs && Edge(fs, d, c) :: c in dirs
  }

  lemma {:induction false} PathStaysInside(fs: Files, root: string, path: seq<string>, dirs: set<string>)
    requires Path(fs, root, path) && Closed(fs, root, dirs)
    ensures path[|path| - 1] in dirs
    decreases |path|
  {
    if |path| > 1 {
      var shorter := path[..|path| - 1];
      forall i | 0 <= i < |shorter| - 1 ensures Edge(fs, shorter[i], shorter[i + 1]) {
        assert shorter[i] == path[i] && shorter[i + 1] == path[i + 1];
      }
      PathStaysInside(fs, root, shorter, dirs);
      assert Edge(fs, path[|path| - 2], path[|path| - 1]);
    }
  }

  lemma ClosedHoldsReachable(fs: Files, root: string, dirs: set<string>)
    requires Closed(fs, root, dirs)
    ensures forall d | Reachable(fs, root, d) :: d in dirs
  {
    forall d | Reachable(fs, root, d) ensures d in dirs {
      var path: seq<string> :| Path(fs, root, path) && path[|path| - 1] == d;
      PathStaysInside(fs, root, path, dirs);
    }
  }

  lemma {:induction false} QueuedAreClean(fs: Files, dir: string, entries: seq<Entry>, child: string)
    requires Sane(fs) && ScanEntries(fs, dir, entries).Success? && child in ScanEntries(fs, dir, entries).value.queued
    ensures fs.clean(child) == child
  {
    var rest := ScanEntries(fs, dir, entries[1..]).value;
    if child in rest.queued {
      QueuedAreClean(fs, dir, entries[1..], child);
    } else if entries[0].content.Parsed? {
      SourcesAreClean(fs, dir, entries[0].name, entries[0].content.children, child);
    }
  }

  lemma {:induction false} SourcesAreClean(fs: Files, dir: string, name: string, sources: seq<ModuleSource>, child: string)
    requires Sane(fs) && child in ScanSources(fs, dir, name, sources).queued
    ensures fs.clean(child) == child
  {
    if child in ScanSources(fs, dir, name, sources[1..]).queued { SourcesAreClean(fs, dir, name, sources[1..], child); }
  }

  // What a list of modules contributes together.
  function ScanAll(fs: Files, dirs: seq<string>): Scan {
    if dirs == [] then Scan([], [], [])
    else
      var last := dirs[|dirs| - 1];
      Join(ScanAll(fs, dirs[..|dirs| - 1]), if ScanModule(fs, last).Success? then ScanModule(fs, last).value else Scan([], [], []))
  }

  // ---- The walk ----

  class Analysis {
    var modules: seq<string>
    var files: seq<(string, string)>
    var findings: seq<Finding>

    constructor ()
      ensures modules == [] && files == [] && findings == []
    {
      modules, files, findings := [], [], [];
    }

    // The modules found so far with what they contributed.
    ghost predicate Recorded(fs: Files)
      reads this
    {
      Contributed(fs, modules, files, findings)
    }

    method ScanFile(fs: Files, dir: string, name: string, sources: seq<ModuleSource>) returns (queued: seq<string>)
      modifies this`findings
      ensures findings == old(findings) + ScanSources(fs, dir, name, sources).findings
      ensures queued == ScanSources(fs, dir, name, sources).queued
    {
      queued := [];
      ghost var done, all := Scan([], [], []), ScanSources(fs, dir, name, sources);
      assert sources[0..] == sources && Join(done, all) == all;
      hide IsLocal;
      for i := 0 to |sources|
        invariant findings == old(findings) + done.findings && queued == done.queued
        invariant Join(done, ScanSources(fs, dir, name, sources[i..])) == all
      {
        var source := sources[i];
        assert sources[i..][0] == source && sources[i..][1..] == sources[i + 1..];
        JoinAssociates(done, ScanSource(fs, dir, name, source), ScanSources(fs, dir, name, sources[i + 1..]));
        if source.Ambiguous? {
          findings := findings + [AmbiguousSource(dir, name)];
        } else if source.source != "" && !IsLocal(source.source) {
          findings := findings + [RemoteSource(dir, source.source)];
        } else if source.source != "" {
          queued := queued + [fs.clean(fs.join(dir, source.source))];
        }
        done := Join(done, ScanSource(fs, dir, name, source));
      }
      assert Join(done, Scan([], [], [])) == done;
    }

    method ScanOne(fs: Files, dir: string, entry: Entry) returns (r: Result<seq<string>, Fault>)
      modifies this`files, this`findings
      ensures match ScanEntry(fs, dir, entry)
        case Failure(fault) => r == Failure(fault)
        case Success(scan) => r == Success(scan.queued) && files == old(files) + scan.files && findings == old(findings) + scan.findings
    {
      if entry.isDirectory {
        return Success([]);
      }
      if HasSuffix(entry.name, ".tf.json") {
        files := files + [(dir, entry.name)];
        findings := findings + [JsonFile(dir, entry.name)];
        return Success([]);
      }
      if !HasSuffix(entry.name, ".tf") {
        return Success([]);
      }
      if entry.content.Unreadable? {
        return Failure(FileUnreadable);
      }
      files := files + [(dir, entry.name)];
      match entry.content {
        case Empty =>
          r := Success([]);
        case NotNative =>
          r := Failure(UnexpectedBody);
        case Parsed(children) =>
          var queued := ScanFile(fs, dir, entry.name, children);
          ghost var scan := ScanSources(fs, dir, entry.name, children);
          assert [] + scan.findings == scan.findings && [] + scan.queued == scan.queued;
          r := Success(queued);
      }
    }

    method ScanDirectory(fs: Files, dir: string, entries: seq<Entry>) returns (r: Result<seq<string>, Fault>)
      modifies this`files, this`findings
      ensures match ScanEntries(fs, dir, entries)
        case Failure(fault) => r == Failure(fault)
        case Success(scan) => r == Success(scan.queued) && files == old(files) + scan.files && findings == old(findings) + scan.findings
    {
      var queued: seq<string> := [];
      ghost var done, all := Scan([], [], []), ScanEntries(fs, dir, entries);
      assert entries[0..] == entries;
      assert all.Success? ==> Join(done, all.value) == all.value;
      ghost var files0, findings0 := files, findings;
      assert Grown(files0, findings0, files, findings, queued, done);
      hide ScanEntry, ScanEntries, ScannedAfter, Join, Grown;
      for i := 0 to |entries|
        invariant Grown(files0, findings0, files, findings, queued, done)
        invariant all == ScannedAfter(done, ScanEntries(fs, dir, entries[i..]))
      {
        var entry := entries[i];
        ghost var scan, files1, findings1 := ScanEntry(fs, dir, entry), files, findings;
        assert entries[i..] == [entry] + entries[i + 1..];
        EntryStep(fs, dir, entry, entries[i + 1..], done);
        var more := ScanOne(fs, dir, entry);
        if more.Failure? {
          return Failure(more.error);
        }
        GrowsOn(files0, findings0, files1, findings1, queued, done, scan.value);
        queued := queued + more.value;
        done := Join(done, scan.value);
      }
      NoEntries(fs, dir, entries[|entries|..], done);
      GrownMeans(files0, findings0, files, findings, queued, done);
      r := Success(queued);
    }

    // Walks the modules breadth first. It always ends; it succeeds exactly when every reachable
    // directory can be scanned, and then it has recorded exactly the reachable ones, each once, with
    // the files and findings of each; else it names what is wrong with one of them.
    method Discover(fs: Files, root: string) returns (fault: Option<Fault>)
      requires Sane(fs)
      modifies this
      ensures fault.None? <==> forall d | Reachable(fs, root, d) :: CanScan(fs, d)
      ensures fault.Some? ==> exists d | Reachable(fs, root, d) :: Faulty(fs, d, fault.value)
      ensures fault.None? ==> Recorded(fs) && forall d :: d in modules <==> Reachable(fs, root, d)
      ensures fault.None? ==> forall f :: f in findings <==> exists d | Reachable(fs, root, d) :: RaisedIn(fs, d, f)
      ensures fault.None? ==> forall p :: p in files <==> Reachable(fs, root, p.0) && ListedIn(fs, p.0, p.1)
    {
      modules, files, findings := [], [], [];
      var queue := [root];
      var seen: set<string> := {};
      StartFrontier(fs, root);
      hide ScanModule, ScanEntries, ScanAll, Frontier, Contributed, Reachable, CanScan, Faulty, RaisedIn, ListedIn;
      while queue != []
        invariant Recorded(fs) && Frontier(fs, root, seen, queue, modules) && seen <= fs.all
        decreases fs.all - seen, |queue|
      {
        var dir := fs.clean(queue[0]);
        ghost var was, before, files0, findings0 := queue, modules, files, findings;
        FrontierHead(fs, root, seen, queue, modules);
        queue := queue[1..];
        if dir in seen {
          FrontierSkips(fs, root, seen, was, modules);
          continue;
        }
        var kind := fs.at(dir);
        ScanIff(fs, dir);
        DirectoryScan(fs, dir);
        if kind.Missing? {
          return Some(StatFailed);
        }
        if kind.NotDirectory? {
          return Some(IsNoDirectory);
        }
        seen := seen + {dir};
        if kind.entries.None? {
          return Some(ReadFailed);
        }
        var queued := ScanDirectory(fs, dir, kind.entries.value);
        if queued.Failure? {
          return Some(queued.error);
        }
        modules := modules + [dir];
        queue := queue + queued.value;
        FrontierAdvances(fs, root, seen - {dir}, was, before, dir, queued.value);
        assert seen - {dir} + {dir} == seen;
        OneMoreModule(fs, before, files0, findings0, dir);
      }
      WalkEnds(fs, root, seen, modules, files, findings);
      return None;
    }
  }

  // Distinct directories that can be scanned, with their files and findings in order.
  ghost predicate Contributed(fs: Files, modules: seq<string>, files: seq<(string, string)>, findings: seq<Finding>) {
    && (forall i, j | 0 <= i < j < |modules| :: modules[i] != modules[j])
    && (forall d | d in modules :: ScanModule(fs, d).Success?)
    && files == ScanAll(fs, modules).files && findings == ScanAll(fs, modules).findings
  }

  lemma OneMoreModule(fs: Files, modules: seq<string>, files: seq<(string, string)>, findings: seq<Finding>, dir: string)
    requires Contributed(fs, modules, files, findings) && dir !in modules && ScanModule(fs, dir).Success?
    ensures var scan := ScanModule(fs, dir).value; Contributed(fs, modules + [dir], files + scan.files, findings + scan.findings)
  {
    hide ScanModule;
    assert (modules + [dir])[..|modules|] == modules;
  }

  function ScannedAfter(done: Scan, rest: Result<Scan, Fault>): Result<Scan, Fault> {
    match rest case Failure(fault) => Failure(fault) case Success(scan) => Success(Join(done, scan))
  }

  // What a scan has added so far.
  ghost predicate Grown(files0: seq<(string, string)>, findings0: seq<Finding>, files: seq<(string, string)>, findings: seq<Finding>,
                        queued: seq<string>, done: Scan) {
    files == files0 + done.files && findings == findings0 + done.findings && queued == done.queued
  }

  lemma GrowsOn(files0: seq<(string, string)>, findings0: seq<Finding>, files: seq<(string, string)>, findings: seq<Finding>,
                queued: seq<string>, done: Scan, more: Scan)
    requires Grown(files0, findings0, files, findings, queued, done)
    ensures Grown(files0, findings0, files + more.files, findings + more.findings, queued + more.queued, Join(done, more))
  {
  }

  lemma GrownMeans(files0: seq<(string, string)>, findings0: seq<Finding>, files: seq<(string, string)>, findings: seq<Finding>,
                   queued: seq<string>, done: Scan)
    requires Grown(files0, findings0, files, findings, queued, done)
    ensures files == files0 + done.files && findings == findings0 + done.findings && queued == done.queued
  {
  }

  // One entry more.
  lemma EntryStep(fs: Files, dir: string, entry: Entry, later: seq<Entry>, done: Scan)
    ensures var one := ScanEntry(fs, dir, entry);
      ScannedAfter(done, ScanEntries(fs, dir, [entry] + later)) ==
      if one.Failure? then Failure(one.error) else ScannedAfter(Join(done, one.value), ScanEntries(fs, dir, later))
  {
    hide ScanEntry;
    assert ([entry] + later)[1..] == later;
    var first, rest := ScanEntry(fs, dir, entry), ScanEntries(fs, dir, later);
    if first.Success? && rest.Success? { JoinAssociates(done, first.value, rest.value); }
  }

  lemma NoEntries(fs: Files, dir: string, entries: seq<Entry>, done: Scan)
    requires entries == []
    ensures ScannedAfter(done, ScanEntries(fs, dir, entries)) == Success(done)
  {
    assert Join(done, Scan([], [], [])) == done;
  }

  lemma JoinAssociates(x: Scan, y: Scan, z: Scan)
    ensures Join(x, Join(y, z)) == Join(Join(x, y), z)
  {
    assert x.files + (y.files + z.files) == (x.files + y.files) + z.files;
    assert x.findings + (y.findings + z.findings) == (x.findings + y.findings) + z.findings;
    assert x.queued + (y.queued + z.queued) == (x.queued + y.queued) + z.queued;
  }

  // The root, and every child of a module seen, is seen or still queued.
  ghost predicate Pending(fs: Files, root: string, seen: set<string>, queue: seq<string>) {
    && (fs.clean(root) in seen || Queued(fs, queue, fs.clean(root)))
    && forall d, c | d in seen && Edge(fs, d, c) :: c in seen || Queued(fs, queue, c)
  }

  ghost predicate Queued(fs: Files, queue: seq<string>, dir: string) {
    exists q | q in queue :: fs.clean(q) == dir
  }

  lemma StillQueued(fs: Files, queue: seq<string>, dir: string, more: seq<string>)
    requires queue != [] && Queued(fs, queue, dir) && fs.clean(queue[0]) != dir
    ensures Queued(fs, queue[1..] + more, dir)
  {
    var q :| q in queue && fs.clean(q) == dir;
    assert queue == [queue[0]] + queue[1..];
    assert q in queue[1..] + more;
  }

  lemma PendingSkips(fs: Files, root: string, seen: set<string>, queue: seq<string>)
    requires queue != [] && Pending(fs, root, seen, queue) && fs.clean(queue[0]) in seen
    ensures Pending(fs, root, seen, queue[1..])
  {
    hide Queued;
    assert queue[1..] + [] == queue[1..];
    if fs.clean(root) !in seen { StillQueued(fs, queue, fs.clean(root), []); }
    forall d, c | d in seen && Edge(fs, d, c) ensures c in seen || Queued(fs, queue[1..], c) {
      if c !in seen { StillQueued(fs, queue, c, []); }
    }
  }

  lemma PendingAdvances(fs: Files, root: string, seen: set<string>, queue: seq<string>, dir: string, queued: seq<string>)
    requires queue != [] && Pending(fs, root, seen, queue) && fs.clean(queue[0]) == dir
    requires Sane(fs) && ScanModule(fs, dir).Success? && ScanModule(fs, dir).value.queued == queued
    ensures Pending(fs, root, seen + {dir}, queue[1..] + queued)
  {
    hide Queued, ScanModule;
    var seen', queue' := seen + {dir}, queue[1..] + queued;
    if fs.clean(root) !in seen' { StillQueued(fs, queue, fs.clean(root), queued); }
    forall d, c | d in seen' && Edge(fs, d, c) ensures c in seen' || Queued(fs, queue', c) {
      if d == dir {
        ChildIsClean(fs, dir, c);
        NowQueued(fs, queue', c);
      } else if c !in seen' {
        StillQueued(fs, queue, c, queued);
      }
    }
  }

  lemma NowQueued(fs: Files, queue: seq<string>, c: string)
    requires c in queue && fs.clean(c) == c
    ensures Queued(fs, queue, c)
  {
  }

  lemma ChildIsClean(fs: Files, dir: string, c: string)
    requires Sane(fs) && Edge(fs, dir, c)
    ensures fs.clean(c) == c
  {
    QueuedAreClean(fs, dir, fs.at(dir).entries.value, c);
  }

  lemma AllPendingSeen(fs: Files, root: string, seen: set<string>)
    requires Pending(fs, root, seen, [])
    ensures Closed(fs, root, seen)
  {
    hide Edge;
  }

  // The directories seen are the modules recorded; they and the queued ones are reachable, and what
  // is reachable from them is seen or queued.
  ghost predicate Frontier(fs: Files, root: string, seen: set<string>, queue: seq<string>, modules: seq<string>) {
    && (forall d :: d in seen <==> d in modules)
    && (forall d | d in seen :: Reachable(fs, root, d))
    && (forall d | d in queue :: Reachable(fs, root, fs.clean(d)))
    && Pending(fs, root, seen, queue)
  }

  lemma StartFrontier(fs: Files, root: string)
    ensures Frontier(fs, root, {}, [root], []) && Contributed(fs, [], [], [])
  {
    RootIsReachable(fs, root);
  }

  lemma FrontierHead(fs: Files, root: string, seen: set<string>, queue: seq<string>, modules: seq<string>)
    requires Frontier(fs, root, seen, queue, modules) && queue != []
    ensures Reachable(fs, root, fs.clean(queue[0])) && (fs.clean(queue[0]) in seen <==> fs.clean(queue[0]) in modules)
  {
    assert queue[0] in queue;
    hide Reachable, Pending;
  }

  lemma FrontierSkips(fs: Files, root: string, seen: set<string>, queue: seq<string>, modules: seq<string>)
    requires Frontier(fs, root, seen, queue, modules) && queue != [] && fs.clean(queue[0]) in seen
    ensures Frontier(fs, root, seen, queue[1..], modules)
  {
    PendingSkips(fs, root, seen, queue);
    hide Reachable, Pending;
    assert forall d | d in queue[1..] :: d in queue;
  }

  lemma FrontierAdvances(fs: Files, root: string, seen: set<string>, queue: seq<string>, modules: seq<string>, dir: string, queued: seq<string>)
    requires Frontier(fs, root, seen, queue, modules) && queue != [] && fs.clean(queue[0]) == dir
    requires Sane(fs) && ScanModule(fs, dir).Success? && ScanModule(fs, dir).value.queued == queued
    ensures Frontier(fs, root, seen + {dir}, queue[1..] + queued, modules + [dir])
  {
    FrontierHead(fs, root, seen, queue, modules);
    PendingAdvances(fs, root, seen, queue, dir, queued);
    hide Reachable, Pending, ScanModule;
    forall d | d in queued ensures Reachable(fs, root, fs.clean(d)) {
      ChildIsReachable(fs, root, dir, d);
      ChildIsClean(fs, dir, d);
    }
    assert forall d | d in queue[1..] :: d in queue;
  }

  // With nothing queued, the modules are the reachable directories.
  lemma WalkEnds(fs: Files, root: string, seen: set<string>, modules: seq<string>, files: seq<(string, string)>, findings: seq<Finding>)
    requires Frontier(fs, root, seen, [], modules) && Contributed(fs, modules, files, findings)
    ensures forall d :: d in modules <==> Reachable(fs, root, d)
    ensures forall d | Reachable(fs, root, d) :: CanScan(fs, d)
    ensures forall f :: f in findings <==> exists d | Reachable(fs, root, d) :: RaisedIn(fs, d, f)
    ensures forall p :: p in files <==> Reachable(fs, root, p.0) && ListedIn(fs, p.0, p.1)
  {
    AllPendingSeen(fs, root, seen);
    ClosedHoldsReachable(fs, root, seen);
    hide Reachable, ScanModule, ScanAll, Pending, CanScan, RaisedIn, ListedIn;
    AllFindings(fs, modules);
    forall d | d in modules ensures CanScan(fs, d) { ScanIff(fs, d); }
  }

  lemma DirectoryScan(fs: Files, dir: string)
    ensures ScanModule(fs, dir).Success? ==> fs.at(dir).Directory? && fs.at(dir).entries.Some?
    ensures fs.at(dir).Directory? && fs.at(dir).entries.Some? ==> ScanModule(fs, dir) == ScanEntries(fs, dir, fs.at(dir).entries.value)
    ensures fs.at(dir).Missing? ==> ScanModule(fs, dir) == Failure(StatFailed)
    ensures fs.at(dir).NotDirectory? ==> ScanModule(fs, dir) == Failure(IsNoDirectory)
    ensures fs.at(dir).Directory? && fs.at(dir).entries.None? ==> ScanModule(fs, dir) == Failure(ReadFailed)
  {
  }
}
