/**
 Packing a trace: every mapped file ends up as one file of the trace directory per hash, and
 at no moment does the trace refer to a file that is missing or has other contents.
 */
module Packing {
  import opened TraceNames
  import opened Choosing

  /** A record of the `mmaps` file: backed by a file, or something else. */
  datatype Record = FileRecord(name: string) | OtherRecord

  datatype Content = Data(bytes: seq<bv8>) | Mmaps(records: seq<Record>)

  type Files = map<string, Content>

  datatype FileInfo = FileInfo(hash: int, isHardlink: bool)

  ghost predicate CollisionFree(hash: Content -> int) {
    forall x, y | hash(x) == hash(y) :: x == y
  }

  function MmapsPath(dir: string): string { Entry(dir, "mmaps") }

  function PackPath(dir: string): string { Entry(dir, "pack_mmaps") }

  ghost predicate HasRecords(dir: string, files: Files) {
    MmapsPath(dir) in files && files[MmapsPath(dir)].Mmaps?
  }

  ghost function Records(dir: string, files: Files): seq<Record>
    requires HasRecords(dir, files)
  {
    files[MmapsPath(dir)].records
  }

  /** The file a record names is there and has the contents `wanted`. */
  ghost predicate Backed(dir: string, files: Files, record: Record, wanted: Content) {
    record.FileRecord? ==> Resolve(dir, record.name) in files && files[Resolve(dir, record.name)] == wanted
  }

  /** The contents record `i` of the trace stands for. */
  ghost function Wanted(dir: string, origin: Files, i: nat): Content
    requires HasRecords(dir, origin) && i < |Records(dir, origin)|
  {
    var r := Records(dir, origin)[i];
    if r.FileRecord? && Resolve(dir, r.name) in origin then origin[Resolve(dir, r.name)] else Data([])
  }

  /** Every file-backed record names an existing file with the recorded contents. */
  ghost predicate Consistent(dir: string, origin: Files, files: Files)
    requires HasRecords(dir, origin)
  {
    && HasRecords(dir, files)
    && |Records(dir, files)| == |Records(dir, origin)|
    && forall i | 0 <= i < |Records(dir, origin)| ::
         && Records(dir, files)[i].FileRecord? == Records(dir, origin)[i].FileRecord?
         && Backed(dir, files, Records(dir, files)[i], Wanted(dir, origin, i))
  }

  /** All of `small` is in `big`. */
  ghost predicate Extends(small: Files, big: Files) {
    forall p | p in small :: p in big && big[p] == small[p]
  }

  /** A mapped file is there. */
  ghost predicate SaneFile(origin: Files, path: string) { path in origin && origin[path].Data? }

  /** A trace that can be read: it has an index, and the files this names. */
  ghost predicate Sane(dir: string, origin: Files) {
    && HasRecords(dir, origin)
    && forall i | 0 <= i < |Records(dir, origin)| && Records(dir, origin)[i].FileRecord? ::
         SaneFile(origin, Resolve(dir, Records(dir, origin)[i].name))
  }

  ghost function Names(dir: string, files: Files): set<string>
    requires HasRecords(dir, files)
  {
    FileNames(dir, Records(dir, files))
  }

  // ------------------------------------------------------------ when names are right

  /** The order of the keys of a map. */
  ghost predicate StrictOrder(less: (string, string) -> bool) {
    && (forall a, b | less(a, b) :: !less(b, a))
    && (forall a, b | a != b :: less(a, b) || less(b, a))
    && (forall a, b, c | less(a, b) && less(b, c) :: less(a, c))
  }

  /** `g` is the first file with the contents of `n` that can stay where it is. */
  ghost predicate Leader(dir: string, origin: Files, less: (string, string) -> bool, names: set<string>, n: string,
                         g: string)
    requires names <= origin.Keys && n in names
  {
    && g in names && Good(dir, g) && origin[g] == origin[n]
    && forall m | m in names && Good(dir, m) && origin[m] == origin[n] && m != g :: less(g, m)
  }

  /** The last component of the path leads to the same contents in the directory. For an entry
      of the directory this is so; for a file that only passes the prefix test it is chance. */
  ghost predicate RightName(dir: string, origin: Files, path: string) {
    path in origin && Entry(dir, Base(path)) in origin && origin[Entry(dir, Base(path))] == origin[path]
  }

  /** The files that stay where they are can be found by their last component. */
  ghost predicate LeadersRight(dir: string, origin: Files, less: (string, string) -> bool)
    requires Sane(dir, origin)
  {
    var names := Names(dir, origin);
    forall n, g | n in names && n in origin && names <= origin.Keys && Leader(dir, origin, less, names, n, g) ::
      RightName(dir, origin, g)
  }

  /** It is enough that whatever passes the prefix test is an entry of the directory. */
  lemma ChildrenAreRight(dir: string, origin: Files, less: (string, string) -> bool)
    requires Sane(dir, origin) && forall n | n in Names(dir, origin) && InTrace(dir, n) :: Child(dir, n)
    ensures LeadersRight(dir, origin, less)
  {
    var names := Names(dir, origin);
    forall n, g | n in names && n in origin && names <= origin.Keys && Leader(dir, origin, less, names, n, g)
      ensures RightName(dir, origin, g)
    {
      RelativeNameIsRight(dir, g);
    }
  }

  lemma OneName(dir: string, path: string)
    requires "/" <= path
    ensures FileNames(dir, [FileRecord(path)]) == {path}
  {
    var records := [FileRecord(path)];
    assert records[0].FileRecord? && Resolve(dir, records[0].name) == path;
  }

  lemma StrayPaths(dir: string, path: string)
    requires !Child(dir, path) && Base(path) != "mmaps"
    ensures path != MmapsPath(dir) && path != PackPath(dir) && PackPath(dir) != MmapsPath(dir)
    ensures Entry(dir, Base(path)) != path && Entry(dir, Base(path)) != MmapsPath(dir)
  {
    BaseOf(dir, "mmaps");
    BaseOf(dir, Base(path));
    PathsDiffer(dir);
    assert Child(dir, Entry(dir, "mmaps")) && Child(dir, Entry(dir, "pack_mmaps"))
      && Child(dir, Entry(dir, Base(path)));
    hide Base, Entry, Child;
  }

  /** Any file that passes the prefix test without being an entry of the directory breaks a
      trace: one that maps just this file can be read, and its names are not right. */
  lemma StrayIsNotRight(dir: string, path: string, less: (string, string) -> bool)
    requires "/" <= path && Good(dir, path) && !Child(dir, path) && Base(path) != "mmaps"
    ensures var origin := map[MmapsPath(dir) := Mmaps([FileRecord(path)]), path := Data([])];
      Sane(dir, origin) && PackPath(dir) !in origin && !LeadersRight(dir, origin, less)
  {
    var origin := map[MmapsPath(dir) := Mmaps([FileRecord(path)]), path := Data([])];
    StrayPaths(dir, path);
    OneName(dir, path);
    hide Base, Entry, Child, Good, MmapsPath, PackPath, FileNames;
    assert Records(dir, origin) == [FileRecord(path)] && Resolve(dir, path) == path;
    assert Sane(dir, origin) && Names(dir, origin) == {path};
    assert Leader(dir, origin, less, {path}, path, path);
    assert !RightName(dir, origin, path);
  }

  // --------------------------------------------------------------- the canonical map

  method Smallest(s: set<string>, less: (string, string) -> bool) returns (x: string)
    requires s != {} && StrictOrder(less)
    ensures x in s && forall y | y in s && y != x :: less(x, y)
  {
    x := Pick(s);
    var todo := s - {x};
    while todo != {}
      invariant todo <= s && x in s && x !in todo && forall y | y in s - todo && y != x :: less(x, y)
      decreases |todo|
    {
      var y := Pick(todo);
      if less(y, x) {
        x := y;
      }
      todo := todo - {y};
    }
  }

  /** The first loop of compute_canonical_mmapped_files: for each hash one file that has it, and
      the first that can stay in the trace if there is one. */
  method ChooseNames(dir: string, infos: map<string, FileInfo>, less: (string, string) -> bool)
    returns (chosen: map<int, string>)
    requires StrictOrder(less) && forall n | n in infos :: infos[n].isHardlink == IsHardlink(n)
    ensures forall n | n in infos :: infos[n].hash in chosen
    ensures forall h | h in chosen :: chosen[h] in infos && infos[chosen[h]].hash == h
    ensures forall n | n in infos && Good(dir, n) ::
      Good(dir, chosen[infos[n].hash]) && (n == chosen[infos[n].hash] || less(chosen[infos[n].hash], n))
  {
    chosen := map[];
    var todo := infos.Keys;
    while todo != {}
      invariant todo <= infos.Keys && forall m, n | m in infos && m !in todo && n in todo :: less(m, n)
      invariant forall n | n in infos && n !in todo :: infos[n].hash in chosen
      invariant forall h | h in chosen :: chosen[h] in infos && chosen[h] !in todo && infos[chosen[h]].hash == h
      invariant forall n | n in infos && n !in todo && Good(dir, n) ::
        Good(dir, chosen[infos[n].hash]) && (n == chosen[infos[n].hash] || less(chosen[infos[n].hash], n))
      decreases |todo|
    {
      hide StrictOrder, IsHardlink, InTrace;
      var n := Smallest(todo, less);
      var h := infos[n].hash;
      if !(h in chosen && !infos[chosen[h]].isHardlink && InTrace(dir, chosen[h])) {
        chosen := chosen[h := n];
      }
      todo := todo - {n};
    }
  }

  /** The file every mapped file is replaced by. */
  function FileMap(infos: map<string, FileInfo>, targets: map<int, string>): (m: map<string, string>)
    requires forall n | n in infos :: infos[n].hash in targets
    ensures m.Keys == infos.Keys
  {
    map n | n in infos :: Base(targets[infos[n].hash])
  }

  function FileNames(dir: string, records: seq<Record>): (names: set<string>)
    ensures forall i | 0 <= i < |records| && records[i].FileRecord? :: Resolve(dir, records[i].name) in names
  {
    set i | 0 <= i < |records| && records[i].FileRecord? :: Resolve(dir, records[i].name)
  }

  function Renamed(dir: string, records: seq<Record>, fileMap: map<string, string>): (r: seq<Record>)
    requires FileNames(dir, records) <= fileMap.Keys
    ensures |r| == |records|
    ensures forall i | 0 <= i < |r| ::
      r[i] == if records[i].FileRecord? then FileRecord(fileMap[Resolve(dir, records[i].name)]) else OtherRecord
  {
    seq(|records|, i requires 0 <= i < |records| =>
      if records[i].FileRecord? then FileRecord(fileMap[Resolve(dir, records[i].name)]) else OtherRecord)
  }

  // --------------------------------------------------------------------- the process

  /** Before the switch-over nothing of the original trace has changed. */
  lemma ExtendsConsistent(dir: string, origin: Files, files: Files)
    requires Sane(dir, origin) && Extends(origin, files)
    ensures Consistent(dir, origin, files)
  {
    forall i | 0 <= i < |Records(dir, origin)|
      ensures Backed(dir, files, Records(dir, files)[i], Wanted(dir, origin, i))
    {
      var r := Records(dir, origin)[i];
      if r.FileRecord? { assert SaneFile(origin, Resolve(dir, r.name)); }
    }
  }

  ghost predicate AllConsistent(dir: string, origin: Files, history: seq<Files>)
    requires HasRecords(dir, origin)
  {
    forall k | 0 <= k < |history| :: Consistent(dir, origin, history[k])
  }

  /** Every mapped file has a target of the same contents among the directory's entries. */
  ghost predicate Supplies(dir: string, origin: Files, fileMap: map<string, string>, files: Files) {
    forall n | n in fileMap ::
      && '/' !in fileMap[n] && n in origin
      && Entry(dir, fileMap[n]) in files && files[Entry(dir, fileMap[n])] == origin[n]
      && Entry(dir, fileMap[n]) != MmapsPath(dir)
  }

  /** The index has been replaced. */
  ghost predicate Switched(dir: string, origin: Files, fileMap: map<string, string>, files: Files)
    requires HasRecords(dir, origin) && FileNames(dir, Records(dir, origin)) <= fileMap.Keys
  {
    && MmapsPath(dir) in files
    && files[MmapsPath(dir)] == Mmaps(Renamed(dir, Records(dir, origin), fileMap))
    && Supplies(dir, origin, fileMap, files)
  }

  lemma SwitchedConsistent(dir: string, origin: Files, fileMap: map<string, string>, files: Files)
    requires Sane(dir, origin) && FileNames(dir, Records(dir, origin)) <= fileMap.Keys
    requires Switched(dir, origin, fileMap, files)
    ensures Consistent(dir, origin, files)
  {
    forall i | 0 <= i < |Records(dir, origin)|
      ensures Backed(dir, files, Records(dir, files)[i], Wanted(dir, origin, i))
    {
      var r := Records(dir, origin)[i];
      if r.FileRecord? {
        var n := Resolve(dir, r.name);
        assert n in fileMap && SaneFile(origin, n);
        assert fileMap[n] == [] || fileMap[n][0] != '/';
      }
    }
  }

  lemma PathsDiffer(dir: string)
    ensures PackPath(dir) != MmapsPath(dir)
  {
    assert |PackPath(dir)| != |MmapsPath(dir)|;
  }

  lemma SuppliesStill(dir: string, origin: Files, fileMap: map<string, string>, was: Files, files: Files)
    requires Supplies(dir, origin, fileMap, was)
    requires forall p | p in was && p != MmapsPath(dir) :: p in files && files[p] == was[p]
    ensures Supplies(dir, origin, fileMap, files)
  {
  }

  /** What delete_unnecessary_files removes. */
  predicate Unnecessary(dir: string, fileMap: map<string, string>, path: string) {
    path == Entry(dir, Base(path)) && "mmap_" <= Base(path) && Base(path) !in fileMap.Values
  }

  /** Some unnecessary files are gone, and nothing else has changed. */
  ghost predicate Shrunk(dir: string, fileMap: map<string, string>, was: Files, files: Files) {
    && Extends(files, was)
    && forall p | p in was && !Unnecessary(dir, fileMap, p) :: p in files
  }

  lemma ShrunkSwitched(dir: string, origin: Files, fileMap: map<string, string>, was: Files, files: Files)
    requires HasRecords(dir, origin) && FileNames(dir, Records(dir, origin)) <= fileMap.Keys
    requires Switched(dir, origin, fileMap, was) && Shrunk(dir, fileMap, was, files)
    ensures Switched(dir, origin, fileMap, files)
  {
    assert !Unnecessary(dir, fileMap, MmapsPath(dir)) by {
      BaseOf(dir, "mmaps");
      assert "mmaps"[4] == 's' && "mmap_"[4] == '_';
    }
    forall n | n in fileMap ensures !Unnecessary(dir, fileMap, Entry(dir, fileMap[n])) {
      assert fileMap[n] in fileMap.Values;
      if '/' !in fileMap[n] { BaseOf(dir, fileMap[n]); }
    }
    hide Unnecessary, Entry, Base;
  }

  /** Once the index has been replaced, consistency needs every target. */
  lemma ConsistentOnlyIf(dir: string, origin: Files, fileMap: map<string, string>, was: Files, files: Files)
    requires Sane(dir, origin) && FileNames(dir, Records(dir, origin)) == fileMap.Keys
    requires forall n | n in fileMap :: '/' !in fileMap[n]
    requires files == was[MmapsPath(dir) := Mmaps(Renamed(dir, Records(dir, origin), fileMap))]
    requires Consistent(dir, origin, files)
    ensures Supplies(dir, origin, fileMap, was)
  {
    forall n | n in fileMap
      ensures n in origin && Entry(dir, fileMap[n]) in was && was[Entry(dir, fileMap[n])] == origin[n]
      ensures Entry(dir, fileMap[n]) != MmapsPath(dir)
    {
      var i := RecordOf(dir, Records(dir, origin), n);
      assert SaneFile(origin, n);
      assert Backed(dir, files, Records(dir, files)[i], Wanted(dir, origin, i));
      assert fileMap[n] == [] || fileMap[n][0] != '/';
      assert Resolve(dir, fileMap[n]) == Entry(dir, fileMap[n]);
      hide Entry, Resolve, FileNames;
    }
  }

  // ---------------------------------------------------------------------- histories

  /** Up to `switch` the original trace is all there; then the index is replaced; then
      unnecessary files go. */
  ghost predicate Phases(dir: string, fileMap: map<string, string>, origin: Files, switch: nat, renamed: Files,
                         history: seq<Files>) {
    && switch < |history| && history[switch] == renamed
    && (forall k | 0 <= k < switch :: Extends(origin, history[k]))
    && (forall k | switch < k < |history| :: Shrunk(dir, fileMap, renamed, history[k]))
  }

  /** What rewrite_mmaps adds to the history: the second index is created, written and renamed. */
  ghost function Switching(dir: string, was: Files, index: Content, renamed: Files): seq<Files> {
    [was[PackPath(dir) := Data([])], was[PackPath(dir) := index], renamed]
  }

  lemma SwitchHistory(dir: string, fileMap: map<string, string>, origin: Files, was: Files, prepared: seq<Files>,
                      index: Content, renamed: Files, history: seq<Files>)
    requires Extends(origin, was) && PackPath(dir) !in was
    requires forall k | 0 <= k < |prepared| :: Extends(origin, prepared[k])
    requires history == prepared + Switching(dir, was, index, renamed)
    ensures Phases(dir, fileMap, origin, |history| - 1, renamed, history)
    ensures PackPath(dir) in history[|history| - 2]
  {
    forall k | 0 <= k < |history| - 1 ensures Extends(origin, history[k]) {
      if k < |prepared| { assert history[k] == prepared[k]; }
    }
  }

  lemma SwitchedNow(dir: string, origin: Files, fileMap: map<string, string>, was: Files, renamed: Files)
    requires HasRecords(dir, origin) && FileNames(dir, Records(dir, origin)) == fileMap.Keys
    requires Supplies(dir, origin, fileMap, was)
    requires renamed == was[MmapsPath(dir) := Mmaps(Renamed(dir, Records(dir, origin), fileMap))]
    ensures Switched(dir, origin, fileMap, renamed)
  {
    hide Entry, MmapsPath, Renamed;
    SuppliesStill(dir, origin, fileMap, was, renamed);
  }

  lemma AllExtend(dir: string, less: (string, string) -> bool, origin: Files, history: seq<Files>)
    requires Sane(dir, origin) && forall k | 0 <= k < |history| :: Extends(origin, history[k])
    ensures AllConsistent(dir, origin, history)
    ensures LeadersRight(dir, origin, less) ==> AllResumable(dir, less, origin, history)
  {
    assert HasRecords(dir, origin);
    hide Sane, Extends, Consistent, LeadersRight;
    forall k | 0 <= k < |history|
      ensures Consistent(dir, origin, history[k])
      ensures LeadersRight(dir, origin, less) ==> Resumable(dir, less, origin, history[k])
    {
      ExtendsConsistent(dir, origin, history[k]);
      ExtendsResumable(dir, less, origin, history[k]);
    }
  }

  /** A history in these phases is consistent if and only if every record is supplied. */
  lemma PhasesIff(dir: string, less: (string, string) -> bool, origin: Files, fileMap: map<string, string>, was: Files,
                  switch: nat, renamed: Files, history: seq<Files>)
    requires Sane(dir, origin) && FileNames(dir, Records(dir, origin)) == fileMap.Keys
    requires forall n | n in fileMap :: '/' !in fileMap[n]
    requires renamed == was[MmapsPath(dir) := Mmaps(Renamed(dir, Records(dir, origin), fileMap))]
    requires Phases(dir, fileMap, origin, switch, renamed, history)
    ensures AllConsistent(dir, origin, history) <==> Supplies(dir, origin, fileMap, was)
    ensures Supplies(dir, origin, fileMap, was) && LeadersRight(dir, origin, less) ==>
      AllResumable(dir, less, origin, history)
  {
    if AllConsistent(dir, origin, history) {
      assert Consistent(dir, origin, history[switch]);
      ConsistentOnlyIf(dir, origin, fileMap, was, renamed);
    }
    hide Sane, Extends, Consistent, LeadersRight, Supplies, Shrunk, Switched, Renamed, FileNames;
    if Supplies(dir, origin, fileMap, was) {
      forall k | 0 <= k < |history|
        ensures Consistent(dir, origin, history[k])
        ensures LeadersRight(dir, origin, less) ==> Resumable(dir, less, origin, history[k])
      {
        PhaseResumable(dir, less, origin, fileMap, was, switch, renamed, history, k);
      }
    }
  }

  lemma PhaseResumable(dir: string, less: (string, string) -> bool, origin: Files, fileMap: map<string, string>,
                       was: Files, switch: nat, renamed: Files, history: seq<Files>, k: nat)
    requires Sane(dir, origin) && FileNames(dir, Records(dir, origin)) == fileMap.Keys
    requires Supplies(dir, origin, fileMap, was)
    requires renamed == was[MmapsPath(dir) := Mmaps(Renamed(dir, Records(dir, origin), fileMap))]
    requires Phases(dir, fileMap, origin, switch, renamed, history) && k < |history|
    ensures Consistent(dir, origin, history[k])
    ensures LeadersRight(dir, origin, less) ==> Resumable(dir, less, origin, history[k])
  {
    hide Extends, Consistent, LeadersRight, Supplies, Shrunk, Switched, Renamed, FileNames;
    if k < switch {
      ExtendsConsistent(dir, origin, history[k]);
      ExtendsResumable(dir, less, origin, history[k]);
    } else {
      SwitchedNow(dir, origin, fileMap, was, renamed);
      if k > switch { ShrunkSwitched(dir, origin, fileMap, renamed, history[k]); }
      SwitchedConsistent(dir, origin, fileMap, history[k]);
      SwitchedResumable(dir, less, origin, fileMap, history[k]);
    }
  }

  // ------------------------------------------------------------------ after a crash

  /** A state from which packing can be started again: it can be read, it stands for the same
      contents as the trace `first`, and names are right. */
  ghost predicate Resumable(dir: string, less: (string, string) -> bool, first: Files, files: Files)
    requires HasRecords(dir, first)
  {
    Sane(dir, files) && Consistent(dir, first, files) && LeadersRight(dir, files, less)
  }

  ghost predicate AllResumable(dir: string, less: (string, string) -> bool, first: Files, history: seq<Files>)
    requires HasRecords(dir, first)
  {
    forall k | 0 <= k < |history| :: Resumable(dir, less, first, history[k])
  }

  lemma ExtendsResumable(dir: string, less: (string, string) -> bool, origin: Files, files: Files)
    requires Sane(dir, origin) && Extends(origin, files)
    ensures Sane(dir, files) && (LeadersRight(dir, origin, less) ==> LeadersRight(dir, files, less))
  {
    SaneNames(dir, origin);
    forall i | 0 <= i < |Records(dir, files)| && Records(dir, files)[i].FileRecord?
      ensures SaneFile(files, Resolve(dir, Records(dir, files)[i].name))
    {
      assert SaneFile(origin, Resolve(dir, Records(dir, origin)[i].name));
    }
    assert Names(dir, files) == Names(dir, origin);
    var names := Names(dir, origin);
    hide Names, Sane, Entry, Base, Good, SaneFile;
    if LeadersRight(dir, origin, less) {
      forall n, g | n in names && n in files && names <= files.Keys && Leader(dir, files, less, names, n, g)
        ensures RightName(dir, files, g)
      {
        assert Leader(dir, origin, less, names, n, g);
      }
    }
  }

  lemma SwitchedResumable(dir: string, less: (string, string) -> bool, origin: Files, fileMap: map<string, string>,
                          files: Files)
    requires Sane(dir, origin) && FileNames(dir, Records(dir, origin)) <= fileMap.Keys
    requires Switched(dir, origin, fileMap, files)
    ensures Sane(dir, files) && LeadersRight(dir, files, less)
  {
    forall i | 0 <= i < |Records(dir, files)| && Records(dir, files)[i].FileRecord?
      ensures SaneFile(files, Resolve(dir, Records(dir, files)[i].name))
      ensures RightName(dir, files, Resolve(dir, Records(dir, files)[i].name))
    {
      var n := Resolve(dir, Records(dir, origin)[i].name);
      assert n in fileMap && SaneFile(origin, n);
      assert fileMap[n] == [] || fileMap[n][0] != '/';
      assert Resolve(dir, fileMap[n]) == Entry(dir, fileMap[n]);
      BaseOf(dir, fileMap[n]);
      hide Entry, Base, Resolve, FileNames;
    }
    forall g | g in Names(dir, files) ensures RightName(dir, files, g) {
      var i := RecordOf(dir, Records(dir, files), g);
    }
    hide Leader, RightName;
  }

  /** What stands for the contents of a state that stands for those of `first` stands for them too. */
  lemma ConsistentOnward(dir: string, first: Files, middle: Files, files: Files)
    requires HasRecords(dir, first) && Sane(dir, middle) && Consistent(dir, first, middle)
    requires Consistent(dir, middle, files)
    ensures Consistent(dir, first, files)
  {
    forall i | 0 <= i < |Records(dir, first)|
      ensures Records(dir, files)[i].FileRecord? == Records(dir, first)[i].FileRecord?
      ensures Backed(dir, files, Records(dir, files)[i], Wanted(dir, first, i))
    {
      assert Backed(dir, middle, Records(dir, middle)[i], Wanted(dir, first, i));
      assert Backed(dir, files, Records(dir, files)[i], Wanted(dir, middle, i));
      hide Resolve;
    }
  }

  lemma IndexIsNoTarget(dir: string, path: string)
    requires "mmap_" <= Base(path)
    ensures path != MmapsPath(dir) && path != PackPath(dir)
  {
    BaseOf(dir, "mmaps");
    assert "mmaps"[4] == 's' && "mmap_"[4] == '_';
    BaseOf(dir, "pack_mmaps");
    assert "pack_mmaps"[0] == 'p' && "mmap_"[0] == 'm';
  }

  /** The target of `n` is an entry of the directory, no hardlink, and new exactly when no file
      of the same contents could stay. */
  ghost predicate Stand(dir: string, origin: Files, names: set<string>, fileMap: map<string, string>, n: string)
    requires names <= fileMap.Keys && names <= origin.Keys && n in names
  {
    && '/' !in fileMap[n] && !IsHardlink(Entry(dir, fileMap[n]))
    && (Entry(dir, fileMap[n]) in origin <==> exists m :: m in names && Good(dir, m) && origin[m] == origin[n])
  }

  /** Total, one target for each contents, and a copy exactly where one is needed. */
  ghost predicate Canonical(dir: string, origin: Files, names: set<string>, fileMap: map<string, string>) {
    && names <= fileMap.Keys && names <= origin.Keys
    && (forall n | n in names :: Stand(dir, origin, names, fileMap, n))
    && (forall m, n | m in names && n in names && origin[m] == origin[n] :: fileMap[m] == fileMap[n])
  }

  /** What a trace looks like after packing: its files are entries of the directory and no
      hardlinks, equal contents share one file, a file is new exactly when none of its contents
      could stay, and no mapped file is left that no record names. */
  ghost predicate Packed(dir: string, origin: Files, files: Files)
    requires HasRecords(dir, origin) && HasRecords(dir, files)
  {
    var before, after := Records(dir, origin), Records(dir, files);
    && |after| == |before|
    && (forall i | 0 <= i < |after| && after[i].FileRecord? ::
         && '/' !in after[i].name && !IsHardlink(Entry(dir, after[i].name))
         && (Entry(dir, after[i].name) in origin <==> StaysInTrace(dir, origin, i)))
    && (forall i, j | 0 <= i < |after| && 0 <= j < |after| && after[i].FileRecord? && after[j].FileRecord?
          && Wanted(dir, origin, i) == Wanted(dir, origin, j) :: after[i].name == after[j].name)
    && (forall p | p in files && p == Entry(dir, Base(p)) && "mmap_" <= Base(p) :: FileRecord(Base(p)) in after)
  }

  /** Some record names a file of the same contents that can stay where it is. */
  ghost predicate StaysInTrace(dir: string, origin: Files, i: nat)
    requires HasRecords(dir, origin) && i < |Records(dir, origin)|
  {
    var records := Records(dir, origin);
    exists j :: 0 <= j < |records| && records[j].FileRecord? && Good(dir, Resolve(dir, records[j].name))
      && Wanted(dir, origin, j) == Wanted(dir, origin, i)
  }

  lemma PackedNow(dir: string, origin: Files, fileMap: map<string, string>, files: Files)
    requires Sane(dir, origin) && FileNames(dir, Records(dir, origin)) == fileMap.Keys
    requires Switched(dir, origin, fileMap, files)
    requires Canonical(dir, origin, FileNames(dir, Records(dir, origin)), fileMap)
    requires forall p | p in files :: !Unnecessary(dir, fileMap, p)
    ensures HasRecords(dir, files) && Packed(dir, origin, files)
  {
    hide Entry, Base, Resolve, Good, IsHardlink, Stand, Supplies, SaneFile, StaysInTrace;
    var names, before, after := FileNames(dir, Records(dir, origin)), Records(dir, origin), Records(dir, files);
    forall i | 0 <= i < |after| && after[i].FileRecord?
      ensures '/' !in after[i].name && !IsHardlink(Entry(dir, after[i].name))
      ensures Entry(dir, after[i].name) in origin <==> StaysInTrace(dir, origin, i)
    {
      RecordStands(dir, origin, fileMap, i);
    }
    forall p | p in files && p == Entry(dir, Base(p)) && "mmap_" <= Base(p) ensures FileRecord(Base(p)) in after {
      assert Base(p) in fileMap.Values;
      var n :| n in fileMap && fileMap[n] == Base(p);
      var i := RecordOf(dir, before, n);
      assert after[i] == FileRecord(Base(p));
    }
  }

  lemma RecordOf(dir: string, records: seq<Record>, name: string) returns (i: nat)
    requires name in FileNames(dir, records)
    ensures i < |records| && records[i].FileRecord? && name == Resolve(dir, records[i].name)
  {
    var j :| 0 <= j < |records| && records[j].FileRecord? && name == Resolve(dir, records[j].name);
    i := j;
  }

  lemma SaneNames(dir: string, origin: Files)
    requires Sane(dir, origin)
    ensures forall n | n in FileNames(dir, Records(dir, origin)) :: n in origin && SaneFile(origin, n)
  {
    forall n | n in FileNames(dir, Records(dir, origin)) ensures SaneFile(origin, n) {
      var i := RecordOf(dir, Records(dir, origin), n);
    }
  }

  lemma RecordStands(dir: string, origin: Files, fileMap: map<string, string>, i: nat)
    requires HasRecords(dir, origin) && FileNames(dir, Records(dir, origin)) <= fileMap.Keys
    requires Canonical(dir, origin, FileNames(dir, Records(dir, origin)), fileMap)
    requires i < |Records(dir, origin)| && Records(dir, origin)[i].FileRecord?
    ensures var name := fileMap[Resolve(dir, Records(dir, origin)[i].name)];
      && '/' !in name && !IsHardlink(Entry(dir, name))
      && (Entry(dir, name) in origin <==> StaysInTrace(dir, origin, i))
  {
    hide Entry, Base, Resolve, Good, IsHardlink;
    var names, records := FileNames(dir, Records(dir, origin)), Records(dir, origin);
    var n := Resolve(dir, records[i].name);
    assert Stand(dir, origin, names, fileMap, n);
    if m :| m in names && Good(dir, m) && origin[m] == origin[n] {
      var j := RecordOf(dir, records, m);
      assert Wanted(dir, origin, j) == Wanted(dir, origin, i);
    }
    hide FileNames;
    if StaysInTrace(dir, origin, i) {
      var j :| 0 <= j < |records| && records[j].FileRecord? && Good(dir, Resolve(dir, records[j].name))
        && Wanted(dir, origin, j) == Wanted(dir, origin, i);
      assert Resolve(dir, records[j].name) in names;
    }
  }

  class Trace {
    const dir: string
    const hash: Content -> int
    const less: (string, string) -> bool
    var files: Files
    /** Every state of the file system, one for each system call that changes it. */
    ghost var history: seq<Files>

    constructor (dir: string, hash: Content -> int, less: (string, string) -> bool, files: Files)
      ensures this.dir == dir && this.hash == hash && this.less == less && this.files == files && history == [files]
    {
      this.dir, this.hash, this.less, this.files, history := dir, hash, less, files, [files];
    }

    method SetFiles(files: Files)
      modifies this
      ensures this.files == files && history == old(history) + [files]
    {
      this.files, history := files, history + [files];
    }

    /** open with O_CREAT and O_EXCL. */
    method Create(path: string) returns (ok: bool)
      modifies this
      ensures ok <==> path !in old(files)
      ensures ok ==> files == old(files)[path := Data([])] && history == old(history) + [files]
      ensures !ok ==> files == old(files) && history == old(history)
    {
      ok := path !in files;
      if ok { SetFiles(files[path := Data([])]); }
    }

    /** Up to here nothing of the original trace has changed. */
    ghost predicate Preparing(origin: Files)
      reads this
    {
      && Sane(dir, origin) && Extends(origin, files) && history != [] && history[|history| - 1] == files
      && forall k | 0 <= k < |history| :: Extends(origin, history[k])
    }

    method CreateNew(path: string, ghost origin: Files) returns (ok: bool)
      requires Preparing(origin)
      modifies this
      ensures Preparing(origin)
      ensures ok <==> path !in old(files)
      ensures files == if ok then old(files)[path := Data([])] else old(files)
    {
      hide Sane;
      ok := Create(path);
    }

    method CreateCopy(path: string, index: nat, ghost origin: Files) returns (copy: string, next: nat)
      requires Preparing(origin)
      modifies this
      ensures Preparing(origin)
      ensures copy !in old(files) && files == old(files)[copy := Data([])]
      ensures Child(dir, copy) && Good(dir, copy) && "mmap_" <= Base(copy)
    {
      hide *;
      next := index;
      ghost var tried: set<string> := {};
      NoneTried(dir, path, next);
      while true
        invariant Preparing(origin) && files == old(files)
        invariant tried <= files.Keys && Tried(dir, path, tried, next)
        decreases |files| - |tried|
      {
        copy := CopyPath(dir, path, next);
        CopyIsGood(dir, path, next);
        var ok := CreateNew(copy, origin);
        if ok {
          return copy, next + 1;
        }
        NotTried(dir, path, tried, next);
        TriedSome(tried, copy, files);
        tried := tried + {copy};
        next := next + 1;
      }
    }

    method CopyIntoTrace(path: string, index: nat, ghost origin: Files) returns (copy: string, next: nat)
      requires Preparing(origin) && path in origin && origin[path].Data?
      modifies this
      ensures Preparing(origin)
      ensures copy !in old(files) && files == old(files)[copy := origin[path]]
      ensures Child(dir, copy) && Good(dir, copy) && "mmap_" <= Base(copy)
    {
      copy, next := CreateCopy(path, index, origin);
      var bytes := files[path].bytes;
      var done := 0;
      while done < |bytes|
        invariant done <= |bytes| && files == old(files)[copy := Data(bytes[..done])]
        invariant Preparing(origin)
      {
        var written :| 0 < written <= |bytes| - done;
        done := done + written;
        SetFiles(files[copy := Data(bytes[..done])]);
      }
      assert bytes[..|bytes|] == bytes;
    }

    /** `target` stands in for `path`: itself if it can stay, a copy of it otherwise. */
    ghost predicate StandsIn(origin: Files, path: string, target: string)
      reads this
    {
      && path in origin && target in files && files[target] == origin[path]
      && Good(dir, target)
      && (if Good(dir, path) then target == path
          else target !in origin && Child(dir, target) && "mmap_" <= Base(target))
    }

    /** All targets stand in for their files, and what is new is such a copy. */
    ghost predicate Placed(origin: Files, chosen: map<int, string>, targets: map<int, string>)
      requires targets.Keys <= chosen.Keys
      reads this
    {
      && (forall h | h in targets :: StandsIn(origin, chosen[h], targets[h]))
      && (forall p | p in files && p !in origin :: exists h :: h in targets && !Good(dir, chosen[h]) && p == targets[h])
    }

    /** Adding a target for `h` once the file system has grown from `was`. */
    lemma PlacedMore(origin: Files, was: Files, chosen: map<int, string>, targets: map<int, string>, h: int,
                     target: string)
      requires targets.Keys <= chosen.Keys && h in chosen && h !in targets && Extends(was, files)
      requires forall g | g in targets :: StandsIn(origin, chosen[g], targets[g])
      requires StandsIn(origin, chosen[h], target)
      requires forall p | p in was && p !in origin ::
        exists g :: g in targets && !Good(dir, chosen[g]) && p == targets[g]
      requires forall p | p in files && p !in was :: p == target && !Good(dir, chosen[h])
      ensures Placed(origin, chosen, targets[h := target])
    {
      hide StandsIn, Good;
      var after := targets[h := target];
      forall p | p in files && p !in origin ensures exists g :: g in after && !Good(dir, chosen[g]) && p == after[g] {
        if p in was {
          var g :| g in targets && !Good(dir, chosen[g]) && p == targets[g];
          assert after[g] == p;
        } else {
          assert after[h] == p;
        }
      }
    }

    /** The second loop of compute_canonical_mmapped_files: copies are made for exactly the
        hashes none of whose files can stay. */
    method CopyMissing(chosen: map<int, string>, ghost origin: Files) returns (targets: map<int, string>)
      requires files == origin && Preparing(origin) && forall h | h in chosen :: SaneFile(origin, chosen[h])
      modifies this
      ensures Preparing(origin)
      ensures targets.Keys == chosen.Keys && Placed(origin, chosen, targets)
    {
      targets := map[];
      var todo := chosen.Keys;
      var index := 0;
      while todo != {}
        invariant todo <= chosen.Keys && targets.Keys == chosen.Keys - todo && Preparing(origin)
        invariant Placed(origin, chosen, targets)
        decreases |todo|
      {
        var h := Pick(todo);
        assert SaneFile(origin, chosen[h]);
        hide *;
        ghost var before, was := targets, files;
        var target, next := Place(chosen[h], index, origin);
        index := next;
        targets := targets[h := target];
        todo := todo - {h};
        PlacedMore(origin, was, chosen, before, h, target);
      }
    }

    method Place(path: string, index: nat, ghost origin: Files) returns (target: string, next: nat)
      requires Preparing(origin) && SaneFile(origin, path)
      modifies this
      ensures Preparing(origin) && StandsIn(origin, path, target) && Extends(old(files), files)
      ensures forall p | p in files && p !in old(files) :: p == target && !Good(dir, path)
    {
      if Good(dir, path) {
        return path, index;
      }
      hide Sane, AllConsistent, Good, Child;
      target, next := CopyIntoTrace(path, index, origin);
    }

    /** rewrite_mmaps: the new index is written beside the old one and renamed over it. */
    method RewriteMmaps(fileMap: map<string, string>) returns (ok: bool)
      requires HasRecords(dir, files) && FileNames(dir, Records(dir, files)) <= fileMap.Keys
      modifies this
      ensures ok <==> PackPath(dir) !in old(files)
      ensures !ok ==> files == old(files) && history == old(history)
      ensures ok ==> files == old(files)[MmapsPath(dir) := Mmaps(Renamed(dir, Records(dir, old(files)), fileMap))]
      ensures ok ==> history == old(history) + Switching(dir, old(files), files[MmapsPath(dir)], files)
    {
      ok := Create(PackPath(dir));
      if !ok {
        return;
      }
      PathsDiffer(dir);
      var index := Mmaps(Renamed(dir, files[MmapsPath(dir)].records, fileMap));
      hide PackPath, MmapsPath, Renamed;
      SetFiles(files[PackPath(dir) := index]);
      assert files == old(files)[PackPath(dir) := index];
      SetFiles((map p | p in files && p != PackPath(dir) :: files[p])[MmapsPath(dir) := files[PackPath(dir)]]);
      assert files == old(files)[MmapsPath(dir) := index];
      ghost var a, b := old(files)[PackPath(dir) := Data([])], old(files)[PackPath(dir) := index];
      assert history == old(history) + [a] + [b] + [files];
    }

    /** delete_unnecessary_files: entries "mmap_..." that are nobody's target go away, and at no
        moment anything else. */
    method DeleteUnnecessaryFiles(fileMap: map<string, string>)
      modifies this
      ensures forall p :: p in files <==> p in old(files) && !Unnecessary(dir, fileMap, p)
      ensures forall p | p in files :: files[p] == old(files)[p]
      ensures |old(history)| <= |history| && old(history) == history[..|old(history)|]
      ensures forall k | |old(history)| <= k < |history| :: Shrunk(dir, fileMap, old(files), history[k])
    {
      var todo := set p | p in files && Unnecessary(dir, fileMap, p);
      while todo != {}
        invariant forall p | p in todo :: p in files && Unnecessary(dir, fileMap, p)
        invariant forall p | p in old(files) && p !in files :: Unnecessary(dir, fileMap, p)
        invariant forall p | p in files ::
          p in old(files) && files[p] == old(files)[p] && (p in todo || !Unnecessary(dir, fileMap, p))
        invariant |old(history)| <= |history| && old(history) == history[..|old(history)|]
        invariant forall k | |old(history)| <= k < |history| :: Shrunk(dir, fileMap, old(files), history[k])
        decreases |todo|
      {
        hide Unnecessary;
        var path := Pick(todo);
        SetFiles(map p | p in files && p != path :: files[p]);
        assert Shrunk(dir, fileMap, old(files), files);
        todo := todo - {path};
      }
    }

    /** The target of a file, looked up by its last component. */
    lemma TargetOf(origin: Files, path: string, target: string)
      requires Sane(dir, origin) && Extends(origin, files) && SaneFile(origin, path) && StandsIn(origin, path, target)
      requires Good(dir, path) ==> RightName(dir, origin, path)
      ensures var e := Entry(dir, Base(target));
        && e in files && files[e] == origin[path] && !IsHardlink(e) && e != MmapsPath(dir)
        && (e in origin <==> Good(dir, path))
    {
      BaseOf(dir, Base(target));
      if !Good(dir, path) { RelativeNameIsRight(dir, target); }
      hide Entry, Base;
    }

    /** The chosen files are chosen for contents, and those that stay are leaders. */
    ghost predicate Chosen(origin: Files, names: set<string>, chosen: map<int, string>) {
      && names <= origin.Keys
      && (forall n | n in names :: SaneFile(origin, n))
      && (forall h | h in chosen :: chosen[h] in names && hash(origin[chosen[h]]) == h)
      && (forall n | n in names :: hash(origin[n]) in chosen
            && (Good(dir, n) ==> var g := chosen[hash(origin[n])]; Good(dir, g) && (n == g || less(g, n))))
    }

    lemma ChosenLeads(origin: Files, names: set<string>, chosen: map<int, string>, n: string)
      requires CollisionFree(hash) && StrictOrder(less) && Chosen(origin, names, chosen) && n in names
      ensures var g := chosen[hash(origin[n])];
        && g in names && origin[g] == origin[n]
        && (Good(dir, g) ==> Leader(dir, origin, less, names, n, g))
        && (forall m | Leader(dir, origin, less, names, n, m) :: m == g && Good(dir, g))
        && (Good(dir, g) <==> exists m :: m in names && Good(dir, m) && origin[m] == origin[n])
    {
      var h := hash(origin[n]);
      var g := chosen[h];
      assert h in chosen && g in names && hash(origin[g]) == h;
      assert origin[g] == origin[n];
      hide SaneFile, Good;
      forall m | m in names && Good(dir, m) && origin[m] == origin[n] ensures Good(dir, g) && (m == g || less(g, m)) {
        assert hash(origin[m]) == hash(origin[n]);
      }
      forall m | Leader(dir, origin, less, names, n, m) ensures m == g && Good(dir, g) {
        assert m in names && Good(dir, m) && origin[m] == origin[n];
      }
    }

    /** `fileMap` sends every file to the target of its hash. */
    ghost predicate Follows(origin: Files, names: set<string>, targets: map<int, string>,
                            fileMap: map<string, string>)
    {
      && names <= origin.Keys && fileMap.Keys == names
      && forall n | n in names :: hash(origin[n]) in targets && fileMap[n] == Base(targets[hash(origin[n])])
    }

    /** Everything known once the copies have been made. */
    ghost predicate Ready(origin: Files, names: set<string>, fileMap: map<string, string>, chosen: map<int, string>,
                          targets: map<int, string>)
      reads this
    {
      && CollisionFree(hash) && StrictOrder(less) && Sane(dir, origin) && Extends(origin, files)
      && names == Names(dir, origin) && Chosen(origin, names, chosen)
      && targets.Keys == chosen.Keys && Placed(origin, chosen, targets) && Follows(origin, names, targets, fileMap)
    }

    lemma EntryStands(origin: Files, names: set<string>, fileMap: map<string, string>, chosen: map<int, string>,
                      targets: map<int, string>, n: string)
      requires Ready(origin, names, fileMap, chosen, targets) && LeadersRight(dir, origin, less) && n in names
      ensures Stand(dir, origin, names, fileMap, n)
      ensures Entry(dir, fileMap[n]) in files && files[Entry(dir, fileMap[n])] == origin[n]
      ensures Entry(dir, fileMap[n]) != MmapsPath(dir)
    {
      var h := hash(origin[n]);
      assert StandsIn(origin, chosen[h], targets[h]) && SaneFile(origin, chosen[h]);
      ChosenLeads(origin, names, chosen, n);
      hide StandsIn, Placed, CollisionFree, StrictOrder, Good, IsHardlink, Entry, Base, MmapsPath;
      hide Extends, Sane, Names, Leader;
      TargetOf(origin, chosen[h], targets[h]);
    }

    /** With right names the map is canonical and supplies every record. */
    lemma CanonicalMap(origin: Files, names: set<string>, fileMap: map<string, string>, chosen: map<int, string>,
                       targets: map<int, string>)
      requires Ready(origin, names, fileMap, chosen, targets) && LeadersRight(dir, origin, less)
      ensures Canonical(dir, origin, names, fileMap) && Supplies(dir, origin, fileMap, files)
    {
      assert Follows(origin, names, targets, fileMap);
      hide Ready, Good, IsHardlink, Entry, Base, MmapsPath, Stand, LeadersRight;
      forall n | n in names
        ensures Stand(dir, origin, names, fileMap, n)
        ensures Entry(dir, fileMap[n]) in files && files[Entry(dir, fileMap[n])] == origin[n]
        ensures Entry(dir, fileMap[n]) != MmapsPath(dir)
      {
        EntryStands(origin, names, fileMap, chosen, targets, n);
      }
    }

    /** A wrong name leaves a record without its contents: nothing else the process creates has them. */
    lemma WrongName(origin: Files, names: set<string>, fileMap: map<string, string>, chosen: map<int, string>,
                    targets: map<int, string>, n: string, g: string)
      requires Ready(origin, names, fileMap, chosen, targets) && n in names && names <= origin.Keys
      requires Leader(dir, origin, less, names, n, g) && !RightName(dir, origin, g)
      ensures n in fileMap && !(Entry(dir, fileMap[n]) in files && files[Entry(dir, fileMap[n])] == origin[n])
    {
      var h := hash(origin[n]);
      ChosenLeads(origin, names, chosen, n);
      assert StandsIn(origin, chosen[h], targets[h]) && targets[h] == g;
      var e := Entry(dir, fileMap[n]);
      assert e == Entry(dir, Base(g));
      if e in files && e !in origin {
        var k :| k in targets && !Good(dir, chosen[k]) && e == targets[k];
        assert StandsIn(origin, chosen[k], targets[k]);
        assert hash(origin[chosen[k]]) == k;
        assert k != h;
      }
    }

    /** The records are supplied if and only if names are right. */
    lemma SuppliesIff(origin: Files, names: set<string>, fileMap: map<string, string>, chosen: map<int, string>,
                      targets: map<int, string>)
      requires Ready(origin, names, fileMap, chosen, targets)
      ensures Supplies(dir, origin, fileMap, files) <==> LeadersRight(dir, origin, less)
    {
      if LeadersRight(dir, origin, less) {
        CanonicalMap(origin, names, fileMap, chosen, targets);
      } else {
        SaneNames(dir, origin);
        hide Ready, Good, IsHardlink, Entry, Base, MmapsPath, Leader, RightName, Sane;
        var n, g :| n in names && n in origin && names <= origin.Keys && Leader(dir, origin, less, names, n, g)
          && !RightName(dir, origin, g);
        WrongName(origin, names, fileMap, chosen, targets, n, g);
      }
    }

    lemma ChosenFrom(origin: Files, names: set<string>, infos: map<string, FileInfo>, chosen: map<int, string>)
      requires infos.Keys == names && names <= origin.Keys
      requires forall n | n in names :: SaneFile(origin, n) && infos[n].hash == hash(origin[n])
      requires forall n | n in infos :: infos[n].hash in chosen
      requires forall h | h in chosen :: chosen[h] in infos && infos[chosen[h]].hash == h
      requires forall n | n in infos && Good(dir, n) ::
        Good(dir, chosen[infos[n].hash]) && (n == chosen[infos[n].hash] || less(chosen[infos[n].hash], n))
      ensures Chosen(origin, names, chosen)
    {
      hide SaneFile, Good;
    }

    /** The first loop, over what gather_file_info found. */
    method Choose(names: set<string>) returns (infos: map<string, FileInfo>, chosen: map<int, string>)
      requires StrictOrder(less) && forall n | n in names :: SaneFile(files, n)
      ensures infos.Keys == names && forall n | n in names :: n in files && infos[n].hash == hash(files[n])
      ensures Chosen(files, names, chosen)
      ensures forall h | h in chosen :: SaneFile(files, chosen[h])
    {
      hide StrictOrder, Good, IsHardlink;
      infos := map n | n in names :: FileInfo(hash(files[n]), IsHardlink(n));
      chosen := ChooseNames(dir, infos, less);
      ChosenFrom(files, names, infos, chosen);
    }

    /** compute_canonical_mmapped_files: it supplies every record if and only if names are right,
        and then the map is canonical. */
    method CanonicalFiles(ghost origin: Files) returns (fileMap: map<string, string>)
      requires files == origin && Preparing(origin) && CollisionFree(hash) && StrictOrder(less)
      modifies this
      ensures Preparing(origin) && fileMap.Keys == Names(dir, origin)
      ensures forall n | n in fileMap :: '/' !in fileMap[n]
      ensures Supplies(dir, origin, fileMap, files) <==> LeadersRight(dir, origin, less)
      ensures LeadersRight(dir, origin, less) ==> Canonical(dir, origin, fileMap.Keys, fileMap)
      ensures forall p | p in files && p !in origin :: p == Entry(dir, Base(p)) && p != PackPath(dir)
    {
      SaneNames(dir, origin);
      var names := FileNames(dir, files[MmapsPath(dir)].records);
      assert names == Names(dir, origin);
      hide *;
      var infos, chosen := Choose(names);
      var targets := CopyMissing(chosen, origin);
      fileMap := Mapped(origin, names, infos, chosen, targets);
      NewFiles(origin, chosen, targets);
      SuppliesIff(origin, names, fileMap, chosen, targets);
      if LeadersRight(dir, origin, less) { CanonicalMap(origin, names, fileMap, chosen, targets); }
    }

    /** The last loop. */
    method Mapped(ghost origin: Files, names: set<string>, infos: map<string, FileInfo>, ghost chosen: map<int, string>,
                  targets: map<int, string>) returns (fileMap: map<string, string>)
      requires Preparing(origin) && CollisionFree(hash) && StrictOrder(less) && names == Names(dir, origin)
      requires Chosen(origin, names, chosen) && targets.Keys == chosen.Keys && Placed(origin, chosen, targets)
      requires infos.Keys == names && forall n | n in names :: n in origin && infos[n].hash == hash(origin[n])
      ensures fileMap.Keys == names && (forall n | n in fileMap :: '/' !in fileMap[n])
      ensures Ready(origin, names, fileMap, chosen, targets)
    {
      hide CollisionFree, StrictOrder, Placed, SaneFile, Good, Sane, Extends;
      fileMap := FileMap(infos, targets);
    }

    /** Packs the trace. It succeeds exactly when no index of an earlier, interrupted run is in the
        way. Every state on the way is consistent if and only if it stops there or names are
        right; with right names packing can be started again from every state, and the trace ends
        up packed. Every run passes through a state with the second index. */
    method Pack() returns (ok: bool)
      requires Sane(dir, files) && history == [files] && CollisionFree(hash) && StrictOrder(less)
      modifies this
      ensures ok <==> PackPath(dir) !in old(files)
      ensures AllConsistent(dir, old(files), history) <==> !ok || LeadersRight(dir, old(files), less)
      ensures LeadersRight(dir, old(files), less) ==> AllResumable(dir, less, old(files), history)
      ensures ok && LeadersRight(dir, old(files), less) ==> HasRecords(dir, files) && Packed(dir, old(files), files)
      ensures exists k :: 0 <= k < |history| && PackPath(dir) in history[k]
      ensures forall p | p != Entry(dir, Base(p)) :: p in files <==> p in old(files)
      ensures forall p | p != Entry(dir, Base(p)) && p in files :: files[p] == old(files)[p]
    {
      ghost var origin := files;
      assert Extends(origin, files);
      hide Sane, CollisionFree, StrictOrder, LeadersRight, Canonical, Supplies, Packed, Entry, Base, PackPath, Names;
      var fileMap := CanonicalFiles(origin);
      hide Preparing, AllConsistent, AllResumable;
      ok := Finish(fileMap, origin);
    }

    /** Everything after the copies have been made. */
    method Finish(fileMap: map<string, string>, ghost origin: Files) returns (ok: bool)
      requires Preparing(origin) && fileMap.Keys == Names(dir, origin)
      requires forall n | n in fileMap :: '/' !in fileMap[n]
      requires Supplies(dir, origin, fileMap, files) <==> LeadersRight(dir, origin, less)
      requires LeadersRight(dir, origin, less) ==> Canonical(dir, origin, fileMap.Keys, fileMap)
      requires forall p | p in files && p !in origin :: p != PackPath(dir)
      modifies this
      ensures ok <==> PackPath(dir) !in origin
      ensures AllConsistent(dir, origin, history) <==> !ok || LeadersRight(dir, origin, less)
      ensures LeadersRight(dir, origin, less) ==> AllResumable(dir, less, origin, history)
      ensures ok && LeadersRight(dir, origin, less) ==> HasRecords(dir, files) && Packed(dir, origin, files)
      ensures exists k :: 0 <= k < |history| && PackPath(dir) in history[k]
      ensures forall p | p != Entry(dir, Base(p)) :: p in files <==> p in old(files)
      ensures forall p | p != Entry(dir, Base(p)) && p in files :: files[p] == old(files)[p]
    {
      assert PackPath(dir) in files <==> PackPath(dir) in origin;
      hide Packed, Canonical, AllConsistent, AllResumable, Supplies, Entry, Base, LeadersRight, Consistent;
      hide PackPath, SaneFile;
      ghost var switch, renamed;
      ok, switch, renamed := SwitchOver(fileMap, origin);
      if !ok {
        AllExtend(dir, less, origin, history);
        hide *;
        return;
      }
      hide *;
      PhasesIff(dir, less, origin, fileMap, old(files), switch, renamed, history);
      if LeadersRight(dir, origin, less) {
        SwitchedNow(dir, origin, fileMap, old(files), renamed);
        ShrunkSwitched(dir, origin, fileMap, renamed, files);
        PackedNow(dir, origin, fileMap, files);
      }
    }

    /** rewrite_mmaps and delete_unnecessary_files, and the history they make. */
    method SwitchOver(fileMap: map<string, string>, ghost origin: Files)
      returns (ok: bool, ghost switch: nat, ghost renamed: Files)
      requires Preparing(origin) && fileMap.Keys == Names(dir, origin)
      modifies this
      ensures HasRecords(dir, origin) && FileNames(dir, Records(dir, origin)) == fileMap.Keys
      ensures ok <==> PackPath(dir) !in old(files)
      ensures !ok ==> files == old(files) && history == old(history)
      ensures ok ==> Phases(dir, fileMap, origin, switch, renamed, history) && Shrunk(dir, fileMap, renamed, files)
      ensures ok ==> renamed == old(files)[MmapsPath(dir) := Mmaps(Renamed(dir, Records(dir, origin), fileMap))]
      ensures ok ==> forall p | p in files :: !Unnecessary(dir, fileMap, p)
      ensures exists k :: 0 <= k < |history| && PackPath(dir) in history[k]
      ensures forall p | p != Entry(dir, Base(p)) :: p in files <==> p in old(files)
      ensures forall p | p != Entry(dir, Base(p)) && p in files :: files[p] == old(files)[p]
    {
      BaseOf(dir, "mmaps");
      assert MmapsPath(dir) == Entry(dir, Base(MmapsPath(dir)));
      assert HasRecords(dir, files) && Records(dir, files) == Records(dir, origin);
      hide Sane, Entry, Base, Renamed, FileNames;
      ok := RewriteMmaps(fileMap);
      switch, renamed := |history| - 1, files;
      if !ok {
        assert PackPath(dir) in history[switch];
        return;
      }
      ghost var switched := history;
      SwitchHistory(dir, fileMap, origin, old(files), old(history), files[MmapsPath(dir)], renamed, switched);
      DeleteUnnecessaryFiles(fileMap);
      assert forall k | 0 <= k < |switched| :: history[k] == switched[k];
      assert PackPath(dir) in history[switch - 1];
    }

    /** Packing again from the state an interrupted run left: it succeeds exactly when that run
        had not begun the second index, and every state still stands for the first trace. */
    method PackAgain(ghost first: Files) returns (ok: bool)
      requires HasRecords(dir, first) && Resumable(dir, less, first, files)
      requires history == [files] && CollisionFree(hash) && StrictOrder(less)
      modifies this
      ensures ok <==> PackPath(dir) !in old(files)
      ensures AllResumable(dir, less, first, history)
      ensures ok ==> HasRecords(dir, files) && Packed(dir, old(files), files)
    {
      ghost var middle := files;
      assert Sane(dir, middle) && Consistent(dir, first, middle) && LeadersRight(dir, middle, less);
      hide Sane, CollisionFree, StrictOrder, LeadersRight, Packed, Consistent, PackPath, Entry, Base;
      ok := Pack();
      forall k | 0 <= k < |history| ensures Resumable(dir, less, first, history[k]) {
        assert Resumable(dir, less, middle, history[k]);
        ConsistentOnward(dir, first, middle, history[k]);
      }
    }

    /** What the copies added are entries of the directory, and never an index. */
    lemma NewFiles(origin: Files, chosen: map<int, string>, targets: map<int, string>)
      requires targets.Keys == chosen.Keys && Placed(origin, chosen, targets)
      ensures forall p | p in files && p !in origin :: p == Entry(dir, Base(p)) && p != PackPath(dir)
    {
      forall p | p in files && p !in origin ensures p == Entry(dir, Base(p)) && p != PackPath(dir) {
        var h :| h in targets && !Good(dir, chosen[h]) && p == targets[h];
        assert StandsIn(origin, chosen[h], targets[h]);
        RelativeNameIsRight(dir, p);
        IndexIsNoTarget(dir, p);
      }
    }
  }

  lemma CopyIsGood(dir: string, path: string, index: nat)
    ensures var p := CopyPath(dir, path, index); Child(dir, p) && Good(dir, p) && "mmap_" <= Base(p)
  {
    CopyPathIsGood(dir, path, index);
  }

  /** `tried` are names of copies with smaller indices. */
  ghost predicate Tried(dir: string, path: string, tried: set<string>, next: nat) {
    forall p | p in tried :: exists j: nat :: j < next && p == CopyPath(dir, path, j)
  }

  lemma NoneTried(dir: string, path: string, next: nat)
    ensures Tried(dir, path, {}, next)
  {
  }

  lemma NotTried(dir: string, path: string, tried: set<string>, next: nat)
    requires Tried(dir, path, tried, next)
    ensures CopyPath(dir, path, next) !in tried
    ensures Tried(dir, path, tried + {CopyPath(dir, path, next)}, next + 1)
  {
    hide CopyPath;
    var copy := CopyPath(dir, path, next);
    if copy in tried {
      var j: nat :| j < next && copy == CopyPath(dir, path, j);
      CopyPathInjective(dir, path, j, next);
    }
  }

  lemma TriedSome(tried: set<string>, path: string, files: Files)
    requires tried <= files.Keys && path in files && path !in tried
    ensures |tried| < |files|
  {
    Subset(tried + {path}, files.Keys);
  }

  lemma Subset<T>(a: set<T>, b: set<T>)
    requires a <= b
    ensures |a| <= |b|
  {
    if a != {} {
      var x :| x in a;
      Subset(a - {x}, b - {x});
    }
  }
}
