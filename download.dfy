/** The download service: for the configured survey year it fetches the
    documentation, the zipped CSV files and the data element definitions whose
    routes the scraper found, writes them into the year's data directory, unpacks
    the CSV archive and gives the unpacked files their canonical names. */
module Download {
  import opened Collections
  import opened Strings
  import opened Configuration

  /** The resources the service knows, with the file name each is stored under. */
  datatype DownloadType =
    | Documentation
    | DataElementDefinitions
    | CsvZip
    | SystemData
    | StateSummaryAndCharacteristicData
    | OutletData
  {
    function FileName(): string
    {
      match this
      case Documentation => "Documentation.pdf"
      case DataElementDefinitions => "DataElementDefinitions.pdf"
      case CsvZip => "csvs.zip"
      case SystemData => "SystemDataFile.csv"
      case StateSummaryAndCharacteristicData => "StateSummaryAndCharacteristicData.csv"
      case OutletData => "OutletData.csv"
    }
  }

  /** The enumeration has six members: no two share a file name. */
  lemma FileNamesDistinct(s: DownloadType, t: DownloadType)
    ensures s.FileName() == t.FileName() <==> s == t
  {
    if s != t {
      assert s.FileName()[0] != t.FileName()[0] || s.FileName()[1] != t.FileName()[1]
        || s.FileName()[5] != t.FileName()[5] || |s.FileName()| != |t.FileName()|;
    }
  }

  /** Whether the downloaded content is an archive to unpack: its file name ends
      in `.zip`. */
  predicate ShouldUnzip(t: DownloadType)
  {
    EndsWith(t.FileName(), ".zip")
  }

  /** Only the zipped CSV files are unpacked. */
  lemma ShouldUnzipOnlyCsvZip(t: DownloadType)
    ensures ShouldUnzip(t) <==> t == CsvZip
  {
    var n := t.FileName();
    if t != CsvZip {
      assert n[|n| - 1] != 'p';
    }
  }

  const BaseUrl := "https://www.imls.gov"

  /** The address a route is fetched from. */
  function Url(route: string): (url: string)
    ensures StartsWith(url, BaseUrl + "/") && url[|BaseUrl| + 1..] == route
  {
    BaseUrl + "/" + route
  }

  /** The path of the year's data directory. */
  function DataPrefix(config: Config): string
  {
    config.dataDir + "/" + DecimalString(config.year)
  }

  // ----- the data directory -----

  type Bytes = seq<bv8>

  /** An entry of a directory: a file, or a sub-directory with its own listing. */
  datatype Node = File(content: Bytes) | Folder(entries: Dict<Node>)

  /** A directory listing, in the order `iterdir` yields it. */
  type Dir = Dict<Node>

  /** No directory lists the same name twice, at any depth. */
  predicate DirWellFormed(d: Dir)
    decreases d
  {
    UniqueKeys(d) && forall i :: 0 <= i < |d| ==> NodeWellFormed(d[i].val)
  }

  predicate NodeWellFormed(n: Node)
    decreases n
  {
    n.Folder? ==> DirWellFormed(n.entries)
  }

  /** The directory after a run of file operations, and whether all of them
      succeeded; the first failing one raises and stops the run. */
  datatype Step = Step(dir: Dir, ok: bool)

  /** Whether `name` is not a sub-directory of `d`. */
  predicate NotFolderIn(d: Dir, name: string)
  {
    match Get<Node>(d, name)
    case Some(Folder(_)) => false
    case _ => true
  }

  /** `open(path, "wb").write(content)`: fails on a directory. */
  function WriteFile(d: Dir, name: string, content: Bytes): (s: Step)
    ensures s.ok <==> NotFolderIn(d, name)
    ensures s.ok ==> s.dir == Put(d, name, File(content))
    ensures !s.ok ==> s.dir == d
  {
    if NotFolderIn(d, name) then Step(Put(d, name, File(content)), true) else Step(d, false)
  }

  /** `ZipFile.extractall`: merges the archive's tree into the directory. A file
      cannot replace a directory, nor a directory a file. */
  function Extract(d: Dir, archive: Dir): Step
    decreases archive
  {
    if archive == [] then Step(d, true)
    else
      var s := ExtractEntry(d, archive[0]);
      if !s.ok then s else Extract(s.dir, archive[1..])
  }

  function ExtractEntry(d: Dir, e: Pair<Node>): Step
    decreases e
  {
    match e.val
    case File(_) =>
      if NotFolderIn(d, e.key) then Step(Put(d, e.key, e.val), true) else Step(d, false)
    case Folder(es) =>
      match Get<Node>(d, e.key)
      case Some(File(_)) => Step(d, false)
      case Some(Folder(present)) =>
        var s := Extract(present, es);
        Step(Put(d, e.key, Folder(s.dir)), s.ok)
      case None =>
        var s := Extract([], es);
        Step(Put(d, e.key, Folder(s.dir)), s.ok)
  }

  /** Unpacking an archive whose names are all new appends its listing. */
  lemma {:induction false} ExtractFresh(d: Dir, archive: Dir)
    requires DirWellFormed(archive)
    requires KeySet(d) !! KeySet(archive)
    ensures Extract(d, archive) == Step(d + archive, true)
    decreases archive
  {
    if archive != [] {
      var e, rest := archive[0], archive[1..];
      ExtractFirst(d, archive);
      ExtractEntryFresh(d, e);
      ExtractFresh(d + [e], rest);
      ExtractCons(d, archive, d + [e]);
      SnocRest(d, archive);
    }
  }

  /** One step of `extractall`: a first entry that unpacks cleanly is followed
      by the rest. */
  lemma ExtractCons(d: Dir, archive: Dir, next: Dir)
    requires archive != [] && ExtractEntry(d, archive[0]) == Step(next, true)
    ensures Extract(d, archive) == Extract(next, archive[1..])
  {
  }

  lemma ExtractFirst(d: Dir, archive: Dir)
    requires DirWellFormed(archive) && archive != []
    requires KeySet(d) !! KeySet(archive)
    ensures NodeWellFormed(archive[0].val) && archive[0].key !in KeySet(d)
    ensures DirWellFormed(archive[1..]) && KeySet(d + [archive[0]]) !! KeySet(archive[1..])
  {
    var e, rest := archive[0], archive[1..];
    assert archive == [e] + rest;
    KeySetCons(e, rest);
    KeySetSnoc(d, e);
    assert forall i :: 0 <= i < |rest| ==> rest[i] == archive[i + 1];
    assert e.key !in KeySet(rest);
  }

  lemma {:induction false} ExtractEntryFresh(d: Dir, e: Pair<Node>)
    requires NodeWellFormed(e.val) && e.key !in KeySet(d)
    ensures ExtractEntry(d, e) == Step(d + [e], true)
    decreases e
  {
    if e.val.Folder? {
      ExtractFresh([], e.val.entries);
      assert [] + e.val.entries == e.val.entries;
    }
  }

  // ----- `_move_content` -----

  /** The name an unpacked file is given: the lower-cased name is searched for
      `_ae_`, then `_outlet_`, then `_state_`; the first marker found decides the
      canonical name, and a name with none of them is kept. */
  function ArchiveName(name: string): string
  {
    var lower := Lower(name);
    if Contains(lower, "_ae_") then SystemData.FileName()
    else if Contains(lower, "_outlet_") then OutletData.FileName()
    else if Contains(lower, "_state_") then StateSummaryAndCharacteristicData.FileName()
    else name
  }

  lemma NoUnderscoreNoMarker(s: string, part: string)
    requires '_' in part && '_' !in s
    ensures !Contains(s, part)
  {
    if s != [] {
      assert '_' !in s[1..];
      NoUnderscoreNoMarker(s[1..], part);
    }
  }

  /** The canonical names contain no marker, so classifying a name twice gives
      what classifying it once gives. */
  lemma ArchiveNameIdempotent(name: string)
    ensures ArchiveName(ArchiveName(name)) == ArchiveName(name)
  {
    var r := ArchiveName(name);
    if r != name {
      var lower := Lower(r);
      assert '_' !in r;
      assert '_' !in lower by {
        forall i | 0 <= i < |lower| ensures lower[i] != '_' {
          assert r[i] != '_';
        }
      }
      NoUnderscoreNoMarker(lower, "_ae_");
      NoUnderscoreNoMarker(lower, "_outlet_");
      NoUnderscoreNoMarker(lower, "_state_");
    }
  }

  // Unpacked names of each kind: the markers are found whatever their case,
  // `_ae_` wins over a later `_outlet_`, and a name without a marker is kept.

  lemma ArchiveNameSystemData()
    ensures ArchiveName("pls_AE_18.csv") == "SystemDataFile.csv"
    ensures ArchiveName("pls_ae_outlet_18.csv") == "SystemDataFile.csv"
  {
    var ae := Lower("pls_AE_18.csv");
    assert ae[3..7] == "_ae_";
    ContainsAt(ae, "_ae_", 3);
    var both := Lower("pls_ae_outlet_18.csv");
    assert both[3..7] == "_ae_";
    ContainsAt(both, "_ae_", 3);
  }

  lemma ArchiveNameOutletData()
    ensures ArchiveName("pls_Outlet_18.csv") == "OutletData.csv"
  {
    LowerOutletName();
    OutletNameMarkers("pls_outlet_18.csv");
  }

  lemma OutletNameMarkers(s: string)
    requires s == "pls_outlet_18.csv"
    ensures Contains(s, "_outlet_") && !Contains(s, "_ae_")
  {
    assert s[3..11] == "_outlet_";
    ContainsAt(s, "_outlet_", 3);
    NoPairNoMarker(s, "_ae_");
  }

  lemma LowerOutletName()
    ensures Lower("pls_Outlet_18.csv") == "pls_outlet_18.csv"
  {
  }

  lemma ArchiveNameStateSummary()
    ensures ArchiveName("pls_STATE_18.csv") == "StateSummaryAndCharacteristicData.csv"
  {
    LowerStateName();
    var state := "pls_state_18.csv";
    assert state[3..10] == "_state_";
    ContainsAt(state, "_state_", 3);
    StateNameMarkers(state);
  }

  lemma StateNameMarkers(s: string)
    requires s == "pls_state_18.csv"
    ensures !Contains(s, "_ae_") && !Contains(s, "_outlet_")
  {
    NoPairNoMarker(s, "_ae_");
    NoPairNoMarker(s, "_outlet_");
  }

  lemma LowerStateName()
    ensures Lower("pls_STATE_18.csv") == "pls_state_18.csv"
  {
  }

  lemma ArchiveNameKept()
    ensures ArchiveName("notes.txt") == "notes.txt"
  {
    var notes := Lower("notes.txt");
    assert '_' !in notes;
    NoUnderscoreNoMarker(notes, "_ae_");
    NoUnderscoreNoMarker(notes, "_outlet_");
    NoUnderscoreNoMarker(notes, "_state_");
  }

  /** `part` is not in `s` when its first two characters never follow each
      other in `s`. */
  lemma {:induction false} NoPairNoMarker(s: string, part: string)
    requires |part| >= 2
    requires forall i :: 0 <= i < |s| - 1 ==> s[i] != part[0] || s[i + 1] != part[1]
    ensures !Contains(s, part)
    decreases |s|
  {
    if s != [] {
      if |part| <= |s| {
        assert s[..|part|][0] == s[0] && s[..|part|][1] == s[1];
      }
      assert forall i :: 0 <= i < |s| - 1 ==> s[1..][i] == s[i + 1];
      NoPairNoMarker(s[1..], part);
    }
  }

  /** `os.rename(source, prefix / name)` for an entry `node`: replaces a file by
      a file and an empty directory by a directory, and fails otherwise when the
      target exists. */
  function RenameTo(d: Dir, name: string, node: Node): Step
  {
    match Get<Node>(d, name)
    case None => Step(Put(d, name, node), true)
    case Some(File(_)) => if node.File? then Step(Put(d, name, node), true) else Step(d, false)
    case Some(Folder(es)) => if node.Folder? && es == [] then Step(Put(d, name, node), true) else Step(d, false)
  }

  /** One pass of the inner loop: renames the member `x` of the sub-directory
      `n` into the data directory under its canonical name. Renaming a member
      onto its own directory fails. */
  function MoveMember(d: Dir, n: string, x: string): Step
  {
    match Get<Node>(d, n)
    case Some(Folder(es)) =>
      (match Get<Node>(es, x)
       case None => Step(d, false)
       case Some(node) =>
         if ArchiveName(x) == n then Step(d, false)
         else
           var s := RenameTo(Put(d, n, Folder(Remove(es, x))), ArchiveName(x), node);
           if s.ok then s else Step(d, false))
    case _ => Step(d, false)
  }

  /** The inner loop over the listing `xs` taken of the sub-directory `n`. */
  function MoveMembers(d: Dir, n: string, xs: seq<string>): Step
    decreases |xs|
  {
    if xs == [] then Step(d, true)
    else
      var s := MoveMember(d, n, xs[0]);
      if !s.ok then s else MoveMembers(s.dir, n, xs[1..])
  }

  /** `os.rmdir`: removes an empty directory. */
  function RemoveDir(d: Dir, n: string): Step
  {
    if Get(d, n) == Some(Folder([])) then Step(Remove(d, n), true) else Step(d, false)
  }

  /** The outer loop over the listing `names` taken of the data directory: each
      entry that is then a directory has its members moved out and is removed. */
  function MoveAll(d: Dir, names: seq<string>): Step
    decreases |names|
  {
    if names == [] then Step(d, true)
    else
      match Get<Node>(d, names[0])
      case Some(Folder(es)) =>
        var s := MoveMembers(d, names[0], Keys(es));
        if !s.ok then s
        else
          var r := RemoveDir(s.dir, names[0]);
          if !r.ok then r else MoveAll(r.dir, names[1..])
      case _ => MoveAll(d, names[1..])
  }

  /** `_move_content()`. */
  function MoveContentStep(d: Dir): Step
  {
    MoveAll(d, Keys(d))
  }

  // What `_move_content` does to a directory whose sub-directories hold only
  // files, none of which is renamed onto a sub-directory.

  function FolderNames(d: Dir): set<string>
  {
    set i | 0 <= i < |d| && d[i].val.Folder? :: d[i].key
  }

  /** The renames the inner loop performs on a sub-directory's listing. */
  function MemberMoves(es: Dir): (ms: seq<(string, Node)>)
    ensures |ms| == |es|
    ensures forall j :: 0 <= j < |es| ==> ms[j] == (ArchiveName(es[j].key), es[j].val)
  {
    seq(|es|, j requires 0 <= j < |es| => (ArchiveName(es[j].key), es[j].val))
  }

  /** All the renames `_move_content` performs, directory by directory. */
  function Moves(d: Dir): seq<(string, Node)>
  {
    if d == [] then []
    else Moves(d[..|d| - 1]) + (if d[|d| - 1].val.Folder? then MemberMoves(d[|d| - 1].val.entries) else [])
  }

  predicate MovableFolder(es: Dir, folders: set<string>)
  {
    UniqueKeys(es) && forall j :: 0 <= j < |es| ==> es[j].val.File? && ArchiveName(es[j].key) !in folders
  }

  predicate Movable(d: Dir)
  {
    UniqueKeys(d) &&
    forall i :: 0 <= i < |d| && d[i].val.Folder? ==> MovableFolder(d[i].val.entries, FolderNames(d))
  }

  lemma AsMapGet<V>(d: Dict<V>, k: string)
    ensures k in AsMap(d) <==> Get(d, k).Some?
    ensures k in AsMap(d) ==> AsMap(d)[k] == Get(d, k).value
  {
  }

  lemma RemoveAbsent<V>(d: Dict<V>, k: string)
    requires k !in KeySet(d)
    ensures Remove(d, k) == d
  {
    if d != [] {
      KeySetCons(d[0], d[1..]);
      assert d == [d[0]] + d[1..];
      RemoveAbsent(d[1..], k);
    }
  }

  lemma RemoveFirst<V>(d: Dict<V>)
    requires UniqueKeys(d) && d != []
    ensures Remove(d, d[0].key) == d[1..]
  {
    assert d[0].key !in KeySet(d[1..]);
    RemoveAbsent(d[1..], d[0].key);
  }

  /** One pass of the inner loop on a file whose canonical name is free or a
      file: the file leaves the sub-directory and takes that name. */
  lemma MoveMemberFile(d: Dir, n: string, es: Dir)
    requires Get(d, n) == Some(Folder(es)) && UniqueKeys(es) && es != []
    requires es[0].val.File? && ArchiveName(es[0].key) != n && NotFolderIn(d, ArchiveName(es[0].key))
    ensures MoveMember(d, n, es[0].key) ==
      Step(Put(Put(d, n, Folder(es[1..])), ArchiveName(es[0].key), es[0].val), true)
  {
    assert Get(es, es[0].key) == Some(es[0].val);
    RemoveFirst(es);
    var d0 := Put(d, n, Folder(es[1..]));
    assert Get(d0, ArchiveName(es[0].key)) == Get(d, ArchiveName(es[0].key));
  }

  lemma MapStep<V>(m: map<string, V>, n: string, f: V, t: string, v: V, a: map<string, V>, g: V)
    requires t != n
    ensures (m[n := f][t := v] + a)[n := g] == (m + (map[t := v] + a))[n := g]
  {
  }

  /** The inner loop over a sub-directory of files none of which is renamed onto
      a directory empties it, and assigns each file to its canonical name. */
  lemma {:induction false} MoveMembersFiles(d: Dir, n: string, es: Dir)
    requires UniqueKeys(d) && Get(d, n) == Some(Folder(es)) && UniqueKeys(es)
    requires forall j :: 0 <= j < |es| ==>
      es[j].val.File? && ArchiveName(es[j].key) != n && NotFolderIn(d, ArchiveName(es[j].key))
    ensures var s := MoveMembers(d, n, Keys(es));
      s.ok && UniqueKeys(s.dir) && Get(s.dir, n) == Some(Folder([])) &&
      AsMap(s.dir) == (AsMap(d) + Assign(MemberMoves(es)))[n := Folder([])]
    decreases |es|
  {
    if es == [] {
      AsMapGet(d, n);
      assert AsMap(d)[n := Folder([])] == AsMap(d);
      assert Assign(MemberMoves(es)) == map[];
      assert AsMap(d) + map[] == AsMap(d);
    } else {
      var t := ArchiveName(es[0].key);
      var d1 := Put(Put(d, n, Folder(es[1..])), t, es[0].val);
      MoveMembersStep(d, n, es);
      MoveMembersRest(d, n, es);
      MoveMembersFiles(d1, n, es[1..]);
      MoveMembersAlgebra(d, n, es, MoveMembers(d1, n, Keys(es[1..])).dir);
    }
  }

  lemma MoveMembersStep(d: Dir, n: string, es: Dir)
    requires Get(d, n) == Some(Folder(es)) && UniqueKeys(es) && es != []
    requires es[0].val.File? && ArchiveName(es[0].key) != n && NotFolderIn(d, ArchiveName(es[0].key))
    ensures MoveMembers(d, n, Keys(es)) ==
      MoveMembers(Put(Put(d, n, Folder(es[1..])), ArchiveName(es[0].key), es[0].val), n, Keys(es[1..]))
  {
    MoveMemberFile(d, n, es);
    KeysTail(es);
    MoveMembersCons(d, n, Keys(es), Put(Put(d, n, Folder(es[1..])), ArchiveName(es[0].key), es[0].val));
  }

  /** One pass of the inner loop that succeeds is followed by the rest. */
  lemma MoveMembersCons(d: Dir, n: string, xs: seq<string>, next: Dir)
    requires xs != [] && MoveMember(d, n, xs[0]) == Step(next, true)
    ensures MoveMembers(d, n, xs) == MoveMembers(next, n, xs[1..])
  {
  }

  lemma MoveMembersAlgebra(d: Dir, n: string, es: Dir, r: Dir)
    requires es != [] && ArchiveName(es[0].key) != n
    requires AsMap(r) == (AsMap(Put(Put(d, n, Folder(es[1..])), ArchiveName(es[0].key), es[0].val))
                          + Assign(MemberMoves(es[1..])))[n := Folder([])]
    ensures AsMap(r) == (AsMap(d) + Assign(MemberMoves(es)))[n := Folder([])]
  {
    var e, rest, t := es[0], es[1..], ArchiveName(es[0].key);
    var d0 := Put(d, n, Folder(rest));
    AsMapPut(d, n, Folder(rest));
    AsMapPut(d0, t, e.val);
    MemberMovesCons(es);
    MapStep(AsMap(d), n, Folder(rest), t, e.val, Assign(MemberMoves(rest)), Folder([]));
  }

  lemma MemberMovesCons(es: Dir)
    requires es != []
    ensures Assign(MemberMoves(es)) == map[ArchiveName(es[0].key) := es[0].val] + Assign(MemberMoves(es[1..]))
  {
    var x := (ArchiveName(es[0].key), es[0].val);
    assert MemberMoves(es) == [x] + MemberMoves(es[1..]);
    AssignAppend([x], MemberMoves(es[1..]));
    assert Assign([x]) == map[x.0 := x.1] by {
      assert [x][..0] == [];
    }
  }

  /** After one pass the rest of the sub-directory still meets the conditions. */
  lemma MoveMembersRest(d: Dir, n: string, es: Dir)
    requires UniqueKeys(d) && Get(d, n) == Some(Folder(es)) && UniqueKeys(es) && es != []
    requires forall j :: 0 <= j < |es| ==>
      es[j].val.File? && ArchiveName(es[j].key) != n && NotFolderIn(d, ArchiveName(es[j].key))
    ensures var d1 := Put(Put(d, n, Folder(es[1..])), ArchiveName(es[0].key), es[0].val);
      UniqueKeys(d1) && Get(d1, n) == Some(Folder(es[1..])) && UniqueKeys(es[1..]) &&
      forall j :: 0 <= j < |es[1..]| ==>
        es[1..][j].val.File? && ArchiveName(es[1..][j].key) != n && NotFolderIn(d1, ArchiveName(es[1..][j].key))
  {
    var rest := es[1..];
    var t := ArchiveName(es[0].key);
    var d0 := Put(d, n, Folder(rest));
    var d1 := Put(d0, t, es[0].val);
    forall j | 0 <= j < |rest|
      ensures rest[j].val.File? && ArchiveName(rest[j].key) != n && NotFolderIn(d1, ArchiveName(rest[j].key))
    {
      assert rest[j] == es[j + 1];
      var u := ArchiveName(rest[j].key);
      if u != t {
        assert Get(d1, u) == Get(d0, u) == Get(d, u);
      }
    }
  }

  function FolderNamesUpTo(d: Dir, j: nat): set<string>
    requires j <= |d|
  {
    set i | 0 <= i < j && d[i].val.Folder? :: d[i].key
  }

  /** The state of the directory once the outer loop has handled the first `j`
      names of the listing `d0`. */
  predicate MoveInv(d0: Dir, j: nat, d: Dir)
  {
    j <= |d0| && UniqueKeys(d) &&
    AsMap(d) == (AsMap(d0) - FolderNamesUpTo(d0, j)) + Assign(Moves(d0[..j]))
  }

  /** Mid-loop, a name that is no sub-directory of `d0` is no sub-directory, and
      a sub-directory not yet handled is untouched. */
  lemma MoveInvLookup(d0: Dir, j: nat, d: Dir, k: string)
    requires Movable(d0) && MoveInv(d0, j, d)
    ensures k !in FolderNames(d0) ==> NotFolderIn(d, k)
    ensures forall i :: j <= i < |d0| && d0[i].key == k && d0[i].val.Folder? ==> Get(d, k) == Some(d0[i].val)
  {
    var prev := Moves(d0[..j]);
    MovesFacts(d0, j);
    AsMapGet(d, k);
    AsMapGet(d0, k);
    if k in AsMap(d) && k !in Assign(prev) && k !in FolderNames(d0) {
      var i0 :| 0 <= i0 < |d0| && d0[i0].key == k;
      GetUnique(d0, i0);
    }
    forall i | j <= i < |d0| && d0[i].key == k && d0[i].val.Folder?
      ensures Get(d, k) == Some(d0[i].val)
    {
      GetUnique(d0, i);
      assert k in FolderNames(d0);
      assert k !in FolderNamesUpTo(d0, j);
    }
  }

  /** The outer loop's pass over a sub-directory keeps the invariant. */
  lemma MoveAllFolderStep(d0: Dir, j: nat, d: Dir)
    requires Movable(d0) && MoveInv(d0, j, d) && j < |d0| && d0[j].val.Folder?
    ensures var m, es := d0[j].key, d0[j].val.entries;
      var s := MoveMembers(d, m, Keys(es));
      s.ok && RemoveDir(s.dir, m).ok && MoveInv(d0, j + 1, RemoveDir(s.dir, m).dir) &&
      MoveAll(d, Keys(d0)[j..]) == MoveAll(RemoveDir(s.dir, m).dir, Keys(d0)[j + 1..])
  {
    var m, es := d0[j].key, d0[j].val.entries;
    MoveInvLookup(d0, j, d, m);
    assert MovableFolder(es, FolderNames(d0));
    assert m in FolderNames(d0);
    forall i | 0 <= i < |es|
      ensures es[i].val.File? && ArchiveName(es[i].key) != m && NotFolderIn(d, ArchiveName(es[i].key))
    {
      MoveInvLookup(d0, j, d, ArchiveName(es[i].key));
    }
    MoveMembersFiles(d, m, es);
    var s := MoveMembers(d, m, Keys(es));
    var r := RemoveDir(s.dir, m);
    assert Keys(d0)[j..][0] == m && Keys(d0)[j..][1..] == Keys(d0)[j + 1..];
    assert MoveAll(d, Keys(d0)[j..]) == MoveAll(r.dir, Keys(d0)[j + 1..]);
    AsMapRemove(s.dir, m);
    MoveAllFolderAlgebra(d0, j, d, r.dir);
  }

  lemma MoveAllFolderAlgebra(d0: Dir, j: nat, d: Dir, r: Dir)
    requires Movable(d0) && MoveInv(d0, j, d) && j < |d0| && d0[j].val.Folder?
    requires UniqueKeys(r)
    requires AsMap(r) == (AsMap(d) + Assign(MemberMoves(d0[j].val.entries)))[d0[j].key := Folder([])] - {d0[j].key}
    ensures MoveInv(d0, j + 1, r)
  {
    var m, es := d0[j].key, d0[j].val.entries;
    var prev, mm := Moves(d0[..j]), MemberMoves(es);
    assert MovableFolder(es, FolderNames(d0));
    assert m in FolderNames(d0);
    assert forall i :: 0 <= i < |mm| ==> mm[i].0 != m;
    MovesFacts(d0, j);
    assert m !in Assign(prev);
    UpToNext(d0, j);
    AssignAppend(prev, mm);
    MapRemoveStep(AsMap(d0), FolderNamesUpTo(d0, j), Assign(prev), Assign(mm), m, Folder([]));
  }

  lemma MapRemoveStep<V>(m0: map<string, V>, done: set<string>, a: map<string, V>, b: map<string, V>, k: string, f: V)
    requires k !in a && k !in b
    ensures (((m0 - done) + a) + b)[k := f] - {k} == (m0 - (done + {k})) + (a + b)
  {
  }

  /** What handling the `j`-th name adds to the names handled and to the
      renames performed. */
  lemma UpToNext(d0: Dir, j: nat)
    requires j < |d0|
    ensures FolderNamesUpTo(d0, j + 1) ==
      FolderNamesUpTo(d0, j) + (if d0[j].val.Folder? then {d0[j].key} else {})
    ensures Moves(d0[..j + 1]) ==
      Moves(d0[..j]) + (if d0[j].val.Folder? then MemberMoves(d0[j].val.entries) else [])
  {
    assert d0[..j + 1][..j] == d0[..j];
  }

  lemma MoveAllSkip(d: Dir, names: seq<string>)
    requires names != [] && NotFolderIn(d, names[0])
    ensures MoveAll(d, names) == MoveAll(d, names[1..])
  {
  }

  /** The outer loop skips a file and keeps the invariant. */
  lemma MoveAllFileStep(d0: Dir, j: nat, d: Dir)
    requires Movable(d0) && MoveInv(d0, j, d) && j < |d0| && d0[j].val.File?
    ensures MoveInv(d0, j + 1, d) && MoveAll(d, Keys(d0)[j..]) == MoveAll(d, Keys(d0)[j + 1..])
  {
    FileStepInv(d0, j, d);
    FileStepSkip(d0, j, d);
  }

  lemma FileStepInv(d0: Dir, j: nat, d: Dir)
    requires MoveInv(d0, j, d) && j < |d0| && d0[j].val.File?
    ensures MoveInv(d0, j + 1, d)
  {
    UpToNextFile(d0, j);
  }

  lemma UpToNextFile(d0: Dir, j: nat)
    requires j < |d0| && d0[j].val.File?
    ensures FolderNamesUpTo(d0, j + 1) == FolderNamesUpTo(d0, j)
    ensures Moves(d0[..j + 1]) == Moves(d0[..j])
  {
    UpToNext(d0, j);
    assert Moves(d0[..j]) + [] == Moves(d0[..j]);
  }

  lemma FileStepSkip(d0: Dir, j: nat, d: Dir)
    requires Movable(d0) && MoveInv(d0, j, d) && j < |d0| && d0[j].val.File?
    ensures MoveAll(d, Keys(d0)[j..]) == MoveAll(d, Keys(d0)[j + 1..])
  {
    var m := d0[j].key;
    FileNotFolder(d0, j);
    MoveInvLookup(d0, j, d, m);
    var names := Keys(d0)[j..];
    assert names[0] == m && names[1..] == Keys(d0)[j + 1..];
    MoveAllSkip(d, names);
  }

  /** With unique keys, a file's name is no sub-directory's. */
  lemma FileNotFolder(d0: Dir, j: nat)
    requires UniqueKeys(d0) && j < |d0| && d0[j].val.File?
    ensures d0[j].key !in FolderNames(d0)
  {
    forall i | 0 <= i < |d0| && d0[i].val.Folder? ensures d0[i].key != d0[j].key {
      assert i != j;
    }
  }

  /** The outer loop, from the `j`-th name of the listing on. */
  lemma {:induction false} MoveAllFrom(d0: Dir, j: nat, d: Dir)
    requires Movable(d0) && MoveInv(d0, j, d)
    ensures var s := MoveAll(d, Keys(d0)[j..]);
      s.ok && AsMap(s.dir) == (AsMap(d0) - FolderNames(d0)) + Assign(Moves(d0))
    decreases |d0| - j
  {
    if j == |d0| {
      assert FolderNamesUpTo(d0, j) == FolderNames(d0);
      assert d0[..j] == d0;
    } else if d0[j].val.Folder? {
      MoveAllFolderStep(d0, j, d);
      var s := MoveMembers(d, d0[j].key, Keys(d0[j].val.entries));
      MoveAllFrom(d0, j + 1, RemoveDir(s.dir, d0[j].key).dir);
    } else {
      MoveAllFileStep(d0, j, d);
      MoveAllFrom(d0, j + 1, d);
    }
  }

  /** The renames of the first `j` entries only produce files, never named
      like a sub-directory. */
  lemma MovesFacts(d0: Dir, j: nat)
    requires Movable(d0) && j <= |d0|
    ensures forall k :: k in Assign(Moves(d0[..j])) ==>
      Assign(Moves(d0[..j]))[k].File? && k !in FolderNames(d0)
  {
    MovesPrefixFacts(d0, j);
    var ms := Moves(d0[..j]);
    forall k | k in Assign(ms) ensures Assign(ms)[k].File? && k !in FolderNames(d0) {
      var i :| 0 <= i < |ms| && ms[i].0 == k && forall i' :: i < i' < |ms| ==> ms[i'].0 != k by {
        LastIndexOf(ms, k);
      }
      AssignLastWins(ms, i);
    }
  }

  lemma LastIndexOf<K, V>(ps: seq<(K, V)>, k: K)
    requires k in Assign(ps)
    ensures exists i :: 0 <= i < |ps| && ps[i].0 == k && forall i' :: i < i' < |ps| ==> ps[i'].0 != k
  {
    var i :| 0 <= i < |ps| && ps[i].0 == k;
    while i < |ps| - 1 && exists i' :: i < i' < |ps| && ps[i'].0 == k
      invariant 0 <= i < |ps| && ps[i].0 == k
      decreases |ps| - i
    {
      var later :| i < later < |ps| && ps[later].0 == k;
      i := later;
    }
  }

  lemma {:induction false} MovesPrefixFacts(d0: Dir, j: nat)
    requires Movable(d0) && j <= |d0|
    ensures forall i :: 0 <= i < |Moves(d0[..j])| ==>
      Moves(d0[..j])[i].1.File? && Moves(d0[..j])[i].0 !in FolderNames(d0)
  {
    if j > 0 {
      MovesPrefixFacts(d0, j - 1);
      assert d0[..j][..j - 1] == d0[..j - 1];
      if d0[j - 1].val.Folder? {
        assert MovableFolder(d0[j - 1].val.entries, FolderNames(d0));
      }
    }
  }

  /** What `_move_content` does: every sub-directory is emptied into the data
      directory under the canonical names and removed, the files at the top are
      kept unless a moved file takes their name, and of several files given the
      same name the one moved last stays. */
  lemma MoveContentFiles(d: Dir)
    requires Movable(d)
    ensures var s := MoveContentStep(d);
      s.ok && AsMap(s.dir) == (AsMap(d) - FolderNames(d)) + Assign(Moves(d))
    ensures forall k :: k in AsMap(MoveContentStep(d).dir) ==> AsMap(MoveContentStep(d).dir)[k].File?
  {
    assert d[..0] == [];
    assert (AsMap(d) - FolderNamesUpTo(d, 0)) + Assign(Moves(d[..0])) == AsMap(d);
    assert MoveInv(d, 0, d);
    assert Keys(d)[0..] == Keys(d);
    MoveAllFrom(d, 0, d);
    MovesFacts(d, |d|);
    assert d[..|d|] == d;
    var r := AsMap(MoveContentStep(d).dir);
    forall k | k in r ensures r[k].File? {
      if k !in Assign(Moves(d)) {
        AsMapGet(d, k);
        var i :| 0 <= i < |d| && d[i].key == k;
        GetUnique(d, i);
      }
    }
  }

  // ----- `_write_content`, `_try_download_resource` and `download` -----

  /** `_write_content(download_type, content, should_unzip)`: writes the content
      under the type's file name; when unzipping, unpacks it into the data
      directory, moves the unpacked files and removes the archive file. */
  function WriteContentStep(d: Dir, t: DownloadType, content: Bytes, shouldUnzip: bool,
                            unzip: Bytes -> Option<Dir>): Step
  {
    var name := t.FileName();
    var w := WriteFile(d, name, content);
    if !w.ok || !shouldUnzip then w
    else
      match unzip(content)
      case None => Step(w.dir, false)
      case Some(archive) =>
        var x := Extract(w.dir, archive);
        if !x.ok then x
        else
          var m := MoveContentStep(x.dir);
          if !m.ok then m
          else
            match Get<Node>(m.dir, name)
            case Some(File(_)) => Step(Remove(m.dir, name), true)
            case _ => Step(m.dir, false)
  }

  /** Without unzipping, the content is simply stored under the type's name. */
  lemma WriteContentPlain(d: Dir, t: DownloadType, content: Bytes, unzip: Bytes -> Option<Dir>)
    requires NotFolderIn(d, t.FileName())
    ensures WriteContentStep(d, t, content, false, unzip) == Step(Put(d, t.FileName(), File(content)), true)
  {
  }

  /** Unpacking the zipped CSV files whose names are all new: the archive file
      is gone, and the data directory holds the files from before and the
      unpacked files under their canonical names, with no sub-directory left. */
  lemma WriteContentZip(d: Dir, content: Bytes, unzip: Bytes -> Option<Dir>)
    requires NotFolderIn(d, CsvZip.FileName())
    requires unzip(content).Some? && DirWellFormed(unzip(content).value)
    requires var d1 := Put(d, CsvZip.FileName(), File(content));
      KeySet(d1) !! KeySet(unzip(content).value) && Movable(d1 + unzip(content).value)
    ensures var d2 := Put(d, CsvZip.FileName(), File(content)) + unzip(content).value;
      var s := WriteContentStep(d, CsvZip, content, true, unzip);
      s.ok && CsvZip.FileName() !in KeySet(s.dir) &&
      AsMap(s.dir) == ((AsMap(d2) - FolderNames(d2)) + Assign(Moves(d2))) - {CsvZip.FileName()} &&
      forall k :: k in AsMap(s.dir) ==> AsMap(s.dir)[k].File?
  {
    var name := CsvZip.FileName();
    var archive := unzip(content).value;
    var d1 := Put(d, name, File(content));
    var d2 := d1 + archive;
    ExtractFresh(d1, archive);
    MoveContentFiles(d2);
    var m := MoveContentStep(d2);
    ArchiveFileKept(d1, archive, name, content);
    AsMapGet(m.dir, name);
    assert WriteContentStep(d, CsvZip, content, true, unzip) == Step(Remove(m.dir, name), true);
    AsMapRemove(m.dir, name);
  }

  /** The archive file is a file of the unpacked directory, not a sub-directory. */
  lemma ArchiveFileKept(d1: Dir, archive: Dir, name: string, content: Bytes)
    requires Get(d1, name) == Some(File(content)) && UniqueKeys(d1 + archive)
    ensures name in AsMap(d1 + archive) && name !in FolderNames(d1 + archive)
  {
    var d2 := d1 + archive;
    AsMapGet(d1, name);
    AppendKeepsIndex(d1, archive);
    AsMapGet(d2, name);
    var i := IndexOf(d1, name).value;
    assert d2[i] == d1[i];
    forall j | 0 <= j < |d2| && d2[j].key == name ensures !d2[j].val.Folder? {
      assert j == i;
    }
  }

  datatype Event = Info(message: string) | HttpGet(url: string)

  function NoDataMessage(year: int): string
  {
    "There is no data for " + DecimalString(year)
  }

  function MissingMessage(resource: string, year: int): string
  {
    "The resource `" + resource + "` does not exist for " + DecimalString(year)
  }

  /** The data directory, the log, and whether no exception stopped the run. */
  datatype Outcome = Outcome(data: Dir, log: seq<Event>, ok: bool)

  /** Whether the scraped routes lack the resource, or give it an empty route. */
  predicate Missing(routes: map<string, string>, resource: string)
  {
    resource !in routes || routes[resource] == ""
  }

  /** `_try_download_resource(scraped_dict, resource, download_type)`. */
  function TryResource(data: Dir, log: seq<Event>, year: int, routes: map<string, string>,
                       resource: string, t: DownloadType,
                       fetch: string -> Bytes, unzip: Bytes -> Option<Dir>): Outcome
  {
    if Missing(routes, resource) then Outcome(data, log + [Info(MissingMessage(resource, year))], true)
    else
      var url := Url(routes[resource]);
      var w := WriteContentStep(data, t, fetch(url), ShouldUnzip(t), unzip);
      Outcome(w.dir, log + [HttpGet(url)], w.ok)
  }

  /** A resource the scraper has no route for is logged; nothing is requested or
      written. */
  lemma TryResourceMissing(data: Dir, log: seq<Event>, year: int, routes: map<string, string>,
                           resource: string, t: DownloadType,
                           fetch: string -> Bytes, unzip: Bytes -> Option<Dir>)
    requires Missing(routes, resource)
    ensures TryResource(data, log, year, routes, resource, t, fetch, unzip)
         == Outcome(data, log + [Info("The resource `" + resource + "` does not exist for " + DecimalString(year))], true)
  {
  }

  /** A resource that is not an archive is requested once and stored under its
      type's file name. */
  lemma TryResourcePlain(data: Dir, log: seq<Event>, year: int, routes: map<string, string>,
                         resource: string, t: DownloadType,
                         fetch: string -> Bytes, unzip: Bytes -> Option<Dir>)
    requires !Missing(routes, resource) && t != CsvZip && NotFolderIn(data, t.FileName())
    ensures var url := "https://www.imls.gov/" + routes[resource];
      TryResource(data, log, year, routes, resource, t, fetch, unzip)
        == Outcome(Put(data, t.FileName(), File(fetch(url))), log + [HttpGet(url)], true)
  {
    ShouldUnzipOnlyCsvZip(t);
    assert Url(routes[resource]) == "https://www.imls.gov/" + routes[resource];
  }

  /** `download()`, given what `scrape_files()` returned: the three resources in
      order, stopping at the first that raises. */
  function DownloadRun(data: Dir, log: seq<Event>, year: int, scraped: map<string, map<string, string>>,
                       fetch: string -> Bytes, unzip: Bytes -> Option<Dir>): Outcome
  {
    var key := DecimalString(year);
    if key !in scraped || scraped[key] == map[] then Outcome(data, log + [Info(NoDataMessage(year))], true)
    else
      var routes := scraped[key];
      var o1 := TryResource(data, log, year, routes, "Documentation", Documentation, fetch, unzip);
      if !o1.ok then o1
      else
        var o2 := TryResource(o1.data, o1.log, year, routes, "CSV", CsvZip, fetch, unzip);
        if !o2.ok then o2
        else TryResource(o2.data, o2.log, year, routes, "Data Element Definitions", DataElementDefinitions, fetch, unzip)
  }

  /** What the log gains for one resource: a request, or the missing-resource
      message. */
  function ResourceEvent(year: int, routes: map<string, string>, resource: string): Event
  {
    if Missing(routes, resource) then Info(MissingMessage(resource, year)) else HttpGet(Url(routes[resource]))
  }

  /** Trying one resource adds its one event to the log; only a request can
      raise. */
  lemma TryResourceEvent(data: Dir, log: seq<Event>, year: int, routes: map<string, string>,
                         resource: string, t: DownloadType,
                         fetch: string -> Bytes, unzip: Bytes -> Option<Dir>)
    ensures var o := TryResource(data, log, year, routes, resource, t, fetch, unzip);
      o.log == log + [ResourceEvent(year, routes, resource)] && (!o.ok ==> ResourceEvent(year, routes, resource).HttpGet?)
  {
  }

  /** Without routes for the year, `download` only logs that there is no data. */
  lemma DownloadNoData(data: Dir, log: seq<Event>, year: int, scraped: map<string, map<string, string>>,
                       fetch: string -> Bytes, unzip: Bytes -> Option<Dir>)
    requires DecimalString(year) !in scraped || scraped[DecimalString(year)] == map[]
    ensures DownloadRun(data, log, year, scraped, fetch, unzip)
         == Outcome(data, log + [Info("There is no data for " + DecimalString(year))], true)
  {
  }

  /** With routes for the year, `download` tries exactly the three resources,
      in order: one request or one missing-resource message each. */
  lemma DownloadEvents(data: Dir, log: seq<Event>, year: int, scraped: map<string, map<string, string>>,
                       fetch: string -> Bytes, unzip: Bytes -> Option<Dir>)
    requires DecimalString(year) in scraped && scraped[DecimalString(year)] != map[]
    ensures var routes := scraped[DecimalString(year)];
      var o := DownloadRun(data, log, year, scraped, fetch, unzip);
      var all := log + [ResourceEvent(year, routes, "Documentation"),
                        ResourceEvent(year, routes, "CSV"),
                        ResourceEvent(year, routes, "Data Element Definitions")];
      (o.ok ==> o.log == all) &&
      (!o.ok ==> |log| < |o.log| <= |all| && o.log == all[..|o.log|] && o.log[|o.log| - 1].HttpGet?)
  {
    var routes := scraped[DecimalString(year)];
    var e1, e2, e3 := ResourceEvent(year, routes, "Documentation"), ResourceEvent(year, routes, "CSV"),
                      ResourceEvent(year, routes, "Data Element Definitions");
    var all := log + [e1, e2, e3];
    var o1 := TryResource(data, log, year, routes, "Documentation", Documentation, fetch, unzip);
    TryResourceEvent(data, log, year, routes, "Documentation", Documentation, fetch, unzip);
    assert all[..|log| + 1] == o1.log;
    if o1.ok {
      var o2 := TryResource(o1.data, o1.log, year, routes, "CSV", CsvZip, fetch, unzip);
      TryResourceEvent(o1.data, o1.log, year, routes, "CSV", CsvZip, fetch, unzip);
      assert all[..|log| + 2] == o2.log;
      if o2.ok {
        TryResourceEvent(o2.data, o2.log, year, routes, "Data Element Definitions", DataElementDefinitions, fetch, unzip);
        assert all[..|log| + 3] == all;
      }
    }
  }

  // ----- the service -----

  /** A `DownloadService`: the configuration, the HTTP client and the archive
      reader it is given, and the data directory and log it updates. */
  class DownloadService {
    const config: Config
    /** The content `requests.get(url)` returns. */
    const fetch: string -> Bytes
    /** The listing a zip archive unpacks to; `None` when the content is no archive. */
    const unzip: Bytes -> Option<Dir>
    var dataPrefix: string
    var data: Dir
    var log: seq<Event>

    /** `DownloadService(config, ...)`, which runs `_setup_data_dir`: the data
        prefix is `<data_dir>/<year>`, created if missing; `existing` is what it
        already holds. */
    constructor (config: Config, fetch: string -> Bytes, unzip: Bytes -> Option<Dir>, existing: Dir)
      ensures this.config == config && this.fetch == fetch && this.unzip == unzip
      ensures dataPrefix == DataPrefix(config) && data == existing && log == []
    {
      this.config := config;
      this.fetch := fetch;
      this.unzip := unzip;
      dataPrefix := config.dataDir + "/" + DecimalString(config.year);
      data := existing;
      log := [];
    }

    /** `download()`, given what `scrape_files()` returned; `ok` is false when an
        exception stopped it. */
    method Download(scraped: map<string, map<string, string>>) returns (ok: bool)
      modifies this
      ensures var o := DownloadRun(old(data), old(log), config.year, scraped, fetch, unzip);
        data == o.data && log == o.log && ok == o.ok
      ensures dataPrefix == old(dataPrefix)
    {
      var key := DecimalString(config.year);
      if key !in scraped || scraped[key] == map[] {
        log := log + [Info(NoDataMessage(config.year))];
        return true;
      }
      var routes := scraped[key];
      ok := TryDownloadResource(routes, "Documentation", Documentation);
      if !ok {
        return;
      }
      ok := TryDownloadResource(routes, "CSV", CsvZip);
      if !ok {
        return;
      }
      ok := TryDownloadResource(routes, "Data Element Definitions", DataElementDefinitions);
    }

    /** `_try_download_resource(scraped_dict, resource, download_type)`. */
    method TryDownloadResource(routes: map<string, string>, resource: string, t: DownloadType) returns (ok: bool)
      modifies this
      ensures var o := TryResource(old(data), old(log), config.year, routes, resource, t, fetch, unzip);
        data == o.data && log == o.log && ok == o.ok
      ensures dataPrefix == old(dataPrefix)
    {
      if resource !in routes || routes[resource] == "" {
        log := log + [Info(MissingMessage(resource, config.year))];
        return true;
      }
      var url := Url(routes[resource]);
      var content := fetch(url);
      log := log + [HttpGet(url)];
      ok := WriteContent(t, content, ShouldUnzip(t));
    }

    /** `_write_content(download_type, content, should_unzip)`. */
    method WriteContent(t: DownloadType, content: Bytes, shouldUnzip: bool) returns (ok: bool)
      modifies this
      ensures var s := WriteContentStep(old(data), t, content, shouldUnzip, unzip);
        data == s.dir && ok == s.ok
      ensures log == old(log) && dataPrefix == old(dataPrefix)
    {
      var name := t.FileName();
      var w := WriteFile(data, name, content);
      data := w.dir;
      if !w.ok || !shouldUnzip {
        return w.ok;
      }
      match unzip(content) {
        case None =>
          return false;
        case Some(archive) =>
          var x := Extract(data, archive);
          data := x.dir;
          if !x.ok {
            return false;
          }
          ok := MoveContent();
          if !ok {
            return;
          }
          match Get<Node>(data, name) {
            case Some(File(_)) =>
              data := Remove(data, name);
            case _ =>
              ok := false;
          }
      }
    }

    /** `_move_content()`: for each entry of the data directory that is a
        directory, renames each of its entries into the data directory under its
        canonical name, then removes it. */
    method MoveContent() returns (ok: bool)
      modifies this
      ensures var s := MoveContentStep(old(data));
        data == s.dir && ok == s.ok
      ensures log == old(log) && dataPrefix == old(dataPrefix)
    {
      var names := Keys(data);
      var i := 0;
      while i < |names|
        invariant 0 <= i <= |names|
        invariant log == old(log) && dataPrefix == old(dataPrefix)
        invariant MoveAll(old(data), names) == MoveAll(data, names[i..])
      {
        var directory := names[i];
        assert names[i..][0] == directory && names[i..][1..] == names[i + 1..];
        match Get<Node>(data, directory) {
          case Some(Folder(es)) =>
            ghost var before := data;
            var members := Keys(es);
            var j := 0;
            while j < |members|
              invariant 0 <= j <= |members|
              invariant log == old(log) && dataPrefix == old(dataPrefix)
              invariant MoveMembers(before, directory, members) == MoveMembers(data, directory, members[j..])
            {
              assert members[j..][0] == members[j] && members[j..][1..] == members[j + 1..];
              var s := MoveMember(data, directory, members[j]);
              data := s.dir;
              if !s.ok {
                return false;
              }
              j := j + 1;
            }
            var r := RemoveDir(data, directory);
            data := r.dir;
            if !r.ok {
              return false;
            }
          case _ =>
        }
        i := i + 1;
      }
      return true;
    }
  }
}
