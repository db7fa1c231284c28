/** The on-disk cache of tables: files under `<cache_dir>/<year>`, or under
    `<cache_dir>` itself for resources shared by all years. */
module Cache {
  import opened Collections
  import opened Strings
  import opened Configuration

  // ----- paths, as `pathlib` parses and joins them -----

  /** A parsed path: whether it starts at the root, and its components. */
  datatype Path = Path(absolute: bool, parts: seq<string>)

  function FirstSlash(s: string): (r: Option<nat>)
    ensures r.Some? ==> r.value < |s| && s[r.value] == '/' && forall j :: 0 <= j < r.value ==> s[j] != '/'
    ensures r.None? ==> forall j :: 0 <= j < |s| ==> s[j] != '/'
  {
    if s == [] then None
    else if s[0] == '/' then Some(0)
    else
      assert forall j :: 1 <= j < |s| ==> s[j] == s[1..][j - 1];
      match FirstSlash(s[1..])
      case None => None
      case Some(i) => Some(i + 1)
  }

  /** `s.split("/")`. */
  function Segments(s: string): (r: seq<string>)
    ensures |r| >= 1
    decreases |s|
  {
    match FirstSlash(s)
    case None => [s]
    case Some(i) => [s[..i]] + Segments(s[i + 1..])
  }

  /** The segments that name something: empty ones (from `//` or a trailing
      `/`) and `.` are dropped. */
  function Named(segments: seq<string>): (r: seq<string>)
    ensures forall i :: 0 <= i < |r| ==> r[i] != "" && r[i] != "." && r[i] in segments
  {
    if segments == [] then []
    else (if segments[0] == "" || segments[0] == "." then [] else [segments[0]]) + Named(segments[1..])
  }

  /** `Path(s)`. */
  function Parse(s: string): Path
  {
    Path(StartsWith(s, "/"), Named(Segments(s)))
  }

  /** `a / b`: an absolute `b` replaces `a`. */
  function Join(a: Path, b: Path): Path
  {
    if b.absolute then b else Path(a.absolute, a.parts + b.parts)
  }

  /** `p.name`: the last component, or `""` when there is none. */
  function Name(p: Path): string
  {
    if p.parts == [] then "" else p.parts[|p.parts| - 1]
  }

  /** `p.parent`: the root and the current directory are their own parents. */
  function Parent(p: Path): Path
  {
    if p.parts == [] then p else Path(p.absolute, p.parts[..|p.parts| - 1])
  }

  /** The relative path that is a bare file name. */
  function Bare(name: string): Path
  {
    Path(false, [name])
  }

  lemma FirstSlashIs(s: string, i: nat)
    requires i < |s| && s[i] == '/' && forall j :: 0 <= j < i ==> s[j] != '/'
    ensures FirstSlash(s) == Some(i)
  {
  }

  /** Splitting at a separator splits each side on its own. */
  lemma {:induction false} SegmentsJoin(a: string, b: string)
    ensures Segments(a + "/" + b) == Segments(a) + Segments(b)
    decreases |a|
  {
    var s := a + "/" + b;
    match FirstSlash(a)
    case None =>
      FirstSlashIs(s, |a|);
      assert s[..|a|] == a && s[|a| + 1..] == b;
    case Some(i) =>
      FirstSlashIs(s, i);
      assert s[..i] == a[..i];
      assert s[i + 1..] == a[i + 1..] + "/" + b;
      SegmentsJoin(a[i + 1..], b);
  }

  lemma {:induction false} NamedAppend(x: seq<string>, y: seq<string>)
    ensures Named(x + y) == Named(x) + Named(y)
  {
    if x != [] {
      assert (x + y)[1..] == x[1..] + y;
      NamedAppend(x[1..], y);
    } else {
      assert x + y == y;
    }
  }

  /** `Path(f"{a}/{b}") == Path(a) / Path(b)` for a non-empty `a` and a
      relative `b`. */
  lemma ParseJoin(a: string, b: string)
    requires a != [] && !StartsWith(b, "/")
    ensures Parse(a + "/" + b) == Join(Parse(a), Parse(b))
  {
    SegmentsJoin(a, b);
    NamedAppend(Segments(a), Segments(b));
    assert (a + "/" + b)[..1] == a[..1];
  }

  /** A name without separators is a one-component relative path. */
  lemma ParseName(s: string)
    requires s != "" && s != "." && forall j :: 0 <= j < |s| ==> s[j] != '/'
    ensures Parse(s) == Bare(s)
  {
    assert Segments(s) == [s];
    assert Named([s]) == [s] + Named([]);
  }

  /** A path is its parent joined with its name. */
  lemma ParentJoinName(p: Path)
    requires p.parts != []
    ensures Join(Parent(p), Bare(Name(p))) == p
  {
  }

  lemma DecimalStringIsName(n: int)
    ensures DecimalString(n) != "" && DecimalString(n) != "."
    ensures forall j :: 0 <= j < |DecimalString(n)| ==> DecimalString(n)[j] != '/'
  {
    var d := NatString(if n < 0 then -n else n);
    assert forall j :: 0 <= j < |d| ==> IsDigit(d[j]);
    if n < 0 {
      assert forall j :: 1 <= j < |DecimalString(n)| ==> DecimalString(n)[j] == d[j - 1];
    } else {
      assert DecimalString(n)[0] == d[0];
    }
  }

  // ----- the cache directory -----

  /** `Path(f"{config.cache_dir}/{config.year}")`. */
  function CachePath(config: Config): Path
  {
    Parse(config.cacheDir + "/" + DecimalString(config.year))
  }

  /** The cache directory is the year's directory inside `cache_dir`, so its
      parent, the root cache, is `cache_dir` itself. */
  lemma CachePathShape(config: Config)
    requires config.cacheDir != ""
    ensures CachePath(config) == Join(Parse(config.cacheDir), Bare(DecimalString(config.year)))
    ensures Name(CachePath(config)) == DecimalString(config.year)
    ensures Parent(CachePath(config)) == Parse(config.cacheDir)
  {
    var y := DecimalString(config.year);
    DecimalStringIsName(config.year);
    assert !StartsWith(y, "/") by {
      assert y[..1][0] == y[0];
    }
    ParseJoin(config.cacheDir, y);
    ParseName(y);
  }

  /** The directories `mkdir(parents=True)` makes for `p`: each non-empty
      prefix of its components. */
  function Prefixes(p: Path): set<Path>
  {
    set i | 1 <= i <= |p.parts| :: Path(p.absolute, p.parts[..i])
  }

  /** `p.exists()`: the root and the current directory always exist. */
  predicate Exists(files: map<Path, string>, dirs: set<Path>, p: Path)
  {
    p.parts == [] || p in files || p in dirs
  }

  // ----- `get` and `put` on the file system, as written -----

  /** Where `get` and `put` look for `resource_path`: under the cache
      directory, or under its parent when the root-cache flag is set. */
  function Resolve(cachePath: Path, resourcePath: string, root: bool): Path
  {
    Join(if root then Parent(cachePath) else cachePath, Parse(resourcePath))
  }

  /** What `get` reads: nothing when the full path does not exist; otherwise
      the CSV file named by the full path's last component in the current
      directory, which raises when that file is missing. */
  function Stored(files: map<Path, string>, dirs: set<Path>, full: Path): (r: Result<Option<string>>)
    ensures r == Ok(None) <==> !Exists(files, dirs, full)
    ensures r.Ok? && r.value.Some? ==> Bare(Name(full)) in files && r.value.value == files[Bare(Name(full))]
  {
    if !Exists(files, dirs, full) then Ok(None)
    else if Bare(Name(full)) in files then Ok(Some(files[Bare(Name(full))]))
    else Err("No such file or directory: " + Name(full))
  }

  /** What `put` leaves: the CSV written to the full path's last component in
      the current directory; `None` when pandas cannot write there. */
  function Written(files: map<Path, string>, dirs: set<Path>, full: Path, csv: string): (r: Option<map<Path, string>>)
    ensures r.Some? <==> Name(full) != "" && Bare(Name(full)) !in dirs
    ensures r.Some? ==> r.value.Keys == files.Keys + {Bare(Name(full))}
    ensures r.Some? ==> r.value[Bare(Name(full))] == csv
    ensures r.Some? ==> forall p :: p in files && p != Bare(Name(full)) ==> r.value[p] == files[p]
  {
    if Name(full) == "" || Bare(Name(full)) in dirs then None
    else Some(files[Bare(Name(full)) := csv])
  }

  /** Writing and then reading the same resource misses whenever the full
      path is not already a bare name: `put` writes where `get`'s existence
      check never looks. */
  lemma PutThenGetMisses(files: map<Path, string>, dirs: set<Path>, full: Path, csv: string)
    requires !Exists(files, dirs, full) && full != Bare(Name(full))
    requires Written(files, dirs, full, csv).Some?
    ensures Stored(Written(files, dirs, full, csv).value, dirs, full) == Ok(None)
  {
  }

  lemma YearString2020()
    ensures DecimalString(2020) == "2020"
  {
    assert NatString(2020) == NatString(202) + ['0'];
    assert NatString(202) == NatString(20) + ['2'];
    assert NatString(20) == NatString(2) + ['0'];
  }

  lemma CachePath2020(config: Config)
    requires config.cacheDir == "cache" && config.year == 2020
    ensures CachePath(config) == Path(false, ["cache", "2020"])
  {
    CachePathShape(config);
    YearString2020();
    ExampleName(config.cacheDir);
  }

  /** The names the examples use are bare file names. */
  lemma ExampleName(s: string)
    requires s == "cache" || s == "urls.csv"
    ensures Parse(s) == Bare(s)
  {
    assert forall j :: 0 <= j < |s| ==> s[j] != '/';
    ParseName(s);
  }

  /** The cache of the 2020 survey in `cache`: `put("urls.csv", t)` stores
      `./urls.csv`, and a following `get("urls.csv")` finds no
      `cache/2020/urls.csv` and returns an empty table. */
  lemma PutThenGetMissesExample(config: Config, csv: string)
    requires config.cacheDir == "cache" && config.year == 2020
    ensures Resolve(CachePath(config), "urls.csv", false) == Path(false, ["cache", "2020", "urls.csv"])
    ensures Written(map[], {}, Resolve(CachePath(config), "urls.csv", false), csv) == Some(map[Bare("urls.csv") := csv])
    ensures Stored(map[Bare("urls.csv") := csv], {}, Resolve(CachePath(config), "urls.csv", false)) == Ok(None)
  {
    CachePath2020(config);
    ExampleName("urls.csv");
    var full := Path(false, ["cache", "2020", "urls.csv"]);
    assert Resolve(CachePath(config), "urls.csv", false) == full;
    assert full.parts[0] == "cache" != "urls.csv";
    assert Name(full) == "urls.csv";
    PutThenGetMisses(map[], {}, full, csv);
  }

  // ----- `get` and `put` as evidently intended -----

  /** `get` reading `full_path` itself. */
  function StoredAtPath(files: map<Path, string>, dirs: set<Path>, full: Path): (r: Result<Option<string>>)
    ensures r == Ok(None) <==> !Exists(files, dirs, full)
  {
    if !Exists(files, dirs, full) then Ok(None)
    else if full in files then Ok(Some(files[full]))
    else Err("Is a directory: " + Name(full))
  }

  /** `put` writing `full_path` itself. */
  function WrittenAtPath(files: map<Path, string>, dirs: set<Path>, full: Path, csv: string): (r: Option<map<Path, string>>)
    ensures r.Some? <==> full.parts != [] && full !in dirs
  {
    if full.parts == [] || full in dirs then None else Some(files[full := csv])
  }

  /** With both at the full path, a written resource reads back, and nothing
      else changes. */
  lemma PutThenGetAtPath(files: map<Path, string>, dirs: set<Path>, full: Path, csv: string)
    requires WrittenAtPath(files, dirs, full, csv).Some?
    ensures StoredAtPath(WrittenAtPath(files, dirs, full, csv).value, dirs, full) == Ok(Some(csv))
    ensures forall p :: p != full ==>
      StoredAtPath(WrittenAtPath(files, dirs, full, csv).value, dirs, p) == StoredAtPath(files, dirs, p)
  {
  }

  /** The same 2020 cache with both at the full path: the table written to
      `cache/2020/urls.csv` is the one read back. */
  lemma PutThenGetAtPathExample(config: Config, csv: string)
    requires config.cacheDir == "cache" && config.year == 2020
    ensures var full := Resolve(CachePath(config), "urls.csv", false);
      WrittenAtPath(map[], Prefixes(CachePath(config)), full, csv).Some? &&
      StoredAtPath(WrittenAtPath(map[], Prefixes(CachePath(config)), full, csv).value,
                   Prefixes(CachePath(config)), full) == Ok(Some(csv))
  {
    CachePath2020(config);
    ExampleName("urls.csv");
    var full := Path(false, ["cache", "2020", "urls.csv"]);
    assert Resolve(CachePath(config), "urls.csv", false) == full;
    assert full !in Prefixes(CachePath(config)) by {
      forall i | 1 <= i <= 2 ensures Path(false, ["cache", "2020"][..i]) != full {
        assert |["cache", "2020"][..i]| == i;
      }
    }
    PutThenGetAtPath(map[], Prefixes(CachePath(config)), full, csv);
  }

  // ----- the cache object -----

  /** A table as pandas holds it. */
  datatype Table = Table(columns: seq<string>, rows: seq<seq<string>>)

  const EmptyTable := Table([], [])

  /** An `OnDiskCache`: its configuration, the CSV writer and reader it calls,
      its cache directory, and the file system (files by path with their CSV
      text, and directories). */
  class OnDiskCache {
    const config: Config
    const toCsv: Table -> string
    const readCsv: string -> Table
    var cachePath: Path
    var files: map<Path, string>
    var dirs: set<Path>

    /** `__init__` and `_init_cache`: sets the cache path and makes it and
        every missing parent directory. */
    constructor (config: Config, toCsv: Table -> string, readCsv: string -> Table,
                 files: map<Path, string>, dirs: set<Path>)
      requires Prefixes(CachePath(config)) !! files.Keys
      ensures this.config == config && this.toCsv == toCsv && this.readCsv == readCsv
      ensures cachePath == CachePath(config)
      ensures this.files == files && this.dirs == dirs + Prefixes(cachePath)
      ensures Exists(this.files, this.dirs, cachePath)
    {
      this.config := config;
      this.toCsv := toCsv;
      this.readCsv := readCsv;
      cachePath := CachePath(config);
      this.files := files;
      this.dirs := dirs + Prefixes(CachePath(config));
      var p := CachePath(config);
      if p.parts != [] {
        assert p.parts[..|p.parts|] == p.parts;
        assert Path(p.absolute, p.parts[..|p.parts|]) in Prefixes(p);
      }
    }

    /** `get(resource_path, should_get_from_root_cache)`: an empty table on a
        miss, otherwise the table read from the full path's bare name. */
    method Get(resourcePath: string, root: bool) returns (r: Result<Table>)
      ensures var full := Resolve(cachePath, resourcePath, root);
        !Exists(files, dirs, full) ==> r == Ok(EmptyTable)
      ensures var full := Resolve(cachePath, resourcePath, root);
        Exists(files, dirs, full) ==>
          if Bare(Name(full)) in files then r == Ok(readCsv(files[Bare(Name(full))])) else r.Err?
    {
      var full := Resolve(cachePath, resourcePath, root);
      var stored := Stored(files, dirs, full);
      match stored {
        case Err(e) => r := Err(e);
        case Ok(None) => r := Ok(EmptyTable);
        case Ok(Some(csv)) => r := Ok(readCsv(csv));
      }
    }

    /** `put(resource_path, resource, should_store_in_root_cache)`: writes the
        table's CSV to the full path's bare name. */
    method Put(resourcePath: string, resource: Table, root: bool) returns (ok: bool)
      modifies this`files
      ensures var w := Written(old(files), dirs, Resolve(cachePath, resourcePath, root), toCsv(resource));
        ok == w.Some? && files == if ok then w.value else old(files)
    {
      var full := Resolve(cachePath, resourcePath, root);
      var w := Written(files, dirs, full, toCsv(resource));
      ok := w.Some?;
      if ok {
        files := w.value;
      }
    }
  }
}
