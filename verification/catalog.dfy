/**
 * The metadata cache behind the device-tree blob catalogue.
 *
 * `extract_dtb_info` looks a path up in the process-wide cache `dtcache`
 * before converting the blob, and stores what it computes; `gencache`
 * converts every `.dtb` and `.dtbo` file not cached yet, then sorts the
 * whole cache into base blobs and overlays by file suffix. Decompiling a
 * blob and reading its YAML form is a function parameter (`yaml`), which
 * gives the dictionary `parse_dtc_yaml` produced, or `None` when `dtc`
 * failed; the file listing is an input; the process pool becomes a loop
 * over the submitted files in submission order.
 */
module Catalog {
  import opened Wrappers
  import opened Text
  import opened Assoc
  import opened Tree

  /** A dictionary as `parse_dtc_yaml` returns it. */
  type Entries = seq<(string, Value)>

  /** The metadata kept for one blob: `{"name": …, "description": …, "compatible": …}`. */
  datatype DtbInfo = DtbInfo(name: string, description: Value, compatible: Value)

  /** `dtcache`: path to metadata, in insertion order. */
  type Infos = seq<(string, DtbInfo)>

  /** What converting one blob gives: its metadata, `None`, or a raised `TypeError`. */
  datatype Extracted = Info(info: DtbInfo) | NoInfo | Raised

  // ----- paths -----

  /** `s.rfind(c)`: the last position holding `c`, or -1. */
  function LastFind(s: string, c: char): (i: int)
    ensures -1 <= i < |s|
    ensures i >= 0 ==> s[i] == c
    ensures forall j :: i < j < |s| ==> s[j] != c
    decreases |s|
  {
    if s == [] then -1
    else if s[|s| - 1] == c then |s| - 1
    else LastFind(s[..|s| - 1], c)
  }

  /** `rfind` is pinned down by its two properties. */
  lemma LastFindAt(s: string, c: char, i: int)
    requires -1 <= i < |s| && (i >= 0 ==> s[i] == c)
    requires forall j :: i < j < |s| ==> s[j] != c
    ensures LastFind(s, c) == i
  {
  }

  /** `Path(p).name`: the text after the last `/`. */
  function FileName(p: string): (n: string)
    ensures '/' !in n && EndsWith(p, n)
  {
    var i := LastFind(p, '/');
    assert p[|p| - |p[i + 1..]|..] == p[i + 1..];
    p[i + 1..]
  }

  /** `Path(p).stem`: the name without its last suffix; a name whose only `.` is first or last keeps it. */
  function Stem(p: string): (s: string)
  {
    NameStem(FileName(p))
  }

  /** `PurePath.stem` of a bare file name. */
  function NameStem(n: string): (s: string)
  {
    var i := LastFind(n, '.');
    if 0 < i < |n| - 1 then n[..i] else n
  }

  /**
   * The stem of a file in some directory is its base name: `dir` is empty
   * or ends in `/`, the base name holds no `/`, and the suffix is a `.`
   * followed by at least one character other than `.` and `/`.
   */
  lemma StemOf(dir: string, base: string, ext: string)
    requires dir == [] || dir[|dir| - 1] == '/'
    requires base != [] && '/' !in base
    requires |ext| >= 2 && ext[0] == '.' && '/' !in ext && '.' !in ext[1..]
    ensures Stem(dir + base + ext) == base
  {
    assert dir + base + ext == dir + (base + ext);
    FileNameAfter(dir, base + ext);
    NameStemOf(base, ext);
  }

  /** The name of a path is what follows its directory part. */
  lemma FileNameAfter(dir: string, n: string)
    requires dir == [] || dir[|dir| - 1] == '/'
    requires '/' !in n
    ensures FileName(dir + n) == n
  {
    var p := dir + n;
    assert forall j :: |dir| <= j < |p| ==> p[j] == n[j - |dir|];
    LastFindAt(p, '/', |dir| - 1);
    assert p[|dir|..] == n;
  }

  /** The stem of `base + ext` is `base` when `ext` is the only suffix. */
  lemma NameStemOf(base: string, ext: string)
    requires base != []
    requires |ext| >= 2 && ext[0] == '.' && '.' !in ext[1..]
    ensures NameStem(base + ext) == base
  {
    var n := base + ext;
    forall j | |base| < j < |n| ensures n[j] != '.' {
      assert n[j] == ext[1..][j - |base| - 1];
    }
    LastFindAt(n, '.', |base|);
    assert n[..|base|] == base;
  }

  // ----- extract_dtb_info -----

  /** The texts of a list whose items are all strings. */
  function Texts(items: seq<Value>): (ts: Option<seq<string>>)
    ensures ts.Some? <==> forall i :: 0 <= i < |items| ==> items[i].Str?
    ensures ts.Some? ==> |ts.value| == |items| && forall i :: 0 <= i < |items| ==> ts.value[i] == items[i].s
  {
    if forall i :: 0 <= i < |items| ==> items[i].Str? then Some(seq(|items|, i requires 0 <= i < |items| => items[i].s))
    else None
  }

  /** The metadata of a converted blob, or `None` when the conversion gave nothing; a `model` list with a non-string item raises. */
  function Describe(path: string, tree: Option<Entries>): (r: Extracted)
    ensures r.NoInfo? <==> tree.None? || tree.value == []
    ensures r.Raised? <==> (tree.Some? && tree.value != [] && GetOr(tree.value, "model", Str("")).List? &&
      Texts(GetOr(tree.value, "model", Str("")).items).None?)
    ensures r.Info? ==> r.info.name == Stem(path) && r.info.compatible == GetOr(tree.value, "compatible", List([]))
    ensures r.Info? && !GetOr(tree.value, "model", Str("")).List? ==> r.info.description == GetOr(tree.value, "model", Str(""))
    ensures r.Info? && GetOr(tree.value, "model", Str("")).List? ==>
      r.info.description == Str(Join(Texts(GetOr(tree.value, "model", Str("")).items).value, " "))
  {
    match tree
    case None => NoInfo
    case Some(t) =>
      if t == [] then NoInfo
      else
        var model := GetOr(t, "model", Str(""));
        var compatible := GetOr(t, "compatible", List([]));
        if model.List? then
          match Texts(model.items)
          case None => Raised
          case Some(ts) => Info(DtbInfo(Stem(path), Str(Join(ts, " ")), compatible))
        else Info(DtbInfo(Stem(path), model, compatible))
  }

  /** `extract_dtb_info` on a cache: a cached path is answered from the cache, otherwise the metadata is computed and stored. */
  function Extract(cache: Infos, path: string, tree: Option<Entries>): (Extracted, Infos)
  {
    if HasKey(cache, path) then (Info(Get(cache, path)), cache)
    else
      var r := Describe(path, tree);
      (r, if r.Info? then Set(cache, path, r.info) else cache)
  }

  /**
   * Memoisation: once a path has metadata, asking again gives the same
   * metadata and leaves the cache as it is, whatever the conversion would
   * now give.
   */
  lemma ExtractMemo(cache: Infos, path: string, tree: Option<Entries>, later: Option<Entries>)
    requires Extract(cache, path, tree).0.Info?
    ensures Extract(Extract(cache, path, tree).1, path, later) == Extract(cache, path, tree)
  {
    if !HasKey(cache, path) {
      var info := Describe(path, tree).info;
      assert HasKey(Set(cache, path, info), path) && Get(Set(cache, path, info), path) == info;
    }
  }

  /** The cache only grows: every other entry keeps its value, and keys stay distinct. */
  lemma ExtractKeeps(cache: Infos, path: string, tree: Option<Entries>)
    ensures forall k :: HasKey(cache, k) ==> (HasKey(Extract(cache, path, tree).1, k) &&
      Get(Extract(cache, path, tree).1, k) == Get(cache, k))
    ensures DistinctKeys(cache) ==> DistinctKeys(Extract(cache, path, tree).1)
  {
    var r := Describe(path, tree);
    if !HasKey(cache, path) && r.Info? {
      SetOthers(cache, path, r.info);
    }
  }

  // ----- gencache -----

  /** Which part of the catalogue a file belongs to. */
  datatype Kind = Base | Overlay

  /** The suffix the listing of each kind matches. */
  function Suffix(k: Kind): string
  {
    match k
    case Base => ".dtb"
    case Overlay => ".dtbo"
  }

  /** What `rglob("*.dtb")` and `rglob("*.dtbo")` found. */
  datatype Listing = Listing(bases: seq<string>, overlays: seq<string>)

  /** Every listed file has the suffix of its kind, as `rglob` guarantees. */
  predicate ListingOk(l: Listing)
  {
    (forall i :: 0 <= i < |l.bases| ==> EndsWith(l.bases[i], ".dtb")) &&
    (forall i :: 0 <= i < |l.overlays| ==> EndsWith(l.overlays[i], ".dtbo"))
  }

  /** `{"base": {...}, "overlays": {...}}`. */
  datatype Catalog = Catalog(base: Infos, overlays: Infos)

  /** `res[kind][path] = data`. */
  function AddTo(res: Catalog, kind: Kind, path: string, info: DtbInfo): Catalog
  {
    match kind
    case Base => res.(base := Set(res.base, path, info))
    case Overlay => res.(overlays := Set(res.overlays, path, info))
  }

  /** `all_files`: the base files, then the overlays, each with its kind. */
  function AllFiles(l: Listing): (fs: seq<(string, Kind)>)
    ensures |fs| == |l.bases| + |l.overlays|
    ensures forall i :: 0 <= i < |l.bases| ==> fs[i] == (l.bases[i], Base)
    ensures forall i :: 0 <= i < |l.overlays| ==> fs[|l.bases| + i] == (l.overlays[i], Overlay)
  {
    seq(|l.bases|, i requires 0 <= i < |l.bases| => (l.bases[i], Base)) +
    seq(|l.overlays|, i requires 0 <= i < |l.overlays| => (l.overlays[i], Overlay))
  }

  /** The files submitted to the pool: those whose path is not cached when `gencache` starts. */
  function Submitted(files: seq<(string, Kind)>, cache: Infos): (js: seq<(string, Kind)>)
    ensures forall i :: 0 <= i < |js| ==> !HasKey(cache, js[i].0) && js[i] in files
    ensures forall i :: 0 <= i < |files| && !HasKey(cache, files[i].0) ==> files[i] in js
    decreases |files|
  {
    if files == [] then []
    else
      var js := Submitted(files[..|files| - 1], cache);
      var f := files[|files| - 1];
      if HasKey(cache, f.0) then js else js + [f]
  }

  /** The state of the result loop of `gencache`: the cache, the catalogue, and whether a result raised. */
  datatype Gen = Gen(cache: Infos, res: Catalog, failed: bool)

  /** One finished job: metadata goes into the cache and its part of the catalogue, `None` is dropped, an exception ends the loop. */
  function Collected(g: Gen, job: (string, Kind), r: Extracted): Gen
  {
    if g.failed then g
    else
      match r
      case Info(info) => Gen(Set(g.cache, job.0, info), AddTo(g.res, job.1, job.0, info), false)
      case NoInfo => g
      case Raised => g.(failed := true)
  }

  /** The result loop over the submitted jobs; `outcome` is what the worker returns for a path. */
  function Collect(outcome: string -> Extracted, start: Gen, jobs: seq<(string, Kind)>): Gen
    decreases |jobs|
  {
    if jobs == [] then start
    else
      var job := jobs[|jobs| - 1];
      Collected(Collect(outcome, start, jobs[..|jobs| - 1]), job, outcome(job.0))
  }

  /** The entries of `c` whose path ends in `suffix`, assigned into `part` in order. */
  function Pick(part: Infos, c: Infos, suffix: string): Infos
    decreases |c|
  {
    if c == [] then part
    else
      var q := Pick(part, c[..|c| - 1], suffix);
      var e := c[|c| - 1];
      if EndsWith(e.0, suffix) then Set(q, e.0, e.1) else q
  }

  /** The second loop of `gencache`: every cached `.dtb` entry into `base`, every `.dtbo` one into `overlays`. */
  function Classify(res: Catalog, cache: Infos): Catalog
  {
    Catalog(Pick(res.base, cache, ".dtb"), Pick(res.overlays, cache, ".dtbo"))
  }

  /** `_extract_info_wrapper` in a worker, whose copy of the cache does not hold the path: the metadata computed afresh. */
  function Outcomes(yaml: string -> Option<Entries>): (outcome: string -> Extracted)
    ensures forall p :: outcome(p) == Describe(p, yaml(p))
  {
    p => Describe(p, yaml(p))
  }

  /** `gencache`: the new cache and the catalogue; no listing (no blob directory) raises at once and gives an empty catalogue. */
  function GenCacheSpec(cache: Infos, listing: Option<Listing>, yaml: string -> Option<Entries>): (Infos, Catalog)
  {
    match listing
    case None => (cache, Catalog([], []))
    case Some(l) =>
      var g := Collect(Outcomes(yaml), Gen(cache, Catalog([], []), false), Submitted(AllFiles(l), cache));
      if g.failed then (g.cache, g.res) else (g.cache, Classify(g.res, g.cache))
  }

  /** A path does not end in both suffixes. */
  lemma SuffixesDiffer(p: string)
    ensures EndsWith(p, ".dtbo") ==> !EndsWith(p, ".dtb")
  {
    if EndsWith(p, ".dtbo") {
      assert p[|p| - 1] == ".dtbo"[4];
    }
  }

  // ----- properties of gencache -----

  /** Every path in a part of the catalogue is cached with the same metadata and has the part's suffix. */
  ghost predicate Agrees(part: Infos, cache: Infos, suffix: string)
  {
    forall p :: HasKey(part, p) ==> HasKey(cache, p) && Get(part, p) == Get(cache, p) && EndsWith(p, suffix)
  }

  /** Both parts of the catalogue agree with the cache. */
  ghost predicate CatalogAgrees(res: Catalog, cache: Infos)
  {
    Agrees(res.base, cache, ".dtb") && Agrees(res.overlays, cache, ".dtbo")
  }

  /** The submitted jobs have the suffix of their kind. */
  predicate JobsOk(jobs: seq<(string, Kind)>)
  {
    forall i :: 0 <= i < |jobs| ==> EndsWith(jobs[i].0, Suffix(jobs[i].1))
  }

  /** The files of a well-formed listing have the suffix of their kind. */
  lemma SubmittedOk(l: Listing, cache: Infos)
    requires ListingOk(l)
    ensures JobsOk(Submitted(AllFiles(l), cache))
  {
    var fs := AllFiles(l);
    assert JobsOk(fs) by {
      forall i | 0 <= i < |fs| ensures EndsWith(fs[i].0, Suffix(fs[i].1)) {
        if i >= |l.bases| {
          assert fs[i] == (l.overlays[i - |l.bases|], Overlay);
        }
      }
    }
  }

  /** Storing one job's metadata in the cache and in its part keeps the parts in agreement with the cache. */
  lemma StoreAgrees(g: Gen, job: (string, Kind), info: DtbInfo)
    requires CatalogAgrees(g.res, g.cache) && EndsWith(job.0, Suffix(job.1))
    ensures CatalogAgrees(AddTo(g.res, job.1, job.0, info), Set(g.cache, job.0, info))
  {
    SuffixesDiffer(job.0);
    match job.1
    case Base =>
      SetAgrees(g.res.base, g.cache, job.0, info, ".dtb");
      OtherAgrees(g.res.overlays, g.cache, job.0, info, ".dtbo");
    case Overlay =>
      OtherAgrees(g.res.base, g.cache, job.0, info, ".dtb");
      SetAgrees(g.res.overlays, g.cache, job.0, info, ".dtbo");
  }

  /** The part a path with its suffix is stored into still agrees with the cache. */
  lemma SetAgrees(part: Infos, cache: Infos, p: string, info: DtbInfo, suffix: string)
    requires Agrees(part, cache, suffix) && EndsWith(p, suffix)
    ensures Agrees(Set(part, p, info), Set(cache, p, info), suffix)
  {
    SetOthers(part, p, info);
    SetOthers(cache, p, info);
  }

  /** A part that does not receive the path still agrees with the cache. */
  lemma OtherAgrees(part: Infos, cache: Infos, p: string, info: DtbInfo, suffix: string)
    requires Agrees(part, cache, suffix) && !EndsWith(p, suffix)
    ensures Agrees(part, Set(cache, p, info), suffix)
  {
    SetOthers(cache, p, info);
  }

  /** The result loop keeps the catalogue in agreement with the cache and the cache's keys distinct. */
  lemma {:induction false} CollectAgrees(outcome: string -> Extracted, start: Gen, jobs: seq<(string, Kind)>)
    requires CatalogAgrees(start.res, start.cache) && DistinctKeys(start.cache) && JobsOk(jobs)
    ensures CatalogAgrees(Collect(outcome, start, jobs).res, Collect(outcome, start, jobs).cache)
    ensures DistinctKeys(Collect(outcome, start, jobs).cache)
    decreases |jobs|
  {
    if jobs != [] {
      var n := |jobs| - 1;
      var ini := jobs[..n];
      var job := jobs[n];
      assert JobsOk(ini) by {
        forall i | 0 <= i < n ensures EndsWith(ini[i].0, Suffix(ini[i].1)) {
          assert ini[i] == jobs[i];
        }
      }
      CollectAgrees(outcome, start, ini);
      var g := Collect(outcome, start, ini);
      var r := outcome(job.0);
      if !g.failed && r.Info? {
        StoreAgrees(g, job, r.info);
        SetOthers(g.cache, job.0, r.info);
      }
    }
  }

  /** The result loop never changes an entry cached before it started, when no job is for that path. */
  lemma {:induction false} CollectKeeps(outcome: string -> Extracted, start: Gen, jobs: seq<(string, Kind)>, k: string)
    requires HasKey(start.cache, k) && forall i :: 0 <= i < |jobs| ==> jobs[i].0 != k
    ensures HasKey(Collect(outcome, start, jobs).cache, k) && Get(Collect(outcome, start, jobs).cache, k) == Get(start.cache, k)
    decreases |jobs|
  {
    if jobs != [] {
      var n := |jobs| - 1;
      var ini := jobs[..n];
      var job := jobs[n];
      assert forall i :: 0 <= i < n ==> ini[i] == jobs[i];
      CollectKeeps(outcome, start, ini, k);
      var g := Collect(outcome, start, ini);
      var r := outcome(job.0);
      if !g.failed && r.Info? {
        SetOthers(g.cache, job.0, r.info);
      }
    }
  }

  /** When nothing raised, the result loop has cached every submitted file that gave metadata, with that metadata. */
  lemma {:induction false} CollectStores(outcome: string -> Extracted, start: Gen, jobs: seq<(string, Kind)>, i: nat)
    requires i < |jobs| && !Collect(outcome, start, jobs).failed
    requires outcome(jobs[i].0).Info?
    ensures HasKey(Collect(outcome, start, jobs).cache, jobs[i].0)
    ensures Get(Collect(outcome, start, jobs).cache, jobs[i].0) == outcome(jobs[i].0).info
    decreases |jobs|
  {
    var n := |jobs| - 1;
    var ini := jobs[..n];
    var job := jobs[n];
    var p := jobs[i].0;
    var v := outcome(p).info;
    if i < n {
      assert ini[i] == jobs[i];
      CollectStores(outcome, start, ini, i);
    }
    CollectedStores(Collect(outcome, start, ini), job, outcome(job.0), p, v);
  }

  /** One finished job leaves `p` cached with `v` if it stored `v` for `p`, or if `p` had `v` and the job did not store something else for it. */
  lemma CollectedStores(g: Gen, job: (string, Kind), r: Extracted, p: string, v: DtbInfo)
    requires !Collected(g, job, r).failed
    requires (job.0 == p && r == Info(v)) || (HasKey(g.cache, p) && Get(g.cache, p) == v && (job.0 == p && r.Info? ==> r.info == v))
    ensures HasKey(Collected(g, job, r).cache, p) && Get(Collected(g, job, r).cache, p) == v
  {
    if r.Info? {
      SetOthers(g.cache, job.0, r.info);
    }
  }

  /** The effect of `Pick` on one path. */
  lemma {:induction false} PickAt(part: Infos, c: Infos, suffix: string, p: string)
    requires DistinctKeys(c)
    ensures HasKey(Pick(part, c, suffix), p) <==> HasKey(part, p) || (HasKey(c, p) && EndsWith(p, suffix))
    ensures HasKey(c, p) && EndsWith(p, suffix) ==> Get(Pick(part, c, suffix), p) == Get(c, p)
    ensures HasKey(part, p) && !(HasKey(c, p) && EndsWith(p, suffix)) ==> Get(Pick(part, c, suffix), p) == Get(part, p)
    decreases |c|
  {
    if c != [] {
      var ini := c[..|c| - 1];
      var e := c[|c| - 1];
      ButLast(c);
      assert !HasKey(ini, e.0);
      AppendFacts(ini, e.0, e.1, c);
      PickAt(part, ini, suffix, p);
      if EndsWith(e.0, suffix) {
        SetOthers(Pick(part, ini, suffix), e.0, e.1);
      }
    }
  }

  /** A part that agrees with the cache, completed by `Pick`, holds exactly the cached entries with the part's suffix. */
  lemma PickExact(part: Infos, cache: Infos, suffix: string)
    requires DistinctKeys(cache) && Agrees(part, cache, suffix)
    ensures forall p :: HasKey(Pick(part, cache, suffix), p) <==> HasKey(cache, p) && EndsWith(p, suffix)
    ensures forall p :: HasKey(cache, p) && EndsWith(p, suffix) ==> Get(Pick(part, cache, suffix), p) == Get(cache, p)
  {
    forall p ensures HasKey(Pick(part, cache, suffix), p) <==> HasKey(cache, p) && EndsWith(p, suffix) {
      PickAt(part, cache, suffix, p);
    }
    forall p | HasKey(cache, p) && EndsWith(p, suffix) ensures Get(Pick(part, cache, suffix), p) == Get(cache, p) {
      PickAt(part, cache, suffix, p);
    }
  }

  /**
   * When no metadata raises, `gencache` leaves every previously cached
   * entry as it was, keeps the cache's keys distinct, and caches every
   * listed file that gave metadata.
   */
  lemma GenCacheKeeps(cache0: Infos, l: Listing, yaml: string -> Option<Entries>)
    requires DistinctKeys(cache0) && ListingOk(l)
    requires !Collect(Outcomes(yaml), Gen(cache0, Catalog([], []), false), Submitted(AllFiles(l), cache0)).failed
    ensures var cache := GenCacheSpec(cache0, Some(l), yaml).0;
      DistinctKeys(cache) &&
      (forall k :: HasKey(cache0, k) ==> HasKey(cache, k) && Get(cache, k) == Get(cache0, k)) &&
      (forall i :: 0 <= i < |AllFiles(l)| && Describe(AllFiles(l)[i].0, yaml(AllFiles(l)[i].0)).Info? ==>
        HasKey(cache, AllFiles(l)[i].0))
  {
    var fs := AllFiles(l);
    var outcome := Outcomes(yaml);
    var jobs := Submitted(fs, cache0);
    var start := Gen(cache0, Catalog([], []), false);
    SubmittedOk(l, cache0);
    CollectAgrees(outcome, start, jobs);
    CollectCovers(outcome, cache0, fs);
  }

  /** Whatever the outcomes, collecting the submitted files keeps the old entries and stores every file that gave metadata. */
  lemma CollectCovers(outcome: string -> Extracted, cache0: Infos, fs: seq<(string, Kind)>)
    requires !Collect(outcome, Gen(cache0, Catalog([], []), false), Submitted(fs, cache0)).failed
    ensures var g := Collect(outcome, Gen(cache0, Catalog([], []), false), Submitted(fs, cache0));
      (forall k :: HasKey(cache0, k) ==> HasKey(g.cache, k) && Get(g.cache, k) == Get(cache0, k)) &&
      (forall i :: 0 <= i < |fs| && outcome(fs[i].0).Info? ==> HasKey(g.cache, fs[i].0))
  {
    var jobs := Submitted(fs, cache0);
    var start := Gen(cache0, Catalog([], []), false);
    var g := Collect(outcome, start, jobs);
    forall k | HasKey(cache0, k) ensures HasKey(g.cache, k) && Get(g.cache, k) == Get(cache0, k) {
      CollectKeeps(outcome, start, jobs, k);
    }
    forall i | 0 <= i < |fs| && outcome(fs[i].0).Info? ensures HasKey(g.cache, fs[i].0) {
      if HasKey(cache0, fs[i].0) {
        CollectKeeps(outcome, start, jobs, fs[i].0);
      } else {
        var j :| 0 <= j < |jobs| && jobs[j] == fs[i];
        CollectStores(outcome, start, jobs, j);
      }
    }
  }

  /**
   * When no metadata raises, `gencache` returns as `base` exactly the
   * cached `.dtb` entries and as `overlays` exactly the cached `.dtbo`
   * entries, each with its cached metadata; no path is in both.
   */
  lemma GenCacheSorts(cache0: Infos, l: Listing, yaml: string -> Option<Entries>)
    requires DistinctKeys(cache0) && ListingOk(l)
    requires !Collect(Outcomes(yaml), Gen(cache0, Catalog([], []), false), Submitted(AllFiles(l), cache0)).failed
    ensures var (cache, res) := GenCacheSpec(cache0, Some(l), yaml);
      (forall p :: HasKey(res.base, p) <==> HasKey(cache, p) && EndsWith(p, ".dtb")) &&
      (forall p :: HasKey(res.overlays, p) <==> HasKey(cache, p) && EndsWith(p, ".dtbo")) &&
      (forall p :: HasKey(res.base, p) ==> Get(res.base, p) == Get(cache, p)) &&
      (forall p :: HasKey(res.overlays, p) ==> Get(res.overlays, p) == Get(cache, p)) &&
      (forall p :: !(HasKey(res.base, p) && HasKey(res.overlays, p)))
  {
    var outcome := Outcomes(yaml);
    var start := Gen(cache0, Catalog([], []), false);
    var jobs := Submitted(AllFiles(l), cache0);
    SubmittedOk(l, cache0);
    CollectAgrees(outcome, start, jobs);
    var g := Collect(outcome, start, jobs);
    PickExact(g.res.base, g.cache, ".dtb");
    PickExact(g.res.overlays, g.cache, ".dtbo");
    forall p ensures !(HasKey(Classify(g.res, g.cache).base, p) && HasKey(Classify(g.res, g.cache).overlays, p)) {
      SuffixesDiffer(p);
    }
  }

  /** Once a result raises, no later result is collected. */
  lemma {:induction false} FailedSticks(outcome: string -> Extracted, start: Gen, jobs: seq<(string, Kind)>, k: nat)
    requires k <= |jobs| && Collect(outcome, start, jobs[..k]).failed
    ensures Collect(outcome, start, jobs) == Collect(outcome, start, jobs[..k])
    decreases |jobs|
  {
    if k < |jobs| {
      var ini := jobs[..|jobs| - 1];
      assert ini[..k] == jobs[..k];
      FailedSticks(outcome, start, ini, k);
    } else {
      assert jobs[..k] == jobs;
    }
  }

  /** `dtcache`, as an object whose methods update it. */
  class DtCache {
    var entries: Infos

    ghost predicate Valid()
      reads this
    {
      DistinctKeys(entries)
    }

    constructor()
      ensures Valid() && entries == []
    {
      entries := [];
    }

    /** `extract_dtb_info(path)`, the conversion done only on a cache miss. */
    method ExtractDtbInfo(path: string, yaml: string -> Option<Entries>) returns (r: Extracted)
      requires Valid()
      modifies this
      ensures Valid()
      ensures (r, entries) == Extract(old(entries), path, yaml(path))
    {
      if HasKey(entries, path) {
        return Info(Get(entries, path));
      }
      r := Describe(path, yaml(path));
      if r.Info? {
        SetOthers(entries, path, r.info);
        entries := Set(entries, path, r.info);
      }
    }

    /** `gencache()`: convert the files not cached yet, then sort the whole cache by suffix. */
    method GenCache(listing: Option<Listing>, yaml: string -> Option<Entries>) returns (res: Catalog)
      requires Valid()
      modifies this
      ensures Valid()
      ensures (entries, res) == GenCacheSpec(old(entries), listing, yaml)
    {
      if listing.None? {
        return Catalog([], []);
      }
      var jobs := Submitted(AllFiles(listing.value), entries);
      var failed;
      res, failed := CollectResults(jobs, Outcomes(yaml));
      if !failed {
        res := ClassifyCache(res, entries);
      }
    }

    /** The result loop of `gencache`: store each job's metadata in the cache and the catalogue; stop at the first exception. */
    method CollectResults(jobs: seq<(string, Kind)>, outcome: string -> Extracted) returns (res: Catalog, failed: bool)
      requires Valid()
      modifies this
      ensures Valid()
      ensures Gen(entries, res, failed) == Collect(outcome, Gen(old(entries), Catalog([], []), false), jobs)
    {
      res := Catalog([], []);
      ghost var start := Gen(entries, res, false);
      for i := 0 to |jobs|
        invariant Collect(outcome, start, jobs[..i]) == Gen(entries, res, false)
        invariant DistinctKeys(entries)
      {
        assert jobs[..i + 1][..i] == jobs[..i];
        var (path, kind) := jobs[i];
        var r := outcome(path);
        if r.Raised? {
          FailedSticks(outcome, start, jobs, i + 1);
          return res, true;
        }
        if r.Info? {
          SetOthers(entries, path, r.info);
          entries := Set(entries, path, r.info);
          res := AddTo(res, kind, path, r.info);
        }
      }
      assert jobs[..|jobs|] == jobs;
      failed := false;
    }
  }

  /** The loop over `dtcache.items()` that sorts every cached entry into `base` or `overlays` by suffix. */
  method ClassifyCache(collected: Catalog, cached: Infos) returns (res: Catalog)
    ensures res == Classify(collected, cached)
  {
    res := collected;
    for i := 0 to |cached|
      invariant res == Classify(collected, cached[..i])
    {
      assert cached[..i + 1][..i] == cached[..i];
      var (p, d) := cached[i];
      SuffixesDiffer(p);
      if EndsWith(p, ".dtb") {
        res := res.(base := Set(res.base, p, d));
      } else if EndsWith(p, ".dtbo") {
        res := res.(overlays := Set(res.overlays, p, d));
      }
    }
    assert cached[..|cached|] == cached;
  }
}
