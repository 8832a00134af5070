/** `DebMaster._analyze_tweak_structure`: every file of an extracted tweak is
    put into exactly one bucket by an ordered, first-match rule, and the
    `MobileSubstrate` and `Library` directories are remembered.

    The directory walk (`os.walk`) is given as the sequence of levels it
    yields: a root, the names of the directories under it and the names of
    the files under it. */
module TweakAnalysis {
  import opened Wrappers
  import opened Text
  import opened PathNames

  /** One `(root, dirs, files)` triple yielded by the walk. */
  datatype Level = Level(root: string, dirs: seq<string>, files: seq<string>)

  /** A file reached by the walk: `Path(root) / name`. */
  datatype FileRef = FileRef(root: string, name: string)

  function PathOf(f: FileRef): string
  {
    Join(f.root, f.name)
  }

  /** The buckets, in the order the rule tries them. */
  datatype Kind = Dylib | Framework | Bundle | Preference | SubstrateFilter | Other

  /** Position of a bucket in the first-match order. */
  function Rank(k: Kind): nat
  {
    match k
    case Dylib => 0
    case Framework => 1
    case Bundle => 2
    case Preference => 3
    case SubstrateFilter => 4
    case Other => 5
  }

  /** The test of one bucket taken on its own: suffix tests on the lower-cased
      name, substring tests on the lower-cased full path. */
  predicate Matches(f: FileRef, k: Kind)
  {
    var name, path := Lower(f.name), Lower(PathOf(f));
    match k
    case Dylib => EndsWith(name, ".dylib")
    case Framework => EndsWith(name, ".framework")
    case Bundle => EndsWith(name, ".bundle")
    case Preference => EndsWith(name, ".plist") && Contains(path, "preferences")
    case SubstrateFilter => EndsWith(name, ".plist") && (Contains(path, "filter") || Contains(path, "substrate"))
    case Other => true
  }

  /** The first bucket, in rule order, whose test holds. */
  function FirstMatch(test: Kind -> bool): Kind
  {
    if test(Dylib) then Dylib
    else if test(Framework) then Framework
    else if test(Bundle) then Bundle
    else if test(Preference) then Preference
    else if test(SubstrateFilter) then SubstrateFilter
    else Other
  }

  /** `FirstMatch` picks `k` exactly when `k`'s test holds and no earlier one
      does, provided the last bucket always matches. */
  lemma FirstMatchIsFirst(test: Kind -> bool, k: Kind)
    requires test(Other)
    ensures FirstMatch(test) == k <==> test(k) && forall k' :: Rank(k') < Rank(k) ==> !test(k')
  {
    if FirstMatch(test) == k {
      forall k' | Rank(k') < Rank(k) ensures !test(k') {
      }
    } else if test(k) {
      assert Rank(FirstMatch(test)) < Rank(k) && test(FirstMatch(test));
    }
  }

  /** The `if`/`elif` chain of the source. */
  function Classify(f: FileRef): (k: Kind)
    ensures Matches(f, k)
  {
    FirstMatch(k => Matches(f, k))
  }

  /** A file lands in bucket `k` exactly when `k`'s test holds and no test
      tried before it does. */
  lemma ClassifyIsFirstMatch(f: FileRef, k: Kind)
    ensures Classify(f) == k <==> Matches(f, k) && forall k' :: Rank(k') < Rank(k) ==> !Matches(f, k')
  {
    FirstMatchIsFirst(k => Matches(f, k), k);
  }

  /** The `analysis` dict. */
  datatype Analysis = Analysis(
    dylibs: seq<FileRef>,
    frameworks: seq<FileRef>,
    bundles: seq<FileRef>,
    preferences: seq<FileRef>,
    substrateFilters: seq<FileRef>,
    otherFiles: seq<FileRef>,
    mobileSubstratePath: Option<string>,
    libraryPath: Option<string>)

  const Initial := Analysis([], [], [], [], [], [], None, None)

  function Bucket(a: Analysis, k: Kind): seq<FileRef>
  {
    match k
    case Dylib => a.dylibs
    case Framework => a.frameworks
    case Bundle => a.bundles
    case Preference => a.preferences
    case SubstrateFilter => a.substrateFilters
    case Other => a.otherFiles
  }

  /** Every file held by some bucket, as often as it is held. */
  function Contents(a: Analysis): multiset<FileRef>
  {
    multiset(a.dylibs) + multiset(a.frameworks) + multiset(a.bundles)
      + multiset(a.preferences) + multiset(a.substrateFilters) + multiset(a.otherFiles)
  }

  /** Appends `f` to bucket `k`. */
  function Place(a: Analysis, f: FileRef, k: Kind): (a': Analysis)
    ensures Contents(a') == Contents(a) + multiset{f}
    ensures a'.mobileSubstratePath == a.mobileSubstratePath && a'.libraryPath == a.libraryPath
  {
    match k
    case Dylib => a.(dylibs := a.dylibs + [f])
    case Framework => a.(frameworks := a.frameworks + [f])
    case Bundle => a.(bundles := a.bundles + [f])
    case Preference => a.(preferences := a.preferences + [f])
    case SubstrateFilter => a.(substrateFilters := a.substrateFilters + [f])
    case Other => a.(otherFiles := a.otherFiles + [f])
  }

  /** Appends the files of `fs` in order, each to the bucket `kindOf` picks
      for it. */
  function PlaceAll(a: Analysis, fs: seq<FileRef>, kindOf: FileRef -> Kind): Analysis
    decreases |fs|
  {
    if fs == [] then a
    else Place(PlaceAll(a, fs[..|fs| - 1], kindOf), fs[|fs| - 1], kindOf(fs[|fs| - 1]))
  }

  /** The two directory checks made at each level, before its files. */
  function MarkDirs(a: Analysis, level: Level): Analysis
  {
    var a' := if "MobileSubstrate" in level.dirs
              then a.(mobileSubstratePath := Some(Join(level.root, "MobileSubstrate"))) else a;
    if "Library" in level.dirs then a'.(libraryPath := Some(Join(level.root, "Library"))) else a'
  }

  /** The files of one level, in the order the walk lists them. */
  function FilesOf(root: string, names: seq<string>): (fs: seq<FileRef>)
    ensures |fs| == |names|
    ensures forall i :: 0 <= i < |names| ==> fs[i] == FileRef(root, names[i])
  {
    seq(|names|, i requires 0 <= i < |names| => FileRef(root, names[i]))
  }

  /** The `for file in files` loop of one level. */
  function AddFiles(a: Analysis, root: string, names: seq<string>): Analysis
  {
    PlaceAll(a, FilesOf(root, names), Classify)
  }

  function ScanLevel(a: Analysis, level: Level): Analysis
  {
    AddFiles(MarkDirs(a, level), level.root, level.files)
  }

  /** The analysis of a whole walk. */
  function Analyze(walk: seq<Level>): Analysis
    decreases |walk|
  {
    if walk == [] then Initial
    else ScanLevel(Analyze(walk[..|walk| - 1]), walk[|walk| - 1])
  }

  /** Listing one more file places that file after the others. */
  lemma FilesOfSnoc(a: Analysis, root: string, names: seq<string>, name: string, kindOf: FileRef -> Kind)
    ensures PlaceAll(a, FilesOf(root, names + [name]), kindOf) ==
      Place(PlaceAll(a, FilesOf(root, names), kindOf), FileRef(root, name), kindOf(FileRef(root, name)))
  {
    var fs := FilesOf(root, names + [name]);
    assert fs[..|fs| - 1] == FilesOf(root, names);
  }

  lemma AddFilesSnoc(a: Analysis, root: string, names: seq<string>, name: string)
    ensures AddFiles(a, root, names + [name]) ==
      Place(AddFiles(a, root, names), FileRef(root, name), Classify(FileRef(root, name)))
  {
    FilesOfSnoc(a, root, names, name, Classify);
  }

  /** Walking one more level scans it after the others. */
  lemma AnalyzeSnoc(walk: seq<Level>, level: Level)
    ensures Analyze(walk + [level]) == ScanLevel(Analyze(walk), level)
  {
    assert (walk + [level])[..|walk|] == walk;
  }

  /** One file of the `for file in files` loop of `_analyze_tweak_structure`:
      the `if`/`elif` chain appends it to the bucket of the first test it
      passes, each test being the one `Matches` states for that bucket. */
  method AppendFile(analysis: Analysis, file: FileRef) returns (result: Analysis)
    ensures result == Place(analysis, file, Classify(file))
  {
    result := analysis;
    if Matches(file, Dylib) {
      result := result.(dylibs := result.dylibs + [file]);
    } else if Matches(file, Framework) {
      result := result.(frameworks := result.frameworks + [file]);
    } else if Matches(file, Bundle) {
      result := result.(bundles := result.bundles + [file]);
    } else if Matches(file, Preference) {
      result := result.(preferences := result.preferences + [file]);
    } else if Matches(file, SubstrateFilter) {
      result := result.(substrateFilters := result.substrateFilters + [file]);
    } else {
      result := result.(otherFiles := result.otherFiles + [file]);
    }
  }

  /** The `for file in files` loop of one level. */
  method AnalyzeFiles(analysis: Analysis, root: string, files: seq<string>) returns (result: Analysis)
    ensures result == AddFiles(analysis, root, files)
  {
    result := analysis;
    for j := 0 to |files|
      invariant result == AddFiles(analysis, root, files[..j])
    {
      result := AppendFile(result, FileRef(root, files[j]));
      AddFilesSnoc(analysis, root, files[..j], files[j]);
      assert files[..j + 1] == files[..j] + [files[j]];
    }
    assert files[..|files|] == files;
  }

  /** `_analyze_tweak_structure` over the levels of the walk. */
  method AnalyzeTweakStructure(walk: seq<Level>) returns (analysis: Analysis)
    ensures analysis == Analyze(walk)
  {
    analysis := Initial;
    for i := 0 to |walk|
      invariant analysis == Analyze(walk[..i])
    {
      var level := walk[i];
      if "MobileSubstrate" in level.dirs {
        analysis := analysis.(mobileSubstratePath := Some(Join(level.root, "MobileSubstrate")));
      }
      if "Library" in level.dirs {
        analysis := analysis.(libraryPath := Some(Join(level.root, "Library")));
      }
      analysis := AnalyzeFiles(analysis, level.root, level.files);
      AnalyzeSnoc(walk[..i], level);
      assert walk[..i + 1] == walk[..i] + [level];
    }
    assert walk[..|walk|] == walk;
  }

  /** Every file the walk reaches, in walk order. */
  function AllFiles(walk: seq<Level>): seq<FileRef>
    decreases |walk|
  {
    if walk == [] then []
    else AllFiles(walk[..|walk| - 1]) + FilesOf(walk[|walk| - 1].root, walk[|walk| - 1].files)
  }

  /** The files of `fs` that `kindOf` puts into bucket `k`, in order. The
      list facts below hold for any labelling `kindOf`; the analysis uses `Classify`. */
  function Select(fs: seq<FileRef>, kindOf: FileRef -> Kind, k: Kind): seq<FileRef>
    decreases |fs|
  {
    if fs == [] then []
    else Select(fs[..|fs| - 1], kindOf, k) + (if kindOf(fs[|fs| - 1]) == k then [fs[|fs| - 1]] else [])
  }

  lemma {:induction false} SelectConcat(a: seq<FileRef>, b: seq<FileRef>, kindOf: FileRef -> Kind, k: Kind)
    ensures Select(a + b, kindOf, k) == Select(a, kindOf, k) + Select(b, kindOf, k)
    decreases |b|
  {
    if b == [] {
      assert a + b == a;
    } else {
      var init, last := b[..|b| - 1], b[|b| - 1];
      SelectConcat(a, init, kindOf, k);
      var ab := a + b;
      assert ab[..|ab| - 1] == a + init && ab[|ab| - 1] == last;
    }
  }

  /** `Select` keeps exactly the files labelled `k`. */
  lemma {:induction false} SelectMembers(fs: seq<FileRef>, kindOf: FileRef -> Kind, k: Kind, f: FileRef)
    ensures f in Select(fs, kindOf, k) <==> f in fs && kindOf(f) == k
    decreases |fs|
  {
    if fs != [] {
      var init, last := fs[..|fs| - 1], fs[|fs| - 1];
      SelectMembers(init, kindOf, k, f);
      assert fs == init + [last];
    }
  }

  lemma PlaceBucket(a: Analysis, f: FileRef, k: Kind, k': Kind)
    ensures Bucket(Place(a, f, k), k') == Bucket(a, k') + (if k' == k then [f] else [])
  {
  }

  /** Placing files extends every bucket by the files labelled for it. */
  lemma {:induction false} PlaceAllBuckets(a: Analysis, fs: seq<FileRef>, kindOf: FileRef -> Kind, k: Kind)
    ensures Bucket(PlaceAll(a, fs, kindOf), k) == Bucket(a, k) + Select(fs, kindOf, k)
    decreases |fs|
  {
    if fs != [] {
      var init, last := fs[..|fs| - 1], fs[|fs| - 1];
      PlaceAllBuckets(a, init, kindOf, k);
      PlaceBucket(PlaceAll(a, init, kindOf), last, kindOf(last), k);
    }
  }

  /** Placing files leaves the two directory fields alone. */
  lemma {:induction false} PlaceAllKeepsDirs(a: Analysis, fs: seq<FileRef>, kindOf: FileRef -> Kind)
    ensures PlaceAll(a, fs, kindOf).mobileSubstratePath == a.mobileSubstratePath
    ensures PlaceAll(a, fs, kindOf).libraryPath == a.libraryPath
    decreases |fs|
  {
    if fs != [] {
      PlaceAllKeepsDirs(a, fs[..|fs| - 1], kindOf);
    }
  }

  lemma AddOneMore(m: multiset<FileRef>, init: seq<FileRef>, last: FileRef)
    ensures m + multiset(init) + multiset{last} == m + multiset(init + [last])
  {
    assert multiset(init + [last]) == multiset(init) + multiset{last};
  }

  /** Placing files adds exactly those files to the buckets. */
  lemma {:induction false} PlaceAllContents(a: Analysis, fs: seq<FileRef>, kindOf: FileRef -> Kind)
    ensures Contents(PlaceAll(a, fs, kindOf)) == Contents(a) + multiset(fs)
    decreases |fs|
  {
    if fs != [] {
      var init, last := fs[..|fs| - 1], fs[|fs| - 1];
      PlaceAllContents(a, init, kindOf);
      assert PlaceAll(a, fs, kindOf) == Place(PlaceAll(a, init, kindOf), last, kindOf(last));
      assert fs == init + [last];
      AddOneMore(Contents(a), init, last);
    }
  }

  /** Each bucket holds exactly the walked files the rule assigns to it, in
      walk order. */
  lemma {:induction false} BucketsAreFilters(walk: seq<Level>, k: Kind)
    ensures Bucket(Analyze(walk), k) == Select(AllFiles(walk), Classify, k)
    decreases |walk|
  {
    if walk != [] {
      var init, last := walk[..|walk| - 1], walk[|walk| - 1];
      BucketsAreFilters(init, k);
      PlaceAllBuckets(MarkDirs(Analyze(init), last), FilesOf(last.root, last.files), Classify, k);
      SelectConcat(AllFiles(init), FilesOf(last.root, last.files), Classify, k);
    }
  }

  /** The six buckets together hold every walked file exactly as often as
      the walk lists it: no file is lost and none is counted twice. */
  lemma {:induction false} AnalysisPartitionsFiles(walk: seq<Level>)
    ensures Contents(Analyze(walk)) == multiset(AllFiles(walk))
    decreases |walk|
  {
    if walk != [] {
      var init, last := walk[..|walk| - 1], walk[|walk| - 1];
      AnalysisPartitionsFiles(init);
      PlaceAllContents(MarkDirs(Analyze(init), last), FilesOf(last.root, last.files), Classify);
    }
  }

  /** A walked file is in bucket `k` exactly when the rule classifies it `k`. */
  lemma AnalysisBucketMembers(walk: seq<Level>, f: FileRef, k: Kind)
    ensures f in Bucket(Analyze(walk), k) <==> f in AllFiles(walk) && Classify(f) == k
  {
    BucketsAreFilters(walk, k);
    SelectMembers(AllFiles(walk), Classify, k, f);
  }

  /** The directory `dir` under the root of the last level that lists it,
      if any level does. */
  function LastListing(walk: seq<Level>, dir: string): (r: Option<string>)
    ensures r.Some? <==> exists i :: 0 <= i < |walk| && dir in walk[i].dirs
    ensures r.Some? ==>
      exists i :: (0 <= i < |walk| && dir in walk[i].dirs && r.value == Join(walk[i].root, dir) &&
                   forall j :: i < j < |walk| ==> dir !in walk[j].dirs)
    decreases |walk|
  {
    if walk == [] then None
    else
      var n := |walk| - 1;
      if dir in walk[n].dirs then Some(Join(walk[n].root, dir))
      else
        var r := LastListing(walk[..n], dir);
        assert forall i :: 0 <= i < n ==> walk[..n][i] == walk[i];
        r
  }

  /** `mobile_substrate_path` and `library_path` are overwritten at every
      level that lists the directory: each ends up naming it under the root of
      the last such level, and stays `None` when no level lists it. */
  lemma {:induction false} DirectoriesFound(walk: seq<Level>)
    ensures Analyze(walk).mobileSubstratePath == LastListing(walk, "MobileSubstrate")
    ensures Analyze(walk).libraryPath == LastListing(walk, "Library")
    decreases |walk|
  {
    if walk != [] {
      var init, last := walk[..|walk| - 1], walk[|walk| - 1];
      DirectoriesFound(init);
      PlaceAllKeepsDirs(MarkDirs(Analyze(init), last), FilesOf(last.root, last.files), Classify);
    }
  }
}
