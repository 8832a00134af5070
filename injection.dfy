/** The injection list of `DebMaster.patch_ipa_with_data_tar`: the load
    commands `@executable_path/...` built from the dylib and framework buckets
    of the tweak analysis, and the two ways building it fails.

    The copies into the app bundle are not modelled; what the list depends on
    from the filesystem (is a framework a directory, does its inner binary
    exist) is given as a `FileSystem` value. */
module Injection {
  import opened Wrappers
  import opened Text
  import opened PathNames
  import opened TweakAnalysis

  /** The paths that are directories and the paths that exist. */
  datatype FileSystem = FileSystem(directories: set<string>, existing: set<string>)

  /** The two errors raised while the list is built. */
  datatype InjectionError =
    | NoDylibsOrFrameworks   // "No dylibs or frameworks found in the tar archive"
    | NoLibrariesToInject    // "No libraries found to inject into the binary"

  /** `@executable_path/<name>` for a dylib. */
  function DylibEntry(f: FileRef): string
  {
    "@executable_path/" + f.name
  }

  /** `@executable_path/<name>/<stem>` for a framework. */
  function FrameworkEntry(f: FileRef): string
  {
    "@executable_path/" + f.name + "/" + Stem(f.name)
  }

  /** A framework contributes an entry when it is a directory and its inner
      binary `<framework>/<stem>` exists (the copy in the app bundle has it
      exactly when the original does). */
  predicate Injectable(f: FileRef, fs: FileSystem)
  {
    PathOf(f) in fs.directories && Join(PathOf(f), Stem(f.name)) in fs.existing
  }

  function DylibEntries(dylibs: seq<FileRef>): (r: seq<string>)
  {
    seq(|dylibs|, i requires 0 <= i < |dylibs| => DylibEntry(dylibs[i]))
  }

  function FrameworkEntries(frameworks: seq<FileRef>, fs: FileSystem): seq<string>
    decreases |frameworks|
  {
    if frameworks == [] then []
    else
      var last := frameworks[|frameworks| - 1];
      FrameworkEntries(frameworks[..|frameworks| - 1], fs) + (if Injectable(last, fs) then [FrameworkEntry(last)] else [])
  }

  /** `injected_libraries` once both loops have run. Bundles, preference files
      and the other buckets are copied but add nothing. */
  function InjectionList(a: Analysis, fs: FileSystem): seq<string>
  {
    DylibEntries(a.dylibs) + FrameworkEntries(a.frameworks, fs)
  }

  /** The list, or the error the source raises instead. */
  function Injections(a: Analysis, fs: FileSystem): (r: Result<seq<string>, InjectionError>)
    ensures r.Ok? ==> r.value != []
  {
    if a.dylibs == [] && a.frameworks == [] then Err(NoDylibsOrFrameworks)
    else if InjectionList(a, fs) == [] then Err(NoLibrariesToInject)
    else Ok(InjectionList(a, fs))
  }

  /** The two checks and the two loops that grow `injected_libraries`. */
  method BuildInjectionList(a: Analysis, fs: FileSystem) returns (r: Result<seq<string>, InjectionError>)
    ensures r == Injections(a, fs)
  {
    if a.dylibs == [] && a.frameworks == [] {
      return Err(NoDylibsOrFrameworks);
    }
    var injected: seq<string> := [];
    for i := 0 to |a.dylibs|
      invariant injected == DylibEntries(a.dylibs[..i])
    {
      injected := injected + ["@executable_path/" + a.dylibs[i].name];
    }
    assert a.dylibs[..|a.dylibs|] == a.dylibs;
    ghost var dylibPart := injected;
    for i := 0 to |a.frameworks|
      invariant injected == dylibPart + FrameworkEntries(a.frameworks[..i], fs)
    {
      var framework := a.frameworks[i];
      var path := PathOf(framework);
      if path in fs.directories {
        if Join(path, Stem(framework.name)) in fs.existing {
          injected := injected + ["@executable_path/" + framework.name + "/" + Stem(framework.name)];
        }
      }
      assert a.frameworks[..i + 1][..i] == a.frameworks[..i];
    }
    assert a.frameworks[..|a.frameworks|] == a.frameworks;
    if injected == [] {
      return Err(NoLibrariesToInject);
    }
    r := Ok(injected);
  }

  /** One more framework adds its entry when it is injectable. */
  lemma FrameworkEntriesSnoc(frameworks: seq<FileRef>, f: FileRef, fs: FileSystem)
    ensures FrameworkEntries(frameworks + [f], fs) ==
      FrameworkEntries(frameworks, fs) + (if Injectable(f, fs) then [FrameworkEntry(f)] else [])
  {
    assert (frameworks + [f])[..|frameworks|] == frameworks;
  }

  /** The framework part holds exactly the entries of the injectable
      frameworks. */
  lemma {:induction false} FrameworkEntriesMembers(frameworks: seq<FileRef>, fs: FileSystem, e: string)
    ensures e in FrameworkEntries(frameworks, fs) <==>
      exists f :: f in frameworks && Injectable(f, fs) && e == FrameworkEntry(f)
    decreases |frameworks|
  {
    if frameworks != [] {
      var init, last := frameworks[..|frameworks| - 1], frameworks[|frameworks| - 1];
      assert frameworks == init + [last];
      FrameworkEntriesMembers(init, fs, e);
      FrameworkEntriesSnoc(init, last, fs);
      if e in FrameworkEntries(frameworks, fs) {
        if !(Injectable(last, fs) && e == FrameworkEntry(last)) {
          var f :| f in init && Injectable(f, fs) && e == FrameworkEntry(f);
          assert f in frameworks;
        }
      } else {
        forall f | f in frameworks && Injectable(f, fs) ensures e != FrameworkEntry(f) {
          if f != last {
            assert f in init;
          }
        }
      }
    }
  }

  /** The framework part is empty exactly when no framework is injectable. */
  lemma {:induction false} FrameworkEntriesEmpty(frameworks: seq<FileRef>, fs: FileSystem)
    ensures FrameworkEntries(frameworks, fs) == [] <==> forall f :: f in frameworks ==> !Injectable(f, fs)
    decreases |frameworks|
  {
    if frameworks != [] {
      var init, last := frameworks[..|frameworks| - 1], frameworks[|frameworks| - 1];
      assert frameworks == init + [last];
      FrameworkEntriesEmpty(init, fs);
      FrameworkEntriesSnoc(init, last, fs);
      if FrameworkEntries(frameworks, fs) == [] {
        forall f | f in frameworks ensures !Injectable(f, fs) {
          if f != last {
            assert f in init;
          }
        }
      }
    }
  }

  /** What building the list gives: it fails with `NoDylibsOrFrameworks`
      exactly when both buckets are empty, with `NoLibrariesToInject` exactly
      when there is no dylib and frameworks exist but none is injectable, and
      otherwise gives one entry per dylib in bucket order followed by one entry
      per injectable framework. */
  lemma InjectionsOutcome(a: Analysis, fs: FileSystem)
    ensures Injections(a, fs) == Err(NoDylibsOrFrameworks) <==> a.dylibs == [] && a.frameworks == []
    ensures Injections(a, fs) == Err(NoLibrariesToInject) <==>
      a.dylibs == [] && a.frameworks != [] && forall f :: f in a.frameworks ==> !Injectable(f, fs)
    ensures Injections(a, fs).Ok? ==>
      var list := Injections(a, fs).value;
      |list| >= |a.dylibs| &&
      (forall i :: 0 <= i < |a.dylibs| ==> list[i] == "@executable_path/" + a.dylibs[i].name) &&
      (forall e :: e in list[|a.dylibs|..] <==>
         exists f :: f in a.frameworks && Injectable(f, fs) && e == FrameworkEntry(f))
  {
    FrameworkEntriesEmpty(a.frameworks, fs);
    var list := InjectionList(a, fs);
    assert list[|a.dylibs|..] == FrameworkEntries(a.frameworks, fs);
    forall e ensures e in list[|a.dylibs|..] <==>
        exists f :: f in a.frameworks && Injectable(f, fs) && e == FrameworkEntry(f) {
      FrameworkEntriesMembers(a.frameworks, fs, e);
    }
  }

  /** Every entry is an `@executable_path/` load command. */
  lemma InjectionEntriesArePrefixed(a: Analysis, fs: FileSystem, e: string)
    requires e in InjectionList(a, fs)
    ensures StartsWith(e, "@executable_path/")
  {
    var list := InjectionList(a, fs);
    var i :| 0 <= i < |list| && list[i] == e;
    if i >= |a.dylibs| {
      assert e in FrameworkEntries(a.frameworks, fs);
      FrameworkEntriesMembers(a.frameworks, fs, e);
    }
  }

  /** `os.walk` lists directories under `dirs`, never under `files`: no walked
      file is a directory of the filesystem. */
  predicate WalkMatches(walk: seq<Level>, fs: FileSystem)
  {
    forall l, name :: l in walk && name in l.files ==> Join(l.root, name) !in fs.directories
  }

  lemma {:induction false} AllFilesFromLevels(walk: seq<Level>, f: FileRef)
    requires f in AllFiles(walk)
    ensures exists l :: l in walk && l.root == f.root && f.name in l.files
    decreases |walk|
  {
    var init, last := walk[..|walk| - 1], walk[|walk| - 1];
    if f in AllFiles(init) {
      AllFilesFromLevels(init, f);
      var l :| l in init && l.root == f.root && f.name in l.files;
      assert l in walk;
    } else {
      var fs := FilesOf(last.root, last.files);
      var i :| 0 <= i < |fs| && fs[i] == f;
      assert last.files[i] == f.name;
    }
  }

  /** Because the framework bucket is filled from walked files, and a walked
      file is never a directory, no framework ever passes the `is_dir` test:
      the list is the dylib entries alone, and a tweak with frameworks but no
      dylib always fails with `NoLibrariesToInject`. */
  lemma FrameworkFilesNeverInjected(walk: seq<Level>, fs: FileSystem)
    requires WalkMatches(walk, fs)
    ensures InjectionList(Analyze(walk), fs) == DylibEntries(Analyze(walk).dylibs)
    ensures Analyze(walk).dylibs == [] && Analyze(walk).frameworks != [] ==>
      Injections(Analyze(walk), fs) == Err(NoLibrariesToInject)
  {
    var a := Analyze(walk);
    forall f | f in a.frameworks ensures !Injectable(f, fs) {
      AnalysisBucketMembers(walk, f, Framework);
      AllFilesFromLevels(walk, f);
    }
    FrameworkEntriesEmpty(a.frameworks, fs);
    assert InjectionList(a, fs) == DylibEntries(a.dylibs) + [];
  }
}
