/** The file names `DebMaster.py` derives: the downloaded `.deb`'s name from
    its URL, and the names of the three kinds of output `.ipa`. */
module Naming {
  import opened Wrappers
  import opened Text
  import opened PathNames

  /** `download_url.split('/')[-1]` */
  function DownloadFilename(url: string): (name: string)
    ensures '/' !in name
  {
    var parts := Split(url, '/');
    assert parts[|parts| - 1] in parts;
    parts[|parts| - 1]
  }

  /** The download filename is everything after the URL's last `/` (the whole
      URL when it has none), so it never holds a `/`. */
  lemma DownloadFilenameIsLastSegment(url: string)
    ensures '/' !in DownloadFilename(url)
    ensures EndsWith(url, DownloadFilename(url))
    ensures |DownloadFilename(url)| < |url| ==> url[|url| - |DownloadFilename(url)| - 1] == '/'
    ensures '/' !in url ==> DownloadFilename(url) == url
  {
    var parts := Split(url, '/');
    assert DownloadFilename(url) == parts[|parts| - 1];
    SplitJoin(url, '/');
    LastOfJoin(url, parts, '/');
  }

  /** A URL `<base>/<file>` downloads to `<file>`, whatever `<base>` holds. */
  lemma DownloadFilenameOfUrl(base: string, file: string)
    requires '/' !in file
    ensures DownloadFilename(base + "/" + file) == file
  {
    assert base + "/" + file == base + ['/'] + file;
    SplitConcat(base, file, '/');
    SplitNoSeparator(file, '/');
  }

  /** `Path(download_dir) / filename`: the downloaded file sits directly in the
      download directory under the derived name, unless that name is empty or
      `.`. */
  lemma DownloadedPathName(downloadDir: string, url: string)
    requires DownloadFilename(url) != "" && DownloadFilename(url) != "."
    ensures Name(Join(downloadDir, DownloadFilename(url))) == DownloadFilename(url)
  {
    DownloadFilenameIsLastSegment(url);
    NameOfJoin(downloadDir, DownloadFilename(url));
  }

  /** `f"{ipa_path.stem}-patched-{data_tar_path.stem}.ipa"` */
  function DataTarOutputName(ipaPath: string, dataTarPath: string): (name: string)
    ensures '/' !in name
  {
    StemOfNameHasNoSlash(ipaPath);
    StemOfNameHasNoSlash(dataTarPath);
    Stem(Name(ipaPath)) + "-patched-" + Stem(Name(dataTarPath)) + ".ipa"
  }

  /** `f"{ipa_path.stem}-patched.ipa"` */
  function LegacyOutputName(ipaPath: string): (name: string)
    ensures '/' !in name
  {
    StemOfNameHasNoSlash(ipaPath);
    Stem(Name(ipaPath)) + "-patched.ipa"
  }

  /** `output_name or deb_path.stem + '.ipa'`: an absent or empty output name
      falls back to the `.deb`'s stem. */
  function ConversionOutputName(outputName: Option<string>, debPath: string): (name: string)
    ensures name != ""
  {
    if outputName.Some? && outputName.value != "" then outputName.value
    else Stem(Name(debPath)) + ".ipa"
  }

  /** A stem never holds a `/`. */
  lemma StemOfNameHasNoSlash(p: string)
    ensures '/' !in Stem(Name(p))
  {
    StemSuffixSplit(Name(p));
    assert Stem(Name(p)) == Name(p)[..|Stem(Name(p))|];
  }

  /** An output name `<base>.ipa` is an `.ipa` file named after `<base>`, and
      the output path `output_dir / name` keeps it as its file name. */
  lemma IpaName(outputDir: string, base: string)
    requires base != "" && '/' !in base
    ensures Suffix(base + ".ipa") == ".ipa" && Stem(base + ".ipa") == base
    ensures Name(Join(outputDir, base + ".ipa")) == base + ".ipa"
  {
    assert base + ".ipa" == base + "." + "ipa";
    StemOfDotted(base, "ipa");
    NameOfJoin(outputDir, base + ".ipa");
  }

  /** The patched names built from two `/`-free stems. */
  lemma PatchedIpaNames(outputDir: string, app: string, tar: string)
    requires '/' !in app && '/' !in tar
    ensures var n := app + "-patched-" + tar + ".ipa";
      Suffix(n) == ".ipa" && Stem(n) == app + "-patched-" + tar && Name(Join(outputDir, n)) == n
    ensures var n := app + "-patched.ipa";
      Suffix(n) == ".ipa" && Stem(n) == app + "-patched" && Name(Join(outputDir, n)) == n
  {
    var b := app + "-patched-" + tar;
    assert '/' !in b;
    IpaName(outputDir, b);
    var l := app + "-patched";
    assert '/' !in l;
    IpaName(outputDir, l);
    assert app + "-patched.ipa" == l + ".ipa";
  }

  /** The two patch outputs are `.ipa` files in the output directory whose
      stems name their inputs. */
  lemma PatchOutputNames(outputDir: string, ipaPath: string, dataTarPath: string)
    ensures var n := DataTarOutputName(ipaPath, dataTarPath);
      Suffix(n) == ".ipa" && Stem(n) == Stem(Name(ipaPath)) + "-patched-" + Stem(Name(dataTarPath)) &&
      Name(Join(outputDir, n)) == n
    ensures var n := LegacyOutputName(ipaPath);
      Suffix(n) == ".ipa" && Stem(n) == Stem(Name(ipaPath)) + "-patched" &&
      Name(Join(outputDir, n)) == n
  {
    StemOfNameHasNoSlash(ipaPath);
    StemOfNameHasNoSlash(dataTarPath);
    PatchedIpaNames(outputDir, Stem(Name(ipaPath)), Stem(Name(dataTarPath)));
  }

  /** `<dir>/<app>.ipa` patched with `<dir'>/<base>.<ext>` gives
      `<app>-patched-<base>.ipa`: for `data.tar.xz` the tar stem is `data.tar`. */
  lemma DataTarOutputNameOf(ipaDir: string, app: string, tarDir: string, tarBase: string, tarExt: string)
    requires app != "" && '/' !in app
    requires tarBase != "" && '/' !in tarBase && tarExt != "" && '/' !in tarExt && '.' !in tarExt
    ensures DataTarOutputName(Join(ipaDir, app + ".ipa"), Join(tarDir, tarBase + "." + tarExt)) ==
      app + "-patched-" + tarBase + ".ipa"
    ensures LegacyOutputName(Join(ipaDir, app + ".ipa")) == app + "-patched.ipa"
  {
    IpaName(ipaDir, app);
    NameOfJoin(tarDir, tarBase + "." + tarExt);
    StemOfDotted(tarBase, tarExt);
  }

  /** A given, non-empty output name is used as is; otherwise a `.deb` at
      `<dir>/<base>.deb` converts to `<base>.ipa`. */
  lemma ConversionOutputNameOf(outputName: Option<string>, debDir: string, base: string)
    requires base != "" && '/' !in base
    ensures outputName.Some? && outputName.value != "" ==>
      ConversionOutputName(outputName, Join(debDir, base + ".deb")) == outputName.value
    ensures outputName == None || outputName == Some("") ==>
      ConversionOutputName(outputName, Join(debDir, base + ".deb")) == base + ".ipa"
  {
    assert base + ".deb" == base + "." + "deb";
    NameOfJoin(debDir, base + ".deb");
    StemOfDotted(base, "deb");
  }

  /** From download to conversion: the `.deb` at `<anything>/<base>.deb`,
      saved in the download directory and converted without an output name,
      becomes `<base>.ipa`. */
  lemma DownloadedDebConvertsTo(downloadDir: string, urlBase: string, base: string)
    requires base != "" && '/' !in base
    ensures var url := urlBase + "/" + base + ".deb";
      ConversionOutputName(None, Join(downloadDir, DownloadFilename(url))) == base + ".ipa"
  {
    var url := urlBase + "/" + base + ".deb";
    assert url == urlBase + "/" + (base + ".deb");
    DownloadFilenameOfUrl(urlBase, base + ".deb");
    ConversionOutputNameOf(None, downloadDir, base);
  }
}
