/** `DebMaster._process_releases`: a GitHub release list reduced to the
    releases that publish at least one `.deb` asset, each with just those
    assets. */
module Releases {
  import opened Wrappers
  import opened Text

  /** One asset of a release as the GitHub API returns it (the two keys read). */
  datatype Asset = Asset(name: string, browserDownloadUrl: string)

  /** One release as the GitHub API returns it. `assets` is `None` when the key
      is absent, which the source reads as an empty list. */
  datatype Release = Release(name: string, tagName: string, publishedAt: string, assets: Option<seq<Asset>>)

  /** `{'name', 'download_url'}` */
  datatype DebAsset = DebAsset(name: string, downloadUrl: string)

  /** `{'name', 'tag_name', 'published_at', 'deb_assets'}` */
  datatype DebRelease = DebRelease(name: string, tagName: string, publishedAt: string, debAssets: seq<DebAsset>)

  /** `r.get('assets', [])` */
  function AssetsOf(r: Release): seq<Asset>
  {
    match r.assets
    case Some(a) => a
    case None => []
  }

  /** The asset filter: the lower-cased name ends in `.deb`. */
  predicate IsDeb(a: Asset)
  {
    EndsWith(Lower(a.name), ".deb")
  }

  function ToDebAsset(a: Asset): DebAsset
  {
    DebAsset(a.name, a.browserDownloadUrl)
  }

  /** The list comprehension over one release's assets. */
  function DebAssets(assets: seq<Asset>): seq<DebAsset>
    decreases |assets|
  {
    if assets == [] then []
    else
      var last := assets[|assets| - 1];
      DebAssets(assets[..|assets| - 1]) + (if IsDeb(last) then [ToDebAsset(last)] else [])
  }

  /** What one release contributes to the processed list. */
  function Keep(r: Release): seq<DebRelease>
  {
    var deb := DebAssets(AssetsOf(r));
    if deb != [] then [DebRelease(r.name, r.tagName, r.publishedAt, deb)] else []
  }

  /** The processed list, release by release in input order. */
  function DebReleases(releases: seq<Release>): seq<DebRelease>
    decreases |releases|
  {
    if releases == [] then []
    else DebReleases(releases[..|releases| - 1]) + Keep(releases[|releases| - 1])
  }

  /** `_process_releases`: grows `processed` by one entry per release that has
      a `.deb` asset. */
  method ProcessReleases(releases: seq<Release>) returns (processed: seq<DebRelease>)
    ensures processed == DebReleases(releases)
  {
    processed := [];
    for i := 0 to |releases|
      invariant processed == DebReleases(releases[..i])
    {
      var r := releases[i];
      var assets := DebAssets(AssetsOf(r));
      if assets != [] {
        processed := processed + [DebRelease(r.name, r.tagName, r.publishedAt, assets)];
      }
      assert releases[..i + 1][..i] == releases[..i];
    }
    assert releases[..|releases|] == releases;
  }

  /** Appending one asset appends its entry when it is a `.deb`. */
  lemma DebAssetsSnoc(s: seq<Asset>, a: Asset)
    ensures DebAssets(s + [a]) == DebAssets(s) + (if IsDeb(a) then [ToDebAsset(a)] else [])
  {
    assert (s + [a])[..|s|] == s;
  }

  /** The asset filter keeps exactly the `.deb` assets, as `{name, download_url}`. */
  lemma {:induction false} DebAssetsExact(assets: seq<Asset>, d: DebAsset)
    ensures d in DebAssets(assets) <==> exists a :: a in assets && IsDeb(a) && d == ToDebAsset(a)
    decreases |assets|
  {
    if assets != [] {
      var init, last := assets[..|assets| - 1], assets[|assets| - 1];
      assert assets == init + [last];
      DebAssetsExact(init, d);
      DebAssetsSnoc(init, last);
      if d in DebAssets(assets) {
        if !(IsDeb(last) && d == ToDebAsset(last)) {
          var a :| a in init && IsDeb(a) && d == ToDebAsset(a);
          assert a in assets;
        }
      } else {
        forall a | a in assets && IsDeb(a) ensures d != ToDebAsset(a) {
          if a != last {
            assert a in init;
          }
        }
      }
    }
  }

  /** Appending one release appends what it contributes. */
  lemma DebReleasesSnoc(s: seq<Release>, r: Release)
    ensures DebReleases(s + [r]) == DebReleases(s) + Keep(r)
  {
    assert (s + [r])[..|s|] == s;
  }

  /** The processed list of a concatenation is the concatenation of the
      processed lists: input order is kept. */
  lemma {:induction false} DebReleasesConcat(a: seq<Release>, b: seq<Release>)
    ensures DebReleases(a + b) == DebReleases(a) + DebReleases(b)
    decreases |b|
  {
    if b == [] {
      assert a + b == a;
    } else {
      var init, last := b[..|b| - 1], b[|b| - 1];
      var ai := a + init;
      var ab := ai + [last];
      assert ab == a + b;
      DebReleasesConcat(a, init);
      DebReleasesSnoc(ai, last);
      var ra, ri, k := DebReleases(a), DebReleases(init), Keep(last);
      assert DebReleases(a + b) == ra + ri + k;
      assert DebReleases(b) == ri + k;
      assert ra + ri + k == ra + (ri + k);
    }
  }

  /** Never more releases out than in. */
  lemma {:induction false} DebReleasesBound(releases: seq<Release>)
    ensures |DebReleases(releases)| <= |releases|
    decreases |releases|
  {
    if releases != [] {
      DebReleasesBound(releases[..|releases| - 1]);
    }
  }

  /** The processed list holds exactly what the releases contribute. */
  lemma {:induction false} DebReleasesFromKeep(releases: seq<Release>, d: DebRelease)
    ensures d in DebReleases(releases) <==> exists r :: r in releases && d in Keep(r)
    decreases |releases|
  {
    if releases != [] {
      var init, last := releases[..|releases| - 1], releases[|releases| - 1];
      assert releases == init + [last];
      DebReleasesFromKeep(init, d);
      DebReleasesSnoc(init, last);
      if d in DebReleases(releases) {
        if d !in Keep(last) {
          var r :| r in init && d in Keep(r);
          assert r in releases;
        }
      } else {
        forall r | r in releases ensures d !in Keep(r) {
          if r != last {
            assert r in init;
          }
        }
      }
    }
  }

  /** A processed entry is exactly a release that has a `.deb` asset, carrying
      its name, tag, date and its `.deb` assets, none of them empty. */
  lemma DebReleasesMembers(releases: seq<Release>, d: DebRelease)
    ensures d in DebReleases(releases) <==>
      exists r :: r in releases && DebAssets(AssetsOf(r)) != [] &&
        d == DebRelease(r.name, r.tagName, r.publishedAt, DebAssets(AssetsOf(r)))
  {
    DebReleasesFromKeep(releases, d);
  }

  /** The result is empty exactly when no release has a `.deb` asset. */
  lemma {:induction false} DebReleasesEmpty(releases: seq<Release>)
    ensures DebReleases(releases) == [] <==> forall r :: r in releases ==> DebAssets(AssetsOf(r)) == []
    decreases |releases|
  {
    if releases != [] {
      var init, last := releases[..|releases| - 1], releases[|releases| - 1];
      assert releases == init + [last];
      DebReleasesEmpty(init);
      DebReleasesSnoc(init, last);
      if DebReleases(releases) == [] {
        forall r | r in releases ensures DebAssets(AssetsOf(r)) == [] {
          if r != last {
            assert r in init;
          }
        }
      }
    }
  }
}
