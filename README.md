# DebMaster decision rules in Dafny

DebMaster (`backend/DebMaster.py`) converts jailbreak `.deb` packages into
`.ipa` application archives. It can also patch an existing `.ipa` with a tweak:
it copies the tweak's dynamic libraries into the app bundle and adds load
commands for them to the app's Mach-O binary. This project models the
deterministic decisions the program makes along the way, and proves what they
guarantee:

- `Releases`: filtering GitHub release records down to the releases that carry
  `.deb` assets (`_process_releases`). It is modelled imperatively, as a loop
  proved equal to a specification function.
- `GitHub`: turning a repository URL into the GitHub releases API URL. This
  covers the part of Python's `urlparse` that computes the path, then
  `strip('/')`, `split('/')` and the owner/repository lookup, including its
  failures.
- `Naming`: the file names the program chooses. These are the downloaded file
  name (`url.split('/')[-1]`), the converted `.ipa` name, and the two patched
  `.ipa` names.
- `TweakAnalysis`: `_analyze_tweak_structure`. It walks a directory tree level
  by level, remembers the `MobileSubstrate` and `Library` directories, and sorts
  each file into the first bucket whose test it passes. It is modelled
  imperatively, as nested loops proved equal to a fold.
- `Injection`: building the list of `@executable_path/...` entries from the
  analysis, with the two errors the source raises.
- `Slices`: choosing which Mach-O slices of a fat binary are patched. The
  data-tar route patches every ARM slice, falls back to all slices, and adds a
  slice whose CPU type cannot be read. The legacy route takes the first ARM64
  slice, falls back to the first slice, and fails on an empty fat binary. This
  module also covers the library-by-slice injection plan.
- `Cli`: the command-line dispatch (the first requested operation wins) and the
  exit status.
- `Text` and `PathNames` supply Python's string and `PurePosixPath` semantics
  (`lower`, `endswith`, `in`, `split`, `strip`, `/`, `.name`, `.stem`,
  `.suffix`) as specification functions with their own lemmas.

The Mach-O CPU codes are the numeric fallback the source itself uses: 12 for
ARM64 and 7 for ARM. In the Mach-O headers, 12 is `CPU_TYPE_ARM`, 7 is
`CPU_TYPE_X86`, and ARM64 is `0x0100000C`. The model keeps the source's
numbers, because those are what the fallback branch compares against.

`backend/DebMaster.py` reports progress only by printing one JSON line per
event (lines 92-95). Whatever supervises the process and reads those lines
lives outside this file and is not modelled.

## Model

| member | source | states |
|---|---|---|
| Releases.ProcessReleases | backend/DebMaster.py:109-115 | The loop over releases returns exactly the specification list `DebReleases`: order is kept, and releases without `.deb` assets are dropped. |
| Releases.DebAssetsExact | backend/DebMaster.py:112-113 | An asset record is kept if and only if it comes from an asset whose lower-cased name ends in `.deb`, projected to name and download URL. |
| Releases.DebReleasesMembers | backend/DebMaster.py:111-114 | A processed release appears if and only if some input release has a non-empty `.deb` asset list, and it carries that release's name, tag, date and exactly those assets. |
| Releases.DebReleasesEmpty | backend/DebMaster.py:114 | The result is empty if and only if no release has a `.deb` asset; a missing `assets` key counts as no assets. |
| Releases.DebReleasesConcat | backend/DebMaster.py:111-114 | Processing distributes over concatenation: each release is judged independently, in order. |
| Releases.DebReleasesBound | backend/DebMaster.py:111-114 | There are never more processed releases than input releases. |
| Text.SplitJoin | backend/DebMaster.py:99 | Joining the parts of `split` with the same separator gives back the original string, so splitting loses no characters. |
| GitHub.LStripC0 | backend/DebMaster.py:99 | `urlparse`'s leading strip removes exactly the longest prefix of C0 control characters and spaces: the result is a suffix of the input, everything removed is such a character, and the result does not start with one. |
| GitHub.RemoveUnsafe | backend/DebMaster.py:99 | `urlparse`'s removal of tab, CR and LF keeps exactly the other characters of the input: every kept character comes from the input and is not one of the three, and every other character of the input is kept. |
| GitHub.RemoveUnsafeConcat | backend/DebMaster.py:99 | The removal works piece by piece (`RemoveUnsafe(a + b) == RemoveUnsafe(a) + RemoveUnsafe(b)`), so the kept characters stay in their order. |
| GitHub.FirstDelim | backend/DebMaster.py:99 | The end of the network location is the first `/`, `?` or `#`, or the end of the string. |
| GitHub.CutAt | backend/DebMaster.py:99 | Cutting the fragment or the query keeps a prefix that no longer contains the cut character, and the cut falls at the first occurrence of that character or at the end of the string. |
| GitHub.SplitParams | backend/DebMaster.py:99 | Removing `;params` keeps a prefix of the path. When something is cut, the cut starts at a `;` after the last `/`. Every `;` that is kept has a `/` after it, so the cut is at the first `;` of the last segment. |
| GitHub.UrlPath | backend/DebMaster.py:99 | `urlparse(url).path`: a parse can only fail with the invalid-IPv6 error, and a parsed path holds neither `?` nor `#`. `PathAfterScheme` adds that the path is a prefix of what follows the network location. `UrlPathOfHttps` gives the exact path of a repository URL. |
| GitHub.PathAfterScheme | backend/DebMaster.py:99 | The path is a prefix of what follows the network location, with the query and the fragment cut off; the only failure is the invalid-IPv6 error. |
| GitHub.UrlPathOfHttps | backend/DebMaster.py:99 | For `https://host/path` with a plain host and no query, fragment or parameters in the path, `urlparse(...).path` is exactly `/path`, also when a `?query` or `#fragment` follows. |
| GitHub.ReleasesApiUrl | backend/DebMaster.py:99-101 | A failed `urlparse` makes the lookup fail with the same invalid-IPv6 error, and that error comes from nowhere else. A success is the releases endpoint of a `/`-free owner and repository; `ReleasesApiUrlOutcome` says which ones. |
| GitHub.ApiUrlOfRepositoryUrl | backend/DebMaster.py:99-101 | `https://host/owner/repo[/...][?query or #fragment]` yields `https://api.github.com/repos/owner/repo/releases`, whatever follows the repository. |
| GitHub.ReleasesApiUrlOutcome | backend/DebMaster.py:99-101 | Once the URL parses, the lookup fails with the missing-owner-or-repository error if and only if the stripped path has no `/`. Otherwise the stripped path reads `<owner>/<repo>` followed by nothing or further `/` segments, with `/`-free owner and repository (its first two parts), and the endpoint names that owner and repository. |
| GitHub.OwnerOnlyUrlFails | backend/DebMaster.py:99-100 | `https://host/owner` and `https://host/owner/` both fail at `path_parts[1]`. |
| GitHub.UnmatchedBracketFails | backend/DebMaster.py:99 | A host with an unmatched `[` or `]` makes `urlparse` raise its invalid-IPv6 error, whatever repository path follows the host. |
| Naming.DownloadFilename | backend/DebMaster.py:118 | `download_url.split('/')[-1]` never holds a `/`; `DownloadFilenameIsLastSegment` places it at the end of the URL. |
| Naming.DownloadFilenameIsLastSegment | backend/DebMaster.py:118 | The downloaded file name is the URL's last `/`-separated segment: it has no `/`, it ends the URL, a `/` precedes it, and it is the whole URL when the URL has no `/`. |
| Naming.DownloadFilenameOfUrl | backend/DebMaster.py:118 | For `base/file`, where `file` has no `/`, the downloaded file name is `file`. |
| Naming.DownloadedPathName | backend/DebMaster.py:118-119 | Joining the file name under the download directory keeps that name as the path's final component. |
| PathNames.NameOfJoin | backend/DebMaster.py:119 | `Path(dir) / name` has final component `name` when `name` is a single non-empty component. |
| PathNames.StemSuffixSplit | backend/DebMaster.py:146 | A file name is its stem followed by its suffix. A non-empty name has a non-empty stem. A suffix is empty or a dot followed by at least one character and no further dot. |
| Naming.ConversionOutputName | backend/DebMaster.py:146 | `output_name or deb_path.stem + '.ipa'` is never empty; `ConversionOutputNameOf` says which name is taken. |
| Naming.ConversionOutputNameOf | backend/DebMaster.py:146 | The converted `.ipa` is named by the caller's non-empty output name, or else by the `.deb` file's stem plus `.ipa`. |
| Naming.DownloadedDebConvertsTo | backend/DebMaster.py:146 | Downloading `.../base.deb` (line 118) and converting it produces `base.ipa` in the output directory. |
| Naming.DataTarOutputName | backend/DebMaster.py:416 | The data-tar route's output name is a single path component; `PatchOutputNames` gives its suffix and stem. |
| Naming.LegacyOutputName | backend/DebMaster.py:547 | The legacy route's output name is a single path component; `PatchOutputNames` gives its suffix and stem. |
| Naming.PatchOutputNames | backend/DebMaster.py:416 | Both patched names (here and at line 547) are single path components ending in `.ipa`, with stems `<app>-patched-<tar>` and `<app>-patched`. |
| Naming.DataTarOutputNameOf | backend/DebMaster.py:547 | For `app.ipa` and `base.ext`, the patched names are `app-patched-base.ipa` (line 416) and `app-patched.ipa`. |
| TweakAnalysis.Matches | backend/DebMaster.py:242-251 | The test of each bucket on its own: a suffix of the lower-cased file name, plus, for the two `.plist` buckets, a substring of the lower-cased full path; the final `else` always passes. Its meaning in the chain is stated by `ClassifyIsFirstMatch`. |
| TweakAnalysis.Classify | backend/DebMaster.py:242-253 | The bucket the `if`/`elif` chain picks passes its own test (`Matches`); `ClassifyIsFirstMatch` adds that no earlier test passes. |
| TweakAnalysis.ClassifyIsFirstMatch | backend/DebMaster.py:242-253 | A file goes to bucket `k` if and only if it passes `k`'s test and fails the test of every earlier bucket of the `if`/`elif` chain. |
| TweakAnalysis.FirstMatchIsFirst | backend/DebMaster.py:242-253 | The first-match selection over the bucket order picks the first passing test; the final `else` always passes. |
| TweakAnalysis.Place | backend/DebMaster.py:243-253 | Appending a file adds exactly that file to the analysis's contents, and leaves both directory fields alone. |
| TweakAnalysis.AppendFile | backend/DebMaster.py:239-253 | The `if`/`elif` chain for one file appends it to the bucket that classification picks, and changes nothing else. |
| TweakAnalysis.AnalyzeFiles | backend/DebMaster.py:238-253 | The inner loop over one level's files equals appending them in order. |
| TweakAnalysis.AnalyzeTweakStructure | backend/DebMaster.py:213-256 | The whole walk, starting from empty buckets and `None` directories, equals the specification fold `Analyze`. |
| TweakAnalysis.BucketsAreFilters | backend/DebMaster.py:226-253 | Each bucket is exactly the walk's files whose classification is that bucket, in walk order. |
| TweakAnalysis.AnalysisPartitionsFiles | backend/DebMaster.py:226-253 | The buckets together hold every walked file exactly once; no file is lost or duplicated. |
| TweakAnalysis.AnalysisBucketMembers | backend/DebMaster.py:226-253 | A file is in bucket `k` if and only if it was walked and classifies as `k`. |
| TweakAnalysis.LastListing | backend/DebMaster.py:226-235 | A directory is found if and only if some level lists it; the path found is under the root of the last such level. |
| TweakAnalysis.DirectoriesFound | backend/DebMaster.py:226-235 | `mobile_substrate_path` and `library_path` are the join of the directory name with the last level whose `dirs` lists it, or `None`. |
| Injection.Injections | backend/DebMaster.py:312-355 | A successful build never yields an empty list; `InjectionsOutcome` states both errors and the list. |
| Injection.BuildInjectionList | backend/DebMaster.py:312-355 | The copy-and-collect phase returns exactly the specification result `Injections`, errors included. |
| Injection.InjectionsOutcome | backend/DebMaster.py:312-355 | With no dylibs and no frameworks, it fails with the first error. With no dylibs and no injectable framework, it fails with the second error. On success, the list is one entry per dylib in order, followed by exactly the entries of the injectable frameworks. |
| Injection.FrameworkEntriesMembers | backend/DebMaster.py:327-336 | A framework entry is produced if and only if the framework is a directory and its inner binary exists, and it reads `@executable_path/<name>/<stem>`. |
| Injection.FrameworkEntriesEmpty | backend/DebMaster.py:327-336 | No framework entry is produced if and only if no framework is injectable. |
| Injection.InjectionEntriesArePrefixed | backend/DebMaster.py:320-336 | Every entry starts with `@executable_path/`. |
| Injection.FrameworkFilesNeverInjected | backend/DebMaster.py:327-336 | When the file system agrees with the walk of lines 226-253, `.framework` names found among files are never directories. Only dylibs are injected, and a tweak with frameworks but no dylibs always fails with the second error. |
| Slices.WantedSlices | backend/DebMaster.py:368-387 | The selected slices are valid indices of the fat binary. |
| Slices.SelectPatchTargets | backend/DebMaster.py:366-396 | The architecture loop, its fallback and the thin case equal the specification `SelectedTargets`. |
| Slices.WantedSlicesExact | backend/DebMaster.py:368-387 | Slice `i` is chosen if and only if its CPU type is non-zero and is 12 or 7, or cannot be read; chosen slices keep the fat binary's order. |
| Slices.WantedSlicesEmpty | backend/DebMaster.py:389-392 | Nothing is chosen if and only if no slice is wanted. |
| Slices.SelectedTargetsRule | backend/DebMaster.py:366-396 | A thin binary is patched whole. A fat binary has its wanted slices patched, or all of them when none is wanted. An unreadable slice is always patched. The result is empty only for an empty fat binary. |
| Slices.PlanInjections | backend/DebMaster.py:399-406 | The nested loops issue one `add_library` per slice and library, slice-major. |
| Slices.InjectionPlanComplete | backend/DebMaster.py:399-406 | The plan has `slices × libraries` calls, and a call is in the plan if and only if both its slice and its library are. |
| Slices.FirstArm64 | backend/DebMaster.py:504-524 | The legacy scan finds the first slice whose CPU type is 12. Earlier slices are skipped, whether unreadable or of another type. If none is found, no slice is 12. |
| Slices.SelectLegacyTarget | backend/DebMaster.py:502-534 | The legacy loop with its `break`, `continue` and fallback equals the specification `LegacyTarget`. |
| Slices.LegacyChoiceIsSelected | backend/DebMaster.py:502-534 | When the fat binary holds an ARM64 slice, or no slice the data-tar route wants, the legacy route's slice is also one the data-tar route (lines 366-396) patches. |
| Slices.UnreadableSlice | backend/DebMaster.py:502-532 | For every fat binary and every slice whose CPU type cannot be read: the data-tar route (lines 385-387) always patches it. The legacy route chooses it if and only if it is the first slice and no slice is ARM64, because the scan skips it and only the first-slice fallback can land on it. |
| Cli.Dispatch | backend/DebMaster.py:570-581 | The operation `main` runs is one the options ask for; `DispatchIsFirstRequested` adds that no earlier branch of the chain is asked for. |
| Cli.DispatchIsFirstRequested | backend/DebMaster.py:570-581 | The operation run is requested by the arguments, and no earlier operation in the `elif` chain is. |
| Cli.DispatchArguments | backend/DebMaster.py:570-579 | Each operation receives exactly the argument values that selected it. |
| Cli.DataTarBeatsTweak | backend/DebMaster.py:576-579 | With `--patch`, both `--with-data-tar` and `--with-tweak` given, the data-tar route is taken. |
| Cli.HelpWhenNothingRequested | backend/DebMaster.py:580-581 | Help is printed if and only if no operation is requested, where an empty argument string counts as not given. |
| Cli.ExitStatus | backend/DebMaster.py:587-592 | Once the arguments parse, the exit status is 0 or 1. It is 1 exactly when an exception other than `TweakDetectedException` escapes the operation. An operation that catches its own failure, such as `fetch_github_releases` (lines 105-107), ends with 0. |

## Left out

- Network access (the aiohttp session, the GitHub API request and its status check, the `.deb` download): the model takes the decoded release JSON and the URL as inputs.
- Archive handling (`ar` and `7z` extraction, tar extraction, zip creation of the `.ipa`), temporary directories, `shutil` copies and removals, `mkdir`: these are I/O. Only the decisions they feed are modelled.
- `os.walk` itself: the walk is an input sequence of levels (root, directories, files). Directory and existence checks are sets in `FileSystem`.
- LIEF parsing, `add_library` and `write`, and the probing of LIEF's enum attributes: the binary is an input that lists CPU types, with a code or "unreadable". The comparison uses the source's numeric fallback codes.
- Slices: the branch in which no header attribute exists (`cpu_type` stays `None`) is not modelled. A slice is either readable, with a code, or raises while being read.
- Slices.PlanInjections: a failing `add_library` is only logged by the source; the model states the calls that are attempted, not their outcome.
- `patch_ipa_with_tweak`'s `.deb` extraction, `_find_app_bundle`, `_is_tweak` and the `convert_deb_to_ipa` outcome: these depend on directory contents the model does not represent. Only their naming rules are modelled.
- Cli: `parser.parse_args()` (line 566) runs before the `try` at line 569. On a usage error argparse exits with status 2; only parsed arguments are modelled.
- Logging, configuration loading, JSON progress notifications and the asyncio event loop: these are side effects with no decisions in them.
- Text.Lower: ASCII-only lower-casing. Python's `str.lower` also folds non-ASCII letters.
- PathNames.Stem: POSIX path rules as in Python 3.12 and 3.13 (`.suffix` only when the last dot is neither first nor last). Windows paths are not modelled.
- Releases.DebReleases: a release or asset missing `name`, `tag_name`, `published_at` or `browser_download_url` raises `KeyError` in the source. The model's records always carry these fields.
- GitHub.UrlPath: only the unmatched-bracket check of Python 3.12's `urlsplit` is modelled. A host written with both brackets, such as `[github.com]`, makes `urlsplit` validate the bracketed part as an IPv6 address and raise `ValueError`; the model returns the path instead. The NFKC check on non-ASCII network locations, port validation and the `urlparse` cache are not modelled either. The scheme rule follows Python 3.12.
- GitHub.ReleasesApiUrl: the host is not checked to be `github.com`, because the source does not check it either.
