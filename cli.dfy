/** The argument dispatch of `DebMaster.main`: which one operation a command
    line selects, by the precedence of its `if`/`elif` chain. */
module Cli {
  import opened Wrappers

  /** The parsed options; `None` when an option was not given. `--config`
      and `--verbose` do not take part in the dispatch. */
  datatype Args = Args(
    github: Option<string>,
    convert: Option<string>,
    downloadUrl: Option<string>,
    patch: Option<string>,
    withTweak: Option<string>,
    withDataTar: Option<string>)

  /** Python truthiness of an option's value: absent and empty are both
      false. */
  predicate Given(o: Option<string>)
  {
    o.Some? && o.value != ""
  }

  /** The operation `main` runs, with the arguments it passes on. */
  datatype Operation =
    | FetchReleases(repoUrl: string)
    | DownloadAndConvert(downloadUrl: string)
    | ConvertLocal(debPath: string, downloadUrl: string)
    | PatchWithDataTar(ipaPath: string, dataTarPath: string)
    | PatchWithTweak(ipaPath: string, tweakDebPath: string)
    | Help

  /** The operation `main` runs: one the options ask for. */
  function Dispatch(args: Args): (op: Operation)
    ensures Requests(args, Rank(op))
  {
    if Given(args.github) then FetchReleases(args.github.value)
    else if Given(args.downloadUrl) then DownloadAndConvert(args.downloadUrl.value)
    else if Given(args.convert) then ConvertLocal(args.convert.value, "local:" + args.convert.value)
    else if Given(args.patch) && Given(args.withDataTar) then PatchWithDataTar(args.patch.value, args.withDataTar.value)
    else if Given(args.patch) && Given(args.withTweak) then PatchWithTweak(args.patch.value, args.withTweak.value)
    else Help
  }

  /** The rank of an operation in the precedence: `--github` first, help
      last. */
  function Rank(op: Operation): (r: nat)
    ensures r <= 5
  {
    match op
    case FetchReleases(_) => 0
    case DownloadAndConvert(_) => 1
    case ConvertLocal(_, _) => 2
    case PatchWithDataTar(_, _) => 3
    case PatchWithTweak(_, _) => 4
    case Help => 5
  }

  /** Whether the options call for the operation of rank `r`, taken alone. */
  predicate Requests(args: Args, r: nat)
  {
    match r
    case 0 => Given(args.github)
    case 1 => Given(args.downloadUrl)
    case 2 => Given(args.convert)
    case 3 => Given(args.patch) && Given(args.withDataTar)
    case 4 => Given(args.patch) && Given(args.withTweak)
    case _ => true
  }

  /** The dispatch is first-match: the chosen operation is requested, and no
      operation of higher precedence is. */
  lemma DispatchIsFirstRequested(args: Args)
    ensures Requests(args, Rank(Dispatch(args)))
    ensures forall r: nat :: r < Rank(Dispatch(args)) ==> !Requests(args, r)
  {
    var k := Rank(Dispatch(args));
    forall r: nat | r < k ensures !Requests(args, r) {
      assert r == 0 || r == 1 || r == 2 || r == 3 || r == 4;
    }
  }

  /** The chosen operation receives the options it names, and a local
      conversion reports `local:<path>` as its URL. */
  lemma DispatchArguments(args: Args)
    ensures Dispatch(args).FetchReleases? ==> Some(Dispatch(args).repoUrl) == args.github
    ensures Dispatch(args).DownloadAndConvert? ==> Some(Dispatch(args).downloadUrl) == args.downloadUrl
    ensures Dispatch(args).ConvertLocal? ==>
      Some(Dispatch(args).debPath) == args.convert && Dispatch(args).downloadUrl == "local:" + Dispatch(args).debPath
    ensures Dispatch(args).PatchWithDataTar? ==>
      Some(Dispatch(args).ipaPath) == args.patch && Some(Dispatch(args).dataTarPath) == args.withDataTar
    ensures Dispatch(args).PatchWithTweak? ==>
      Some(Dispatch(args).ipaPath) == args.patch && Some(Dispatch(args).tweakDebPath) == args.withTweak
  {
  }

  /** `--with-data-tar` wins over `--with-tweak` when both come with
      `--patch`, unless an earlier option applies. */
  lemma DataTarBeatsTweak(args: Args)
    requires !Given(args.github) && !Given(args.downloadUrl) && !Given(args.convert)
    requires Given(args.patch) && Given(args.withDataTar)
    ensures Dispatch(args) == PatchWithDataTar(args.patch.value, args.withDataTar.value)
  {
  }

  /** Help is shown exactly when no operation is requested; in particular
      `--with-tweak` or `--with-data-tar` without `--patch`, or an empty
      option, falls through to help. */
  lemma HelpWhenNothingRequested(args: Args)
    ensures Dispatch(args) == Help <==> forall r: nat :: r < 5 ==> !Requests(args, r)
  {
    DispatchIsFirstRequested(args);
  }

  /** What escaped the operation. */
  datatype Outcome = Completed | TweakDetected | Failed(error: string)

  /** `sys.exit(0)` on a detected tweak, `sys.exit(1)` on any other error,
      a normal end otherwise. */
  function ExitStatus(o: Outcome): (code: int)
    ensures code == 0 || code == 1
    ensures code == 1 <==> o.Failed?
  {
    match o
    case Completed => 0
    case TweakDetected => 0
    case Failed(_) => 1
  }
}
