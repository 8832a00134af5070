/** Which architecture slices of the app's main Mach-O binary receive the
    load commands, under the two rules of `DebMaster.py`:

    - `patch_ipa_with_data_tar` keeps every ARM64 or ARM slice (and every slice
      whose CPU type could not be read), falls back to all slices, and injects
      every library into every selected slice;
    - `_legacy_patch_ipa_with_tweak` takes the first ARM64 slice, else the first
      slice, else fails.

    LIEF's parsing, `add_library` and `write` are not modelled: a parsed binary
    is given as its slices' CPU types. */
module Slices {
  import opened Wrappers

  /** A slice's CPU type: the number its header holds, or `Unreadable` when
      reading it raised. */
  datatype CpuType = Known(code: int) | Unreadable

  /** What `lief.MachO.parse` returned: a fat binary with its slices in order,
      or a single binary. */
  datatype MachO = Fat(slices: seq<CpuType>) | Thin(cpu: CpuType)

  /** A binary that receives load commands: slice `index` of a fat binary, or
      the single binary itself. */
  datatype Target = Slice(index: nat) | Whole

  /** The numeric CPU codes the source falls back to. */
  const ARM64: int := 12
  const ARM: int := 7

  /** The multi-slice test: `cpu_type and cpu_type in [ARM64, ARM]`, or the
      exception handler that adds the slice anyway. */
  predicate Wanted(c: CpuType)
  {
    match c
    case Unreadable => true
    case Known(n) => n != 0 && (n == ARM64 || n == ARM)
  }

  /** The slices that pass `Wanted`, by index, in slice order. */
  function WantedSlices(slices: seq<CpuType>): (r: seq<Target>)
    ensures forall t :: t in r ==> t.Slice? && t.index < |slices|
    decreases |slices|
  {
    if slices == [] then []
    else
      var n := |slices| - 1;
      WantedSlices(slices[..n]) + (if Wanted(slices[n]) then [Slice(n)] else [])
  }

  /** One more slice is selected after the others when it passes `Wanted`. */
  lemma WantedSlicesSnoc(slices: seq<CpuType>, c: CpuType)
    ensures WantedSlices(slices + [c]) == WantedSlices(slices) + (if Wanted(c) then [Slice(|slices|)] else [])
  {
    assert (slices + [c])[..|slices|] == slices;
  }

  /** `list(fat_binary)` */
  function AllSlices(n: nat): (r: seq<Target>)
  {
    seq(n, i requires 0 <= i < n => Slice(i))
  }

  /** `binaries_to_patch` once chosen. */
  function SelectedTargets(bin: MachO): seq<Target>
  {
    match bin
    case Thin(_) => [Whole]
    case Fat(slices) =>
      var wanted := WantedSlices(slices);
      if wanted == [] then AllSlices(|slices|) else wanted
  }

  /** The loop that grows `binaries_to_patch`, then the fallback. */
  method SelectPatchTargets(bin: MachO) returns (targets: seq<Target>)
    ensures targets == SelectedTargets(bin)
  {
    match bin
    case Thin(_) =>
      targets := [Whole];
    case Fat(slices) =>
      targets := [];
      for i := 0 to |slices|
        invariant targets == WantedSlices(slices[..i])
      {
        match slices[i] {
          case Unreadable =>
            targets := targets + [Slice(i)];
          case Known(cpu) =>
            if cpu != 0 && (cpu == ARM64 || cpu == ARM) {
              targets := targets + [Slice(i)];
            }
        }
        WantedSlicesSnoc(slices[..i], slices[i]);
        assert slices[..i + 1] == slices[..i] + [slices[i]];
      }
      assert slices[..|slices|] == slices;
      if targets == [] {
        for i := 0 to |slices|
          invariant targets == AllSlices(i)
        {
          targets := targets + [Slice(i)];
        }
      }
  }

  /** A slice index is selected by the first pass exactly when it passes
      `Wanted`, and the selection keeps slice order. */
  lemma {:induction false} WantedSlicesExact(slices: seq<CpuType>)
    ensures forall i: nat :: Slice(i) in WantedSlices(slices) <==> i < |slices| && Wanted(slices[i])
    ensures forall p, q :: 0 <= p < q < |WantedSlices(slices)| ==>
      WantedSlices(slices)[p].index < WantedSlices(slices)[q].index
    decreases |slices|
  {
    if slices != [] {
      var n := |slices| - 1;
      WantedSlicesExact(slices[..n]);
      assert forall i :: 0 <= i < n ==> slices[..n][i] == slices[i];
    }
  }

  /** The first pass finds nothing exactly when no slice passes `Wanted`. */
  lemma WantedSlicesEmpty(slices: seq<CpuType>)
    ensures WantedSlices(slices) == [] <==> forall i :: 0 <= i < |slices| ==> !Wanted(slices[i])
  {
    WantedSlicesExact(slices);
    if WantedSlices(slices) != [] {
      assert WantedSlices(slices)[0] in WantedSlices(slices);
    }
  }

  /** The multi-slice rule: a single binary is patched itself; in a fat binary
      the ARM64, ARM and unreadable slices are selected in order when there is
      one, and otherwise every slice is. */
  lemma SelectedTargetsRule(bin: MachO)
    ensures bin.Thin? ==> SelectedTargets(bin) == [Whole]
    ensures bin.Fat? && (exists i :: 0 <= i < |bin.slices| && Wanted(bin.slices[i])) ==>
      (forall t :: t in SelectedTargets(bin) <==> t.Slice? && t.index < |bin.slices| && Wanted(bin.slices[t.index]))
    ensures bin.Fat? && (forall i :: 0 <= i < |bin.slices| ==> !Wanted(bin.slices[i])) ==>
      SelectedTargets(bin) == AllSlices(|bin.slices|)
    ensures bin.Fat? ==> (SelectedTargets(bin) == [] <==> bin.slices == [])
    ensures bin.Fat? ==> forall i :: 0 <= i < |bin.slices| && bin.slices[i] == Unreadable ==> Slice(i) in SelectedTargets(bin)
  {
    if bin.Fat? {
      WantedSlicesExact(bin.slices);
      WantedSlicesEmpty(bin.slices);
      if exists i :: 0 <= i < |bin.slices| && Wanted(bin.slices[i]) {
        var i :| 0 <= i < |bin.slices| && Wanted(bin.slices[i]);
        assert Slice(i) in WantedSlices(bin.slices);
      }
      if bin.slices != [] && WantedSlices(bin.slices) == [] {
        assert AllSlices(|bin.slices|)[0] == Slice(0);
      }
    }
  }

  /** One `add_library` call: a load command for one target. */
  datatype AddLibrary = AddLibrary(target: Target, library: string)

  function CallsFor(t: Target, libraries: seq<string>): seq<AddLibrary>
  {
    seq(|libraries|, j requires 0 <= j < |libraries| => AddLibrary(t, libraries[j]))
  }

  /** The calls of the nested loop, target by target, library by library. */
  function InjectionPlan(targets: seq<Target>, libraries: seq<string>): seq<AddLibrary>
    decreases |targets|
  {
    if targets == [] then []
    else InjectionPlan(targets[..|targets| - 1], libraries) + CallsFor(targets[|targets| - 1], libraries)
  }

  /** `for binary_to_patch in ...: for injection_path in ...: add_library(...)` */
  method PlanInjections(targets: seq<Target>, libraries: seq<string>) returns (calls: seq<AddLibrary>)
    ensures calls == InjectionPlan(targets, libraries)
  {
    calls := [];
    for i := 0 to |targets|
      invariant calls == InjectionPlan(targets[..i], libraries)
    {
      ghost var before := calls;
      for j := 0 to |libraries|
        invariant calls == before + CallsFor(targets[i], libraries[..j])
      {
        calls := calls + [AddLibrary(targets[i], libraries[j])];
      }
      assert libraries[..|libraries|] == libraries;
      assert targets[..i + 1][..i] == targets[..i];
    }
    assert targets[..|targets|] == targets;
  }

  /** Every selected target receives every library, and nothing else is
      called: one call per (target, library) pair, targets in order. */
  lemma {:induction false} InjectionPlanComplete(targets: seq<Target>, libraries: seq<string>)
    ensures |InjectionPlan(targets, libraries)| == |targets| * |libraries|
    ensures forall c :: c in InjectionPlan(targets, libraries) <==> c.target in targets && c.library in libraries
    decreases |targets|
  {
    if targets != [] {
      var init, last := targets[..|targets| - 1], targets[|targets| - 1];
      InjectionPlanComplete(init, libraries);
      assert targets == init + [last];
      forall c ensures c in InjectionPlan(targets, libraries) <==> c.target in targets && c.library in libraries {
        if c.target == last && c.library in libraries {
          var j :| 0 <= j < |libraries| && libraries[j] == c.library;
          assert CallsFor(last, libraries)[j] == c;
        }
      }
      calc {
        |InjectionPlan(targets, libraries)|;
        |init| * |libraries| + |libraries|;
        (|init| + 1) * |libraries|;
      }
    }
  }

  /** The legacy rule's error: "Could not find any binary slice in the fat
      binary." */
  datatype SelectError = NoSliceInFatBinary

  /** The first slice whose CPU type reads as ARM64; unreadable slices are
      skipped. */
  function FirstArm64(slices: seq<CpuType>): (r: Option<nat>)
    ensures r.Some? ==> r.value < |slices| && slices[r.value] == Known(ARM64) &&
                        (forall k :: 0 <= k < r.value ==> slices[k] != Known(ARM64))
    ensures r.None? ==> forall k :: 0 <= k < |slices| ==> slices[k] != Known(ARM64)
    decreases |slices|
  {
    if slices == [] then None
    else
      var n := |slices| - 1;
      match FirstArm64(slices[..n])
      case Some(i) => Some(i)
      case None => if slices[n] == Known(ARM64) then Some(n) else None
  }

  /** `binary_to_patch` under the legacy rule. */
  function LegacyTarget(bin: MachO): Result<Target, SelectError>
  {
    match bin
    case Thin(_) => Ok(Whole)
    case Fat(slices) =>
      match FirstArm64(slices)
      case Some(i) => Ok(Slice(i))
      case None => if slices != [] then Ok(Slice(0)) else Err(NoSliceInFatBinary)
  }

  /** The legacy loop with its `break`, then the first-slice fallback. */
  method SelectLegacyTarget(bin: MachO) returns (r: Result<Target, SelectError>)
    ensures r == LegacyTarget(bin)
  {
    match bin
    case Thin(_) =>
      r := Ok(Whole);
    case Fat(slices) =>
      var chosen: Option<nat> := None;
      var i := 0;
      while i < |slices|
        invariant 0 <= i <= |slices|
        invariant forall k :: 0 <= k < i ==> slices[k] != Known(ARM64)
      {
        match slices[i] {
          case Unreadable =>
          case Known(cpu) =>
            if cpu == ARM64 {
              chosen := Some(i);
              break;
            }
        }
        i := i + 1;
      }
      if chosen.None? {
        if |slices| > 0 {
          chosen := Some(0);
        } else {
          return Err(NoSliceInFatBinary);
        }
      }
      r := Ok(Slice(chosen.value));
  }

  /** Where the two rules meet: whenever the legacy rule finds an ARM64 slice,
      or no slice passes the multi-slice test, the legacy choice is among the
      slices the multi-slice rule selects. */
  lemma LegacyChoiceIsSelected(bin: MachO)
    requires LegacyTarget(bin).Ok?
    requires bin.Fat? ==> FirstArm64(bin.slices).Some? || forall i :: 0 <= i < |bin.slices| ==> !Wanted(bin.slices[i])
    ensures LegacyTarget(bin).value in SelectedTargets(bin)
  {
    if bin.Fat? {
      WantedSlicesExact(bin.slices);
      WantedSlicesEmpty(bin.slices);
      match FirstArm64(bin.slices)
      case Some(i) =>
        assert Wanted(bin.slices[i]);
        assert Slice(i) in WantedSlices(bin.slices);
      case None =>
        assert WantedSlices(bin.slices) == [];
        assert AllSlices(|bin.slices|)[0] == Slice(0);
    }
  }

  /** The two rules disagree on an unreadable slice: the multi-slice rule
      always patches it, while the legacy rule skips it when looking for ARM64
      and ends up on it only through the fallback to the first slice. */
  lemma UnreadableSlice(slices: seq<CpuType>, i: nat)
    requires i < |slices| && slices[i] == Unreadable
    ensures Slice(i) in SelectedTargets(Fat(slices))
    ensures LegacyTarget(Fat(slices)) == Ok(Slice(i)) <==> i == 0 && FirstArm64(slices).None?
  {
    WantedSlicesExact(slices);
    assert Slice(i) in WantedSlices(slices);
  }
}
