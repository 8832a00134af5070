/** The parts of `pathlib.PurePosixPath` `DebMaster.py` reads: `/` joins, `.name`,
    `.stem` and `.suffix`. */
module PathNames {
  import opened Text

  /** `Path(dir) / name` */
  function Join(dir: string, name: string): string
  {
    dir + "/" + name
  }

  /** The components a path keeps once parsed: empty parts (from `//` or a
      leading or trailing `/`) and `.` parts are dropped. */
  function Components(parts: seq<string>): (cs: seq<string>)
    ensures forall c :: c in cs ==> c in parts && c != "" && c != "."
    decreases |parts|
  {
    if parts == [] then []
    else
      var init := Components(parts[..|parts| - 1]);
      var last := parts[|parts| - 1];
      if last == "" || last == "." then init else init + [last]
  }

  /** `Path(p).name`: the last component, or "" when there is none. */
  function Name(p: string): (n: string)
    ensures '/' !in n
    ensures n != "."
  {
    var cs := Components(Split(p, '/'));
    if cs == [] then "" else cs[|cs| - 1]
  }

  /** The name of `dir / name` is `name`, whatever `dir` is. */
  lemma NameOfJoin(dir: string, name: string)
    requires name != "" && name != "." && '/' !in name
    ensures Name(Join(dir, name)) == name
  {
    assert Join(dir, name) == dir + ['/'] + name;
    SplitConcat(dir, name, '/');
    SplitNoSeparator(name, '/');
    var parts := Split(dir, '/') + [name];
    assert parts[..|parts| - 1] == Split(dir, '/');
  }

  /** `str.rfind(c)`: the index of the last `c`, or -1. */
  function RFind(s: string, c: char): (i: int)
    ensures -1 <= i < |s|
    ensures i >= 0 ==> s[i] == c
    ensures forall k :: i < k < |s| ==> s[k] != c
    decreases |s|
  {
    if s == [] then -1
    else if s[|s| - 1] == c then |s| - 1
    else RFind(s[..|s| - 1], c)
  }

  /** Whether `name` has a suffix: a last dot that is neither the first nor
      the last character. */
  predicate HasSuffix(name: string)
  {
    var i := RFind(name, '.');
    0 < i < |name| - 1
  }

  /** `Path.suffix`: from the last dot on, or "" when `HasSuffix` fails. */
  function Suffix(name: string): (r: string)
  {
    if HasSuffix(name) then name[RFind(name, '.')..] else ""
  }

  /** `Path.stem`: the name minus its final suffix. */
  function Stem(name: string): (r: string)
  {
    if HasSuffix(name) then name[..RFind(name, '.')] else name
  }

  /** Stem and suffix split a name in two: the stem is a non-empty prefix when
      the name is non-empty, and the suffix is either empty or a dot followed by
      at least one character and no further dot. */
  lemma StemSuffixSplit(name: string)
    ensures Stem(name) + Suffix(name) == name
    ensures name != "" ==> Stem(name) != ""
    ensures Suffix(name) == "" || (|Suffix(name)| >= 2 && Suffix(name)[0] == '.' && '.' !in Suffix(name)[1..])
  {
    if HasSuffix(name) {
      var i := RFind(name, '.');
      assert Suffix(name)[1..] == name[i + 1..];
    }
  }

  /** A name built as `base.ext` has stem `base` and suffix `.ext`. */
  lemma StemOfDotted(base: string, ext: string)
    requires base != "" && ext != "" && '.' !in ext
    ensures Stem(base + "." + ext) == base
    ensures Suffix(base + "." + ext) == "." + ext
  {
    var n := base + "." + ext;
    var i := RFind(n, '.');
    assert n[|base|] == '.';
    assert i == |base|;
    assert n[..i] == base;
  }
}
