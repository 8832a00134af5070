/** The handful of Python `str` operations `DebMaster.py` relies on: `lower`,
    `endswith`, the `in` substring test, `split` on one separator and
    `strip` of one character. */
module Text {

  /** `str.lower()` restricted to ASCII: `A`..`Z` become `a`..`z`, every other
      character is kept. */
  function LowerChar(c: char): (r: char)
    ensures 'A' <= c <= 'Z' ==> r as int == c as int + 32
    ensures !('A' <= c <= 'Z') ==> r == c
    ensures !('A' <= r <= 'Z')
  {
    if 'A' <= c <= 'Z' then (c as int + 32) as char else c
  }

  function Lower(s: string): (r: string)
    ensures |r| == |s|
    decreases |s|
  {
    if s == [] then [] else Lower(s[..|s| - 1]) + [LowerChar(s[|s| - 1])]
  }

  predicate StartsWith(s: string, prefix: string)
  {
    |prefix| <= |s| && s[..|prefix|] == prefix
  }

  /** `s.endswith(suffix)` */
  predicate EndsWith(s: string, suffix: string)
  {
    |suffix| <= |s| && s[|s| - |suffix|..] == suffix
  }

  /** `sub in s`, scanning from the left. */
  predicate Contains(s: string, sub: string)
    decreases |s|
  {
    StartsWith(s, sub) || (s != [] && Contains(s[1..], sub))
  }

  /** `s.split(sep)`: always at least one part, empty parts kept. */
  function Split(s: string, sep: char): (parts: seq<string>)
    ensures |parts| >= 1
    ensures forall p :: p in parts ==> sep !in p
    decreases |s|
  {
    if s == [] then [""]
    else
      var rest := Split(s[1..], sep);
      if s[0] == sep then [""] + rest
      else [[s[0]] + rest[0]] + rest[1..]
  }

  /** `sep.join(parts)`, the inverse of `Split`. */
  function JoinWith(parts: seq<string>, sep: char): (s: string)
    requires |parts| >= 1
    decreases |parts|
  {
    if |parts| == 1 then parts[0] else parts[0] + [sep] + JoinWith(parts[1..], sep)
  }

  /** A join of two parts or more starts with the first two parts, followed
      by nothing or by the separator and the rest. */
  lemma JoinWithFirstTwo(parts: seq<string>, sep: char)
    requires |parts| >= 2
    ensures exists t :: (t == [] || t[0] == sep) && JoinWith(parts, sep) == parts[0] + [sep] + parts[1] + t
  {
    var rest := parts[1..];
    if |parts| == 2 {
      assert JoinWith(rest, sep) == parts[1];
      assert JoinWith(parts, sep) == parts[0] + [sep] + parts[1] + [];
    } else {
      var t := [sep] + JoinWith(rest[1..], sep);
      assert JoinWith(rest, sep) == parts[1] + t;
      assert JoinWith(parts, sep) == parts[0] + [sep] + parts[1] + t;
    }
  }

  /** Splitting and joining with the same separator gives the string back. */
  lemma {:induction false} SplitJoin(s: string, sep: char)
    ensures JoinWith(Split(s, sep), sep) == s
    decreases |s|
  {
    if s != [] {
      var rest := Split(s[1..], sep);
      SplitJoin(s[1..], sep);
      if s[0] == sep {
        assert Split(s, sep) == [""] + rest;
        assert (([""] + rest)[1..]) == rest;
      } else {
        var parts := Split(s, sep);
        assert parts == [[s[0]] + rest[0]] + rest[1..];
        if |rest| == 1 {
          assert JoinWith(rest, sep) == rest[0];
        } else {
          assert parts[1..] == rest[1..];
          assert JoinWith(rest, sep) == rest[0] + [sep] + JoinWith(rest[1..], sep);
        }
      }
    }
  }

  /** A leading separator opens a new, empty first part. */
  lemma SplitConsSep(s: string, sep: char)
    ensures Split([sep] + s, sep) == [""] + Split(s, sep)
  {
    assert ([sep] + s)[1..] == s;
  }

  /** Any other leading character joins the first part. */
  lemma SplitConsOther(c: char, s: string, sep: char)
    requires c != sep
    ensures Split([c] + s, sep) == [[c] + Split(s, sep)[0]] + Split(s, sep)[1..]
  {
    assert ([c] + s)[1..] == s;
  }

  /** Extending the first part commutes with appending more parts. */
  lemma ExtendFirst(h: string, r: seq<string>, q: seq<string>)
    requires |r| >= 1
    ensures [h + (r + q)[0]] + (r + q)[1..] == ([h + r[0]] + r[1..]) + q
  {
    assert (r + q)[1..] == r[1..] + q;
  }

  /** Splitting at a separator placed between two strings splits each side
      on its own. */
  lemma {:induction false} SplitConcat(a: string, b: string, sep: char)
    ensures Split(a + [sep] + b, sep) == Split(a, sep) + Split(b, sep)
    decreases |a|
  {
    if a == [] {
      assert a + [sep] + b == [sep] + b;
      SplitConsSep(b, sep);
    } else {
      var h, t := a[0], a[1..];
      var y := t + [sep] + b;
      assert a == [h] + t;
      assert a + [sep] + b == [h] + y;
      SplitConcat(t, b, sep);
      if h == sep {
        SplitConsSep(y, sep);
        SplitConsSep(t, sep);
        assert [""] + (Split(t, sep) + Split(b, sep)) == ([""] + Split(t, sep)) + Split(b, sep);
      } else {
        SplitConsOther(h, y, sep);
        SplitConsOther(h, t, sep);
        ExtendFirst([h], Split(t, sep), Split(b, sep));
      }
    }
  }

  /** A string without the separator is one part. */
  lemma {:induction false} SplitNoSeparator(s: string, sep: char)
    requires sep !in s
    ensures Split(s, sep) == [s]
    decreases |s|
  {
    if s != [] {
      SplitNoSeparator(s[1..], sep);
      assert [s[0]] + s[1..] == s;
    }
  }

  /** The last part of a join follows the last separator. */
  lemma {:induction false} JoinWithLast(parts: seq<string>, sep: char)
    requires |parts| >= 2
    ensures JoinWith(parts, sep) == JoinWith(parts[..|parts| - 1], sep) + [sep] + parts[|parts| - 1]
    decreases |parts|
  {
    if |parts| > 2 {
      JoinWithLast(parts[1..], sep);
      assert parts[1..][..|parts[1..]| - 1] == parts[..|parts| - 1][1..];
    }
  }

  /** The last part ends the join, right after the last separator when there
      are several parts. */
  lemma JoinWithEndsWithLast(parts: seq<string>, sep: char)
    requires |parts| >= 1
    ensures var s, last := JoinWith(parts, sep), parts[|parts| - 1];
      EndsWith(s, last) && (|parts| == 1 ==> s == last) &&
      (|parts| >= 2 ==> |last| < |s| && s[|s| - |last| - 1] == sep && sep in s)
  {
    if |parts| >= 2 {
      JoinWithLast(parts, sep);
      var s, last := JoinWith(parts, sep), parts[|parts| - 1];
      assert s[|s| - |last|..] == last;
      assert s[|s| - |last| - 1] in s;
    }
  }

  /** The last of some separator-free parts follows the last separator of
      their join, and is the whole join when the join has no separator. */
  lemma LastOfJoin(s: string, parts: seq<string>, sep: char)
    requires |parts| >= 1 && JoinWith(parts, sep) == s
    requires forall p :: p in parts ==> sep !in p
    ensures var f := parts[|parts| - 1];
      sep !in f && EndsWith(s, f) && (|f| < |s| ==> s[|s| - |f| - 1] == sep) && (sep !in s ==> f == s)
  {
    assert parts[|parts| - 1] in parts;
    JoinWithEndsWithLast(parts, sep);
  }

  /** `str.lstrip(c)` */
  function StripLeading(s: string, c: char): (r: string)
    ensures EndsWith(s, r)
    ensures r == [] || r[0] != c
    ensures forall i :: 0 <= i < |s| - |r| ==> s[i] == c
    decreases |s|
  {
    if s != [] && s[0] == c then StripLeading(s[1..], c) else s
  }

  /** `str.rstrip(c)` */
  function StripTrailing(s: string, c: char): (r: string)
    ensures StartsWith(s, r)
    ensures r == [] || r[|r| - 1] != c
    ensures forall i :: |r| <= i < |s| ==> s[i] == c
    decreases |s|
  {
    if s != [] && s[|s| - 1] == c then StripTrailing(s[..|s| - 1], c) else s
  }

  /** One leading `c` in front of a string that does not start with `c` is
      all `lstrip` removes. */
  lemma StripLeadingOne(s: string, c: char)
    requires s != [] && s[0] != c
    ensures StripLeading([c] + s, c) == s
  {
    assert ([c] + s)[1..] == s;
  }

  /** `rstrip` stops at the last character that is not `c`. */
  lemma StripTrailingKeeps(s: string, keep: nat, c: char)
    requires 0 < keep <= |s| && s[keep - 1] != c
    ensures var r := StripTrailing(s, c); keep <= |r| && r == s[..|r|]
  {
  }

  /** `rstrip` keeps a head that does not end in `c`, followed by a prefix of
      what came after it. */
  lemma StripTrailingAfter(head: string, tail: string, c: char)
    requires head != [] && head[|head| - 1] != c
    ensures var r := StripTrailing(head + tail, c);
      |head| <= |r| && r == head + r[|head|..] && (|r| > |head| ==> r[|head|] == tail[0])
  {
    var s := head + tail;
    assert s[|head| - 1] == head[|head| - 1];
    StripTrailingKeeps(s, |head|, c);
    var r := StripTrailing(s, c);
    assert r[..|head|] == head;
  }

  /** `str.strip(c)` */
  function Strip(s: string, c: char): string
  {
    StripTrailing(StripLeading(s, c), c)
  }

  /** `strip(c)` removes one `c` on either side of a string free of `c`. */
  lemma StripSurrounded(s: string, c: char)
    requires c !in s
    ensures Strip([c] + s, c) == s && Strip([c] + s + [c], c) == s
  {
    if s == [] {
      assert ([c] + s)[1..] == [];
      assert ([c] + s + [c])[1..] == [c];
      assert [c][1..] == [];
    } else {
      assert s[0] in s && s[|s| - 1] in s;
      StripLeadingOne(s, c);
      StripLeadingOne(s + [c], c);
      assert [c] + s + [c] == [c] + (s + [c]);
      assert (s + [c])[..|s|] == s;
    }
  }

  /** `strip(c)` of `c + head + tail`, where `head` neither starts nor ends
      with `c` and `tail` is empty or starts with `c`, keeps `head` and a
      prefix of `tail`. */
  lemma StripWrapped(head: string, tail: string, c: char)
    requires head != [] && head[0] != c && head[|head| - 1] != c
    requires tail == [] || tail[0] == c
    ensures exists t :: (t == [] || t[0] == c) && Strip([c] + head + tail, c) == head + t
  {
    var inner := head + tail;
    assert [c] + head + tail == [c] + inner;
    StripLeadingOne(inner, c);
    StripTrailingAfter(head, tail, c);
    var r := StripTrailing(inner, c);
    assert r == head + r[|head|..];
  }

  /** Index of the first occurrence of `c`, or `|s|` when there is none
      (the cut point of `str.find` and of `str.split(c, 1)`). */
  function FindOr(s: string, c: char): (i: nat)
    ensures i <= |s|
    ensures c !in s[..i]
    ensures i < |s| ==> s[i] == c
    decreases |s|
  {
    if s == [] then 0
    else if s[0] == c then 0
    else
      var i := 1 + FindOr(s[1..], c);
      assert s[..i] == [s[0]] + s[1..][..i - 1];
      i
  }
  /** `FindOr` stops at the first occurrence. */
  lemma FindOrAt(s: string, c: char, i: nat)
    requires i <= |s| && c !in s[..i]
    requires i < |s| ==> s[i] == c
    ensures FindOr(s, c) == i
  {
  }

  /** A string that splits into two parts or more reads: the first part, the
      separator, the second part, then nothing or the separator and the rest. */
  lemma SplitFirstTwo(s: string, sep: char)
    requires |Split(s, sep)| >= 2
    ensures var parts := Split(s, sep);
      exists t :: (t == [] || t[0] == sep) && s == parts[0] + [sep] + parts[1] + t
  {
    SplitJoin(s, sep);
    JoinWithFirstTwo(Split(s, sep), sep);
  }

  /** A split gives a single part exactly when the separator does not occur. */
  lemma SplitSingle(s: string, sep: char)
    ensures |Split(s, sep)| == 1 <==> sep !in s
  {
    if sep !in s {
      SplitNoSeparator(s, sep);
    } else {
      SplitJoin(s, sep);
    }
  }
}
