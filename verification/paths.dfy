/**
 * Python's `str.split(sep)` and `sep.join(parts)` for a one-character
 * separator, and the object-key stem both handlers derive from an input key
 * with `key.split('/')[-1].split('.')[0]`.
 */
module Paths {

  /** `s.split(sep)`: the pieces of `s` between occurrences of `sep`, never empty. */
  function Split(s: string, sep: char): (parts: seq<string>)
    ensures |parts| >= 1
    ensures forall q :: 0 <= q < |parts| ==> sep !in parts[q]
    decreases |s|
  {
    if s == [] then [""]
    else
      var rest := Split(s[1..], sep);
      if s[0] == sep then [""] + rest
      else [[s[0]] + rest[0]] + rest[1..]
  }

  /** The total length of the pieces. */
  function Width(parts: seq<string>): nat
  {
    if parts == [] then 0 else |parts[0]| + Width(parts[1..])
  }

  /** `sep.join(parts)`: the pieces with one `sep` between neighbours, and nothing else. */
  function Join(parts: seq<string>, sep: char): (r: string)
    ensures |parts| >= 1 ==> |r| == Width(parts) + |parts| - 1
    ensures |parts| >= 1 ==> r[..|parts[0]|] == parts[0]
    decreases |parts|
  {
    if |parts| == 0 then ""
    else if |parts| == 1 then parts[0]
    else parts[0] + [sep] + Join(parts[1..], sep)
  }

  lemma JoinConsChar(c: char, parts: seq<string>, sep: char)
    requires |parts| >= 1
    ensures Join([[c] + parts[0]] + parts[1..], sep) == [c] + Join(parts, sep)
  {
    var ps := [[c] + parts[0]] + parts[1..];
    if |parts| > 1 {
      assert ps[1..] == parts[1..];
    }
  }

  /** Joining the pieces of a split gives the string back. */
  lemma {:induction false} JoinOfSplit(s: string, sep: char)
    ensures Join(Split(s, sep), sep) == s
    decreases |s|
  {
    if s != [] {
      JoinOfSplit(s[1..], sep);
      var rest := Split(s[1..], sep);
      if s[0] == sep {
        assert ([""] + rest)[1..] == rest;
        assert s == [sep] + s[1..];
      } else {
        JoinConsChar(s[0], rest, sep);
        assert s == [s[0]] + s[1..];
      }
    }
  }

  /** Splitting a string whose head `a` holds no separator: `a` starts the first piece. */
  lemma {:induction false} SplitAfterFreePrefix(a: string, b: string, sep: char)
    requires sep !in a
    ensures Split(a + b, sep) == [a + Split(b, sep)[0]] + Split(b, sep)[1..]
    decreases |a|
  {
    if a != [] {
      SplitAfterFreePrefix(a[1..], b, sep);
      assert (a + b)[1..] == a[1..] + b;
      assert (a + b)[0] == a[0];
      assert [a[0]] + (a[1..] + Split(b, sep)[0]) == a + Split(b, sep)[0];
    } else {
      var parts := Split(b, sep);
      assert a + b == b;
      assert a + parts[0] == parts[0];
      assert parts == [parts[0]] + parts[1..];
    }
  }

  /** Splitting the join of separator-free pieces gives the pieces back. */
  lemma {:induction false} SplitOfJoin(parts: seq<string>, sep: char)
    requires |parts| >= 1
    requires forall q :: 0 <= q < |parts| ==> sep !in parts[q]
    ensures Split(Join(parts, sep), sep) == parts
    decreases |parts|
  {
    if |parts| == 1 {
      SplitAfterFreePrefix(parts[0], "", sep);
      assert parts[0] + "" == parts[0];
      assert Split("", sep) == [""];
    } else {
      SplitOfJoin(parts[1..], sep);
      var tail := [sep] + Join(parts[1..], sep);
      assert parts[0] + [sep] + Join(parts[1..], sep) == parts[0] + tail;
      SplitAfterFreePrefix(parts[0], tail, sep);
      assert tail[1..] == Join(parts[1..], sep);
      assert Split(tail, sep) == [""] + parts[1..];
      assert parts[0] + "" == parts[0];
      assert parts == [parts[0]] + parts[1..];
    }
  }

  /** `s.split(sep)[-1]`. */
  function LastSegment(s: string, sep: char): (r: string)
    ensures sep !in r
  {
    var parts := Split(s, sep);
    parts[|parts| - 1]
  }

  /** `s.split(sep)[0]`. */
  function FirstSegment(s: string, sep: char): (r: string)
    ensures sep !in r
  {
    Split(s, sep)[0]
  }

  /** `r` is the longest suffix of `s` free of `sep`: all of `s`, or what follows its last `sep`. */
  ghost predicate IsLastSegment(s: string, sep: char, r: string)
  {
    |r| <= |s| && s[|s| - |r|..] == r && sep !in r
    && (|r| == |s| || s[|s| - |r| - 1] == sep)
  }

  /** `r` is the longest prefix of `s` free of `sep`: all of `s`, or what precedes its first `sep`. */
  ghost predicate IsFirstSegment(s: string, sep: char, r: string)
  {
    |r| <= |s| && s[..|r|] == r && sep !in r
    && (|r| == |s| || s[|r|] == sep)
  }

  lemma {:induction false} JoinLast(parts: seq<string>, sep: char)
    requires |parts| >= 2
    ensures Join(parts, sep) == Join(parts[..|parts| - 1], sep) + [sep] + parts[|parts| - 1]
    decreases |parts|
  {
    if |parts| > 2 {
      JoinLast(parts[1..], sep);
      assert parts[1..][..|parts| - 2] == parts[..|parts| - 1][1..];
    }
  }

  lemma LastSegmentIsLastFreeSuffix(s: string, sep: char)
    ensures IsLastSegment(s, sep, LastSegment(s, sep))
  {
    var parts := Split(s, sep);
    var r := parts[|parts| - 1];
    JoinOfSplit(s, sep);
    if |parts| >= 2 {
      JoinLast(parts, sep);
      var front := Join(parts[..|parts| - 1], sep);
      assert s == front + [sep] + r;
      assert s[|s| - |r|..] == r;
      assert s[|s| - |r| - 1] == sep;
    }
  }

  lemma FirstSegmentIsFirstFreePrefix(s: string, sep: char)
    ensures IsFirstSegment(s, sep, FirstSegment(s, sep))
  {
    var parts := Split(s, sep);
    JoinOfSplit(s, sep);
    if |parts| >= 2 {
      assert s == parts[0] + [sep] + Join(parts[1..], sep);
      assert s[..|parts[0]|] == parts[0];
    }
  }

  /** Only one string is the last separator-free segment of `s`. */
  lemma LastSegmentUnique(s: string, sep: char, r: string)
    requires IsLastSegment(s, sep, r)
    ensures r == LastSegment(s, sep)
  {
    LastSegmentIsLastFreeSuffix(s, sep);
  }

  /** Only one string is the first separator-free segment of `s`. */
  lemma FirstSegmentUnique(s: string, sep: char, r: string)
    requires IsFirstSegment(s, sep, r)
    ensures r == FirstSegment(s, sep)
  {
    FirstSegmentIsFirstFreePrefix(s, sep);
  }

  /**
   * The stem of an object key: its last `/`-segment cut at the first `.`,
   * `key.split('/')[-1].split('.')[0]`.
   */
  function Stem(key: string): (r: string)
    ensures '/' !in r && '.' !in r
    ensures IsFirstSegment(LastSegment(key, '/'), '.', r)
  {
    var base := LastSegment(key, '/');
    FirstSegmentIsFirstFreePrefix(base, '.');
    FirstSegment(base, '.')
  }

  /** The stem depends on nothing but the last `/`-segment of the key: any directory part is dropped. */
  lemma StemOfPath(dir: string, name: string)
    ensures Stem(dir + "/" + name) == Stem(name)
  {
    var s := dir + "/" + name;
    var r := LastSegment(name, '/');
    LastSegmentIsLastFreeSuffix(name, '/');
    assert s[|s| - |r|..] == name[|name| - |r|..];
    if |r| == |name| {
      assert s[|s| - |r| - 1] == '/';
    } else {
      assert s[|s| - |r| - 1] == name[|name| - |r| - 1];
    }
    LastSegmentUnique(s, '/', r);
  }

  /** A key that is already a stem is its own stem. */
  lemma StemOfStem(key: string)
    ensures Stem(Stem(key)) == Stem(key)
  {
    var r := Stem(key);
    assert IsLastSegment(r, '/', r);
    LastSegmentUnique(r, '/', r);
    assert IsFirstSegment(r, '.', r);
    FirstSegmentUnique(r, '.', r);
  }
}
