/** The pieces of Go's `strings` package and of Go's slice expression that
    the comparator calls (HasPrefix, LastIndex, Replace with a count of 1,
    Split), with their documented semantics; Index and Join are here only
    to specify Replace and Split.  Go strings are byte strings, and each
    element of a string here stands for one byte: a character that UTF-8
    encodes in several bytes is several elements, so the indices computed
    here are Go's byte indices. */
module Strings {
  import opened Wrappers

  /** strings.HasPrefix(s, prefix) */
  predicate HasPrefix(s: string, prefix: string) {
    |prefix| <= |s| && s[..|prefix|] == prefix
  }

  /** strings.Index(s, string(c)): the first index of `c`, or -1. */
  function Index(s: string, c: char): (i: int)
    ensures -1 <= i < |s|
    ensures i == -1 <==> c !in s
    ensures 0 <= i ==> s[i] == c && c !in s[..i]
  {
    if s == [] then -1
    else if s[0] == c then 0
    else
      var j := Index(s[1..], c);
      assert 0 <= j ==> s[..j + 1] == [s[0]] + s[1..][..j];
      if j < 0 then -1 else j + 1
  }

  /** strings.LastIndex(s, string(c)): the last index of `c`, or -1. */
  function LastIndex(s: string, c: char): (i: int)
    ensures -1 <= i < |s|
    ensures i == -1 <==> c !in s
    ensures 0 <= i ==> s[i] == c && c !in s[i + 1..]
  {
    if s == [] then -1
    else if s[|s| - 1] == c then |s| - 1
    else
      var j := LastIndex(s[..|s| - 1], c);
      assert s == s[..|s| - 1] + [s[|s| - 1]];
      assert 0 <= j ==> s[j + 1..] == s[..|s| - 1][j + 1..] + [s[|s| - 1]];
      j
  }

  /** strings.Replace(s, string(target), replacement, 1): the first
      occurrence of `target` is replaced; without one `s` is returned as it is. */
  function ReplaceOnce(s: string, target: char, replacement: string): (r: string)
    ensures target !in s ==> r == s
    ensures target in s ==> |r| == |s| - 1 + |replacement|
    ensures target in s ==>
      exists i :: 0 <= i < |s| && s[i] == target && target !in s[..i] && r == s[..i] + replacement + s[i + 1..]
  {
    var i := Index(s, target);
    if i < 0 then s else s[..i] + replacement + s[i + 1..]
  }

  /** When `s` starts with `c`, deleting the first `c` deletes the first
      character and nothing else. */
  lemma ReplaceOnceAtPrefix(s: string, c: char)
    requires HasPrefix(s, [c])
    ensures ReplaceOnce(s, c, "") == s[1..]
  {
    assert s[0] == c;
    assert Index(s, c) == 0;
  }

  /** Go's slice expression s[lo:hi]; `None` stands for the run-time panic
      "slice bounds out of range". */
  function Slice(s: string, lo: int, hi: int): Option<string> {
    if 0 <= lo <= hi <= |s| then Some(s[lo..hi]) else None
  }

  /** strings.Join(parts, string(sep)) */
  function Join(parts: seq<string>, sep: char): string {
    if parts == [] then ""
    else if |parts| == 1 then parts[0]
    else parts[0] + [sep] + Join(parts[1..], sep)
  }

  /** strings.Split(s, string(sep)): the pieces between the separators; the
      empty string splits into one empty piece. */
  function Split(s: string, sep: char): (parts: seq<string>)
    ensures |parts| >= 1
    ensures forall k :: 0 <= k < |parts| ==> sep !in parts[k]
    ensures Join(parts, sep) == s
    decreases |s|
  {
    var i := Index(s, sep);
    if i < 0 then [s]
    else
      var rest := Split(s[i + 1..], sep);
      assert ([s[..i]] + rest)[1..] == rest;
      assert s == s[..i] + [sep] + s[i + 1..];
      [s[..i]] + rest
  }

  /** Splitting undoes joining separator-free pieces. */
  lemma {:induction false} SplitJoin(parts: seq<string>, sep: char)
    requires |parts| >= 1
    requires forall k :: 0 <= k < |parts| ==> sep !in parts[k]
    ensures Split(Join(parts, sep), sep) == parts
  {
    if |parts| == 1 {
      assert Index(parts[0], sep) == -1;
    } else {
      var s := Join(parts, sep);
      var p := parts[0];
      assert s == p + [sep] + Join(parts[1..], sep);
      assert s[|p|] == sep && s[..|p|] == p;
      assert Index(s, sep) == |p|;
      assert s[|p| + 1..] == Join(parts[1..], sep);
      SplitJoin(parts[1..], sep);
      assert parts == [p] + parts[1..];
    }
  }
}
