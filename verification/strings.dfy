/**
  The JavaScript string operations the wikilink script relies on: `startsWith`,
  `endsWith`, `includes`, `trim`, `toLowerCase` and `split`, over strings
  viewed as sequences of characters.
 */
module Strings {

  /** Concatenation regroups freely. */
  lemma Assoc<T>(x: seq<T>, y: seq<T>, z: seq<T>)
    ensures x + y + z == x + (y + z)
  {
  }

  /** `s.startsWith(p)` */
  predicate IsPrefix(p: string, s: string) {
    |p| <= |s| && s[..|p|] == p
  }

  /** `s.endsWith(p)` */
  predicate IsSuffix(p: string, s: string) {
    |p| <= |s| && s[|s| - |p|..] == p
  }

  /** `sub` occurs in `s` starting at index `i`. */
  predicate OccursAt(s: string, sub: string, i: nat) {
    i + |sub| <= |s| && s[i..i + |sub|] == sub
  }

  /** `s.includes(sub)` */
  predicate Contains(s: string, sub: string) {
    exists i: nat | i <= |s| :: OccursAt(s, sub, i)
  }

  lemma OccursAtContains(s: string, sub: string, i: nat)
    requires OccursAt(s, sub, i)
    ensures Contains(s, sub)
  {
  }

  // ---------------------------------------------------------------------------
  // Whitespace and String.prototype.trim
  // ---------------------------------------------------------------------------

  /**
    The characters `trim` removes: the ECMAScript WhiteSpace and
    LineTerminator code points.
   */
  predicate IsSpace(c: char) {
    var n := c as int;
    n == 0x09 || n == 0x0A || n == 0x0B || n == 0x0C || n == 0x0D || n == 0x20
    || n == 0xA0 || n == 0x1680 || (0x2000 <= n <= 0x200A) || n == 0x2028 || n == 0x2029
    || n == 0x202F || n == 0x205F || n == 0x3000 || n == 0xFEFF
  }

  predicate AllSpace(s: string) {
    forall i :: 0 <= i < |s| ==> IsSpace(s[i])
  }

  /** Neither end of `s` is whitespace. */
  predicate Trimmed(s: string) {
    |s| == 0 || (!IsSpace(s[0]) && !IsSpace(s[|s| - 1]))
  }

  /** `s.trimStart()`: the suffix left after removing the leading whitespace. */
  function TrimStart(s: string): (r: string)
    ensures IsSuffix(r, s)
    ensures AllSpace(s[..|s| - |r|])
    ensures |r| == 0 || !IsSpace(r[0])
    decreases |s|
  {
    if |s| > 0 && IsSpace(s[0]) then
      var r := TrimStart(s[1..]);
      var n := |s| - |r|;
      assert s[n..] == s[1..][n - 1..];
      assert s[..n] == [s[0]] + s[1..][..n - 1];
      r
    else s
  }

  /** `s.trimEnd()`: the prefix left after removing the trailing whitespace. */
  function TrimEnd(s: string): (r: string)
    ensures IsPrefix(r, s)
    ensures AllSpace(s[|r|..])
    ensures |r| == 0 || !IsSpace(r[|r| - 1])
    decreases |s|
  {
    if |s| > 0 && IsSpace(s[|s| - 1]) then
      var t := s[..|s| - 1];
      var r := TrimEnd(t);
      assert s[..|r|] == t[..|r|];
      assert s[|r|..] == t[|r|..] + [s[|s| - 1]];
      r
    else s
  }

  /** The middle of `s` that is left when whitespace is cut from both ends. */
  predicate TrimOf(s: string, r: string, lo: nat) {
    && lo + |r| <= |s|
    && s[lo..lo + |r|] == r
    && AllSpace(s[..lo])
    && AllSpace(s[lo + |r|..])
    && Trimmed(r)
  }

  /** `s.trim()` */
  function Trim(s: string): (r: string)
    ensures TrimOf(s, r, |s| - |TrimStart(s)|)
  {
    var t := TrimStart(s);
    var r := TrimEnd(t);
    TrimBothEnds(s, t, r);
    r
  }

  lemma TrimBothEnds(s: string, t: string, r: string)
    requires IsSuffix(t, s) && AllSpace(s[..|s| - |t|]) && (|t| == 0 || !IsSpace(t[0]))
    requires IsPrefix(r, t) && AllSpace(t[|r|..]) && (|r| == 0 || !IsSpace(r[|r| - 1]))
    ensures TrimOf(s, r, |s| - |t|)
  {
    var lo := |s| - |t|;
    assert s[lo..] == t;
    assert s[lo..lo + |r|] == t[..|r|];
    assert s[lo + |r|..] == t[|r|..];
    if |r| > 0 {
      assert r[0] == t[0];
    }
  }

  /** Trimming cuts nothing more off an already trimmed string. */
  lemma {:induction false} TrimIdempotent(s: string)
    ensures Trim(Trim(s)) == Trim(s)
  {
    var r := Trim(s);
    TrimOfTrimmed(r);
  }

  lemma TrimOfTrimmed(r: string)
    requires Trimmed(r)
    ensures Trim(r) == r
  {
  }

  // ---------------------------------------------------------------------------
  // String.prototype.toLowerCase, restricted to ASCII
  // ---------------------------------------------------------------------------

  function LowerChar(c: char): (d: char)
    ensures !('A' <= d <= 'Z')
    ensures c == d || ('A' <= c <= 'Z' && d as int == c as int + 32)
  {
    if 'A' <= c <= 'Z' then (c as int + 32) as char else c
  }

  /** `s.toLowerCase()` on the ASCII letters; every other character is kept. */
  function Lower(s: string): (r: string)
    ensures |r| == |s|
    ensures forall i :: 0 <= i < |s| ==> r[i] == LowerChar(s[i])
  {
    seq(|s|, i requires 0 <= i < |s| => LowerChar(s[i]))
  }

  /** Lower-casing works character by character, so it distributes over concatenation. */
  lemma LowerAppend(x: string, y: string)
    ensures Lower(x + y) == Lower(x) + Lower(y)
  {
  }

  /** Lower-casing twice is lower-casing once. */
  lemma LowerIdempotent(s: string)
    ensures Lower(Lower(s)) == Lower(s)
  {
  }

  // ---------------------------------------------------------------------------
  // String.prototype.split with a one-character separator, and its inverse
  // ---------------------------------------------------------------------------

  /** Index of the first `d` in `s`. */
  function IndexOf(s: string, d: char): (i: nat)
    requires d in s
    ensures i < |s| && s[i] == d
    ensures d !in s[..i]
  {
    if s[0] == d then 0
    else
      assert d in s[1..];
      var j := IndexOf(s[1..], d);
      assert s[..j + 1] == [s[0]] + s[1..][..j];
      j + 1
  }

  /** `s.split(d)`: the fields between occurrences of `d`, in order. */
  function SplitOn(s: string, d: char): (parts: seq<string>)
    ensures |parts| >= 1
    ensures forall i :: 0 <= i < |parts| ==> d !in parts[i]
    ensures d in s <==> |parts| >= 2
    decreases |s|
  {
    if d !in s then [s]
    else
      var i := IndexOf(s, d);
      [s[..i]] + SplitOn(s[i + 1..], d)
  }

  /** `parts.join(d)` */
  function JoinWith(parts: seq<string>, d: char): string
    decreases |parts|
  {
    if |parts| == 0 then ""
    else if |parts| == 1 then parts[0]
    else parts[0] + [d] + JoinWith(parts[1..], d)
  }

  /** Joining the fields of a split gives back the original string. */
  lemma {:induction false} JoinSplit(s: string, d: char)
    ensures JoinWith(SplitOn(s, d), d) == s
    decreases |s|
  {
    if d in s {
      var i := IndexOf(s, d);
      var rest := SplitOn(s[i + 1..], d);
      JoinSplit(s[i + 1..], d);
      assert SplitOn(s, d) == [s[..i]] + rest;
      assert s == s[..i] + [d] + s[i + 1..];
    }
  }

  /** Splitting a join of separator-free fields gives back the fields. */
  lemma {:induction false} SplitJoin(parts: seq<string>, d: char)
    requires |parts| >= 1
    requires forall i :: 0 <= i < |parts| ==> d !in parts[i]
    ensures SplitOn(JoinWith(parts, d), d) == parts
    decreases |parts|
  {
    if |parts| > 1 {
      var s := JoinWith(parts, d);
      var p := parts[0];
      var tail := JoinWith(parts[1..], d);
      assert s == p + [d] + tail;
      assert s[|p|] == d;
      assert d in s;
      var i := IndexOf(s, d);
      assert s[..|p|] == p;
      assert i == |p|;
      assert s[i + 1..] == tail;
      SplitJoin(parts[1..], d);
    }
  }

  /** A field without the separator, then the separator: the split starts with that field. */
  lemma SplitOnFirst(x: string, d: char, y: string)
    requires d !in x
    ensures SplitOn(x + [d] + y, d) == [x] + SplitOn(y, d)
  {
    var s := x + [d] + y;
    assert s[|x|] == d;
    assert forall k :: 0 <= k < |x| ==> s[k] == x[k];
    var i := IndexOf(s, d);
    assert s[..i] == x && s[i + 1..] == y;
  }

  /** A string that is a field followed by nothing or by another separator splits with that field first. */
  lemma SplitOnHead(x: string, d: char, y: string)
    requires d !in x && (|y| == 0 || y[0] == d)
    ensures SplitOn(x + y, d)[0] == x
  {
    if |y| == 0 {
      assert x + y == x;
    } else {
      SplitOnFirst(x, d, y[1..]);
      assert y == [d] + y[1..];
      Assoc(x, [d], y[1..]);
    }
  }
}
