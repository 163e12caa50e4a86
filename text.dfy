/**
  * The functions of Go's `strings` package that the presence-tracking core
  * calls: prefix tests, first-occurrence search, `SplitN(s, sep, 2)`,
  * `Split`, `Trim` with a cut set and `TrimSpace`.
  */
module Text {

  /** `sep` occurs in `s` starting at index `i`. */
  predicate OccursAt(s: string, sep: string, i: int) {
    0 <= i && i + |sep| <= |s| && s[i..i + |sep|] == sep
  }

  predicate Contains(s: string, sep: string) {
    exists i :: 0 <= i <= |s| && OccursAt(s, sep, i)
  }

  /** strings.HasPrefix */
  predicate HasPrefix(s: string, prefix: string) {
    |prefix| <= |s| && s[..|prefix|] == prefix
  }

  /** strings.TrimPrefix: `s` without `prefix` when it starts with it. */
  function TrimPrefix(s: string, prefix: string): (r: string)
    ensures HasPrefix(s, prefix) ==> prefix + r == s
    ensures !HasPrefix(s, prefix) ==> r == s
  {
    if HasPrefix(s, prefix) then s[|prefix|..] else s
  }

  lemma TrimPrefixOfConcat(prefix: string, rest: string)
    ensures HasPrefix(prefix + rest, prefix)
    ensures TrimPrefix(prefix + rest, prefix) == rest
  {
    assert (prefix + rest)[..|prefix|] == prefix;
    assert (prefix + rest)[|prefix|..] == rest;
  }

  /** The first occurrence of `sep` in `s` at or after `from`, or -1. */
  function IndexFrom(s: string, sep: string, from: nat): (r: int)
    requires from <= |s|
    ensures r == -1 || from <= r
    ensures r >= 0 ==> OccursAt(s, sep, r)
    ensures forall i :: from <= i && (r < 0 || i < r) ==> !OccursAt(s, sep, i)
    decreases |s| - from
  {
    if from + |sep| > |s| then -1
    else if s[from..from + |sep|] == sep then from
    else IndexFrom(s, sep, from + 1)
  }

  /** strings.Index: the first occurrence of `sep` in `s`, or -1 when there is none. */
  function Index(s: string, sep: string): (r: int)
    ensures -1 <= r
    ensures r >= 0 ==> OccursAt(s, sep, r) && forall i :: 0 <= i < r ==> !OccursAt(s, sep, i)
    ensures r < 0 <==> !Contains(s, sep)
  {
    IndexFrom(s, sep, 0)
  }

  /** An occurrence inside a slice is an occurrence in the whole string. */
  lemma OccursInSlice(s: string, a: nat, b: nat, sep: string, j: int)
    requires a <= b <= |s|
    requires OccursAt(s[a..b], sep, j)
    ensures OccursAt(s, sep, a + j)
  {
    var occ, whole := s[a..b][j..j + |sep|], s[a + j..a + j + |sep|];
    assert forall k :: 0 <= k < |sep| ==> occ[k] == whole[k];
  }

  /** A slice of a string free of `sep` is free of `sep`. */
  lemma SliceAvoids(s: string, a: nat, b: nat, sep: string)
    requires a <= b <= |s|
    requires !Contains(s, sep)
    ensures !Contains(s[a..b], sep)
  {
    if Contains(s[a..b], sep) {
      var j :| OccursAt(s[a..b], sep, j);
      OccursInSlice(s, a, b, sep, j);
    }
  }

  /** The part of `s` before the first `sep`, or all of `s`. */
  function Before(s: string, sep: string): (r: string)
    requires |sep| > 0
    ensures HasPrefix(s, r)
    ensures !Contains(r, sep)
    ensures Contains(s, sep) ==> OccursAt(s, sep, |r|)
    ensures !Contains(s, sep) ==> r == s
  {
    var i := Index(s, sep);
    if i < 0 then s
    else
      assert !Contains(s[..i], sep) by {
        if Contains(s[..i], sep) {
          var j :| OccursAt(s[..i], sep, j);
          OccursInSlice(s, 0, i, sep, j);
        }
      }
      s[..i]
  }

  /** Cut at a one-character separator, text free of it is what comes before its first occurrence. */
  lemma BeforeSingle(a: string, sep: string, b: string)
    requires |sep| == 1 && !Contains(a, sep)
    ensures Before(a + sep + b, sep) == a
  {
    var s := a + sep + b;
    assert OccursAt(s, sep, |a|) by {
      assert s[|a|..|a| + 1] == sep;
    }
    var i := Index(s, sep);
    assert i <= |a|;
    if i < |a| {
      assert s[i..i + 1] == a[i..i + 1];
      assert OccursAt(a, sep, i);
      assert false;
    }
    assert s[..|a|] == a;
  }

  /** strings.SplitN(s, sep, 2): `s` cut at the first `sep`, or `[s]` when there is none. */
  function SplitN2(s: string, sep: string): (parts: seq<string>)
    requires |sep| > 0
    ensures |parts| == 1 || |parts| == 2
    ensures |parts| == 2 <==> Contains(s, sep)
    ensures |parts| == 1 ==> parts[0] == s
    ensures |parts| == 2 ==> parts[0] + sep + parts[1] == s && !Contains(parts[0], sep)
  {
    var head := Before(s, sep);
    if !Contains(s, sep) then [s]
    else
      assert s == s[..|head|] + s[|head|..|head| + |sep|] + s[|head| + |sep|..];
      [head, s[|head| + |sep|..]]
  }

  /** strings.Join */
  function Join(parts: seq<string>, sep: string): string
    decreases |parts|
  {
    if |parts| == 0 then ""
    else if |parts| == 1 then parts[0]
    else parts[0] + sep + Join(parts[1..], sep)
  }

  /**
    * strings.Split for a non-empty separator: the pieces between the
    * occurrences of `sep`, taken from left to right.
    */
  function Split(s: string, sep: string): (parts: seq<string>)
    requires |sep| > 0
    ensures |parts| >= 1
    ensures parts[0] == Before(s, sep)
    ensures Join(parts, sep) == s
    ensures forall k :: 0 <= k < |parts| ==> !Contains(parts[k], sep)
    decreases |s|
  {
    if !Contains(s, sep) then [s]
    else
      var head := Before(s, sep);
      var rest := Split(s[|head| + |sep|..], sep);
      assert s == head + sep + s[|head| + |sep|..];
      [head] + rest
  }

  /** `s` without its longest prefix of characters in `drop` (strings.TrimLeft). */
  function TrimLeft(s: string, drop: set<char>): (r: string)
    ensures |r| <= |s| && r == s[|s| - |r|..]
    ensures forall i :: 0 <= i < |s| - |r| ==> s[i] in drop
    ensures r != [] ==> r[0] !in drop
    decreases |s|
  {
    if s != [] && s[0] in drop then TrimLeft(s[1..], drop) else s
  }

  /** `s` without its longest suffix of characters in `drop` (strings.TrimRight). */
  function TrimRight(s: string, drop: set<char>): (r: string)
    ensures |r| <= |s| && r == s[..|r|]
    ensures forall i :: |r| <= i < |s| ==> s[i] in drop
    ensures r != [] ==> r[|r| - 1] !in drop
    decreases |s|
  {
    if s != [] && s[|s| - 1] in drop then TrimRight(s[..|s| - 1], drop) else s
  }

  /**
    * strings.Trim(s, cutset): both ends trimmed. The result is the slice of
    * `s` that starts after the dropped prefix.
    */
  function Trim(s: string, drop: set<char>): (r: string)
    ensures |TrimLeft(s, drop)| >= |r|
    ensures r == s[|s| - |TrimLeft(s, drop)|..|s| - |TrimLeft(s, drop)| + |r|]
    ensures r != [] ==> r[0] !in drop && r[|r| - 1] !in drop
    ensures (forall i :: 0 <= i < |s| ==> s[i] !in drop) ==> r == s
  {
    TrimRight(TrimLeft(s, drop), drop)
  }

  /** Trimming text free of `sep` leaves text free of `sep`. */
  lemma TrimAvoids(s: string, drop: set<char>, sep: string)
    requires !Contains(s, sep)
    ensures !Contains(Trim(s, drop), sep)
  {
    var r := Trim(s, drop);
    var a := |s| - |TrimLeft(s, drop)|;
    SliceAvoids(s, a, a + |r|, sep);
  }

  /** What comes before a separator in text free of `other` is free of it. */
  lemma BeforeAvoids(s: string, sep: string, other: string)
    requires |sep| > 0 && !Contains(s, other)
    ensures !Contains(Before(s, sep), other)
  {
    SliceAvoids(s, 0, |Before(s, sep)|, other);
  }

  /** The characters unicode.IsSpace accepts, which strings.TrimSpace removes. */
  const WhiteSpace: set<char> := {
    '\t', '\n', '\U{000B}', '\U{000C}', '\r', ' ', '\U{0085}', '\U{00A0}',
    '\U{1680}', '\U{2000}', '\U{2001}', '\U{2002}', '\U{2003}', '\U{2004}',
    '\U{2005}', '\U{2006}', '\U{2007}', '\U{2008}', '\U{2009}', '\U{200A}',
    '\U{2028}', '\U{2029}', '\U{202F}', '\U{205F}', '\U{3000}'
  }

  /** strings.TrimSpace */
  function TrimSpace(s: string): (r: string)
    ensures r != [] ==> r[0] !in WhiteSpace && r[|r| - 1] !in WhiteSpace
  {
    Trim(s, WhiteSpace)
  }

  /** The number of bytes of the UTF-8 encoding of `c`. */
  function Utf8Size(c: char): (n: nat)
    ensures 1 <= n <= 4
    ensures n == 1 <==> c as int < 0x80
  {
    if c as int < 0x80 then 1
    else if c as int < 0x800 then 2
    else if c as int < 0x10000 then 3
    else 4
  }

  /** Go's len(s): the length in bytes of the UTF-8 encoding of `s`. */
  function ByteLen(s: string): (n: nat)
    ensures |s| <= n <= 4 * |s|
    ensures (forall i :: 0 <= i < |s| ==> s[i] as int < 0x80) ==> n == |s|
    decreases |s|
  {
    if s == [] then 0 else ByteLen(s[..|s| - 1]) + Utf8Size(s[|s| - 1])
  }
}
