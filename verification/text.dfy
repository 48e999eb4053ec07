/**
  String primitives the pipeline is built from, each with the meaning the
  corresponding JavaScript built-in has on a string of Unicode scalar values.
 */
module Text {

  /** Membership in JavaScript's `\s` class: the WhiteSpace and LineTerminator code points. */
  predicate IsWs(c: char)
  {
    || c == '\t' || c == '\n' || c == '\U{000B}' || c == '\U{000C}' || c == '\r'
    || c == ' ' || c == '\U{00A0}' || c == '\U{1680}'
    || ('\U{2000}' <= c <= '\U{200A}')
    || c == '\U{2028}' || c == '\U{2029}' || c == '\U{202F}' || c == '\U{205F}'
    || c == '\U{3000}' || c == '\U{FEFF}'
  }

  predicate WsFree(s: string)
  {
    forall i :: 0 <= i < |s| ==> !IsWs(s[i])
  }

  /** A string of printable ASCII characters other than the space holds no whitespace. */
  lemma PrintableWsFree(p: string)
    requires forall c :: c in p ==> '!' <= c <= '~'
    ensures WsFree(p)
  {
    forall i | 0 <= i < |p| ensures !IsWs(p[i]) { assert p[i] in p; }
  }

  /** `s.replace(/\s+/g, "")`: `s` with every whitespace character removed. */
  function StripWs(s: string): (r: string)
    ensures WsFree(r)
    ensures |r| <= |s|
    ensures WsFree(s) ==> r == s
    decreases |s|
  {
    if s == [] then []
    else if IsWs(s[0]) then StripWs(s[1..])
    else
      assert s == [s[0]] + s[1..];
      [s[0]] + StripWs(s[1..])
  }

  /** Removing whitespace distributes over concatenation. */
  lemma {:induction false} StripWsAppend(a: string, b: string)
    ensures StripWs(a + b) == StripWs(a) + StripWs(b)
    decreases |a|
  {
    if a == [] {
      assert a + b == b;
    } else {
      assert (a + b)[0] == a[0];
      assert (a + b)[1..] == a[1..] + b;
      StripWsAppend(a[1..], b);
    }
  }

  /** Number of occurrences of `c` in `s`. */
  function Count(s: string, c: char): nat
    decreases |s|
  {
    if s == [] then 0 else (if s[0] == c then 1 else 0) + Count(s[1..], c)
  }

  lemma {:induction false} CountAbsent(s: string, c: char)
    ensures c !in s <==> Count(s, c) == 0
    decreases |s|
  {
    if s != [] {
      assert s == [s[0]] + s[1..];
      CountAbsent(s[1..], c);
    }
  }

  /**
    `s.replace(a, b)` with a one-character string pattern: only the FIRST
    occurrence of `a` is replaced; every other position is untouched.
   */
  function ReplaceFirst(s: string, a: char, b: char): (r: string)
    ensures |r| == |s|
    ensures forall i :: 0 <= i < |s| ==> r[i] == (if s[i] == a && a !in s[..i] then b else s[i])
    ensures a !in s ==> r == s
    ensures a != b ==> Count(r, a) == Count(s, a) - (if a in s then 1 else 0)
    ensures a != b ==> Count(r, b) == Count(s, b) + (if a in s then 1 else 0)
    decreases |s|
  {
    if s == [] then []
    else if s[0] == a then
      assert s == [s[0]] + s[1..];
      assert forall i :: 0 < i < |s| ==> a in s[..i] by {
        forall i | 0 < i < |s| ensures a in s[..i] { assert s[..i][0] == a; }
      }
      CountAbsent(s, a);
      var r := [b] + s[1..];
      assert r[1..] == s[1..];
      r
    else
      var t := ReplaceFirst(s[1..], a, b);
      var r := [s[0]] + t;
      assert s == [s[0]] + s[1..];
      assert r[1..] == t;
      assert forall i :: 0 < i < |s| ==> (a in s[..i] <==> a in s[1..][..i - 1]) by {
        forall i | 0 < i < |s| ensures a in s[..i] <==> a in s[1..][..i - 1] {
          assert s[..i] == [s[0]] + s[1..][..i - 1];
        }
      }
      assert a in s <==> a in s[1..];
      r
  }

  /** JavaScript `toUpperCase` on one code unit, for the Basic Latin and Latin-1 letters. */
  function UpperChar(c: char): char
  {
    if 'a' <= c <= 'z' then (c as int - 32) as char
    else if '\U{00E0}' <= c <= '\U{00FE}' && c != '\U{00F7}' then (c as int - 32) as char
    else c
  }

  function Upper(s: string): (r: string)
    ensures |r| == |s|
    ensures forall i :: 0 <= i < |s| ==> r[i] == UpperChar(s[i])
    decreases |s|
  {
    if s == [] then [] else [UpperChar(s[0])] + Upper(s[1..])
  }

  /** `sep` occurs in `s` at position `i`. */
  predicate MatchAt(s: string, sep: string, i: int)
  {
    0 <= i && i + |sep| <= |s| && s[i..i + |sep|] == sep
  }

  /** The first position at or after `i` where `sep` occurs, or `|s|` when there is none. */
  function IndexFrom(s: string, sep: string, i: nat): (r: nat)
    requires i <= |s|
    ensures i <= r <= |s|
    ensures r < |s| ==> MatchAt(s, sep, r)
    ensures forall j :: i <= j < r ==> !MatchAt(s, sep, j)
    decreases |s| - i
  {
    if i == |s| || MatchAt(s, sep, i) then i else IndexFrom(s, sep, i + 1)
  }

  /** A separator occurring inside a prefix of `s` occurs in `s` at the same place. */
  lemma MatchInPrefix(s: string, n: nat, sep: string, j: int)
    requires n <= |s|
    requires MatchAt(s[..n], sep, j)
    ensures MatchAt(s, sep, j)
  {
    assert s[..n][j..j + |sep|] == s[j..j + |sep|];
  }

  /** `s.split(sep)` for a non-empty string separator. */
  function SplitOn(s: string, sep: string): (r: seq<string>)
    requires |sep| > 0
    ensures |r| >= 1
    ensures forall k, j :: 0 <= k < |r| ==> !MatchAt(r[k], sep, j)
    decreases |s|
  {
    var i := IndexFrom(s, sep, 0);
    if i == |s| then
      assert forall j :: !MatchAt(s, sep, j) by {
        forall j ensures !MatchAt(s, sep, j) {
          if 0 <= j < |s| { assert !MatchAt(s, sep, j); }
        }
      }
      [s]
    else
      var rest := SplitOn(s[i + |sep|..], sep);
      assert forall j :: !MatchAt(s[..i], sep, j) by {
        forall j ensures !MatchAt(s[..i], sep, j) {
          if MatchAt(s[..i], sep, j) { MatchInPrefix(s, i, sep, j); }
        }
      }
      [s[..i]] + rest
  }

  /** `parts.join(sep)`: the parts in order, one separator between each two. */
  function Join(parts: seq<string>, sep: string): (r: string)
    ensures |r| == |Concat(parts)| + (if parts == [] then 0 else (|parts| - 1) * |sep|)
    ensures |parts| >= 1 ==> r[..|parts[0]|] == parts[0]
    decreases |parts|
  {
    if |parts| == 0 then ""
    else if |parts| == 1 then parts[0]
    else parts[0] + sep + Join(parts[1..], sep)
  }

  /** Joining the pieces of a split gives back the original string. */
  lemma {:induction false} JoinSplitOn(s: string, sep: string)
    requires |sep| > 0
    ensures Join(SplitOn(s, sep), sep) == s
    decreases |s|
  {
    var i := IndexFrom(s, sep, 0);
    if i < |s| {
      var head := s[..i];
      var rest := s[i + |sep|..];
      var pieces := SplitOn(rest, sep);
      JoinSplitOn(rest, sep);
      var all := [head] + pieces;
      assert SplitOn(s, sep) == all;
      assert all[1..] == pieces;
      assert Join(all, sep) == head + sep + rest;
      assert s[i..i + |sep|] == sep;
      assert s == head + s[i..i + |sep|] + rest;
    }
  }

  /**
    `sep` cannot be found starting inside `p` even when `sep` itself follows
    `p`: the condition under which `p` survives a join-then-split unchanged.
   */
  predicate SepFree(p: string, sep: string)
  {
    forall j :: 0 <= j < |p| ==> !MatchAt(p + sep, sep, j)
  }

  /** Splitting a join of separator-free parts gives back the parts. */
  lemma {:induction false} SplitOnJoin(parts: seq<string>, sep: string)
    requires |sep| > 0
    requires |parts| >= 1
    requires forall k :: 0 <= k < |parts| ==> SepFree(parts[k], sep)
    ensures SplitOn(Join(parts, sep), sep) == parts
    decreases |parts|
  {
    var s := Join(parts, sep);
    var p := parts[0];
    assert SepFree(p, sep);
    if |parts| == 1 {
      forall j | 0 <= j < |p|
        ensures !MatchAt(p, sep, j)
      {
        if MatchAt(p, sep, j) {
          assert (p + sep)[..|p|] == p;
          MatchInPrefix(p + sep, |p|, sep, j);
        }
      }
      assert IndexFrom(s, sep, 0) == |s|;
    } else {
      var t := Join(parts[1..], sep);
      assert s == (p + sep) + t;
      forall j | 0 <= j < |p|
        ensures !MatchAt(s, sep, j)
      {
        if MatchAt(s, sep, j) {
          assert s[..|p + sep|] == p + sep;
          assert s[j..j + |sep|] == (p + sep)[j..j + |sep|];
          assert MatchAt(p + sep, sep, j);
        }
      }
      assert s[|p|..|p| + |sep|] == sep;
      assert MatchAt(s, sep, |p|);
      var i := IndexFrom(s, sep, 0);
      assert i == |p|;
      assert s[..i] == p;
      assert s[i + |sep|..] == t;
      SplitOnJoin(parts[1..], sep);
      assert parts == [p] + parts[1..];
    }
  }

  /** A string without the (one-character) separator is separator-free. */
  lemma SepFreeChar(p: string, c: char)
    requires c !in p
    ensures SepFree(p, [c])
  {
    forall j | 0 <= j < |p|
      ensures !MatchAt(p + [c], [c], j)
    {
      assert (p + [c])[j..j + 1] == [p[j]];
    }
  }

  lemma {:induction false} CountAppend(a: string, b: string, c: char)
    ensures Count(a + b, c) == Count(a, c) + Count(b, c)
    decreases |a|
  {
    if a == [] {
      assert a + b == b;
    } else {
      assert (a + b)[0] == a[0];
      assert (a + b)[1..] == a[1..] + b;
      CountAppend(a[1..], b, c);
    }
  }

  /** A string without a match of the one-character separator `[c]` does not contain `c`. */
  lemma NoMatchNoChar(s: string, c: char)
    requires forall j :: 0 <= j < |s| ==> !MatchAt(s, [c], j)
    ensures c !in s
  {
    forall j | 0 <= j < |s| ensures s[j] != c {
      assert !MatchAt(s, [c], j);
      assert s[j..j + 1] == [s[j]];
    }
  }

  /** Splitting on one character gives one piece more than there are occurrences of it. */
  lemma {:induction false} SplitOnCharCount(s: string, c: char)
    ensures |SplitOn(s, [c])| == Count(s, c) + 1
    decreases |s|
  {
    var i := IndexFrom(s, [c], 0);
    if i == |s| {
      NoMatchNoChar(s, c);
      CountAbsent(s, c);
    } else {
      var rest := s[i + 1..];
      SplitOnCharCount(rest, c);
      forall j | 0 <= j < i ensures !MatchAt(s[..i], [c], j) {
        if MatchAt(s[..i], [c], j) { MatchInPrefix(s, i, [c], j); }
      }
      NoMatchNoChar(s[..i], c);
      CountAbsent(s[..i], c);
      assert s[i..i + 1] == [c];
      assert s == s[..i] + ([c] + rest);
      CountAppend(s[..i], [c] + rest, c);
      assert ([c] + rest)[1..] == rest;
    }
  }

  /** The concatenation of all strings of `parts`. */
  function Concat(parts: seq<string>): string
    decreases |parts|
  {
    if parts == [] then "" else parts[0] + Concat(parts[1..])
  }
}
