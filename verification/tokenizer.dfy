/**
  The input parser of the search form (`onCasSubmit`, first half): the typed
  string is split at every single space that is followed by a non-whitespace
  character, and every fragment that still holds whitespace is replaced by its
  whitespace-free form followed by a one-space gap marker.
 */
module Tokenizer {
  import opened Text

  /** The gap marker token a whitespace-holding fragment leaves behind. */
  const Gap: string := " "

  /** The pattern `/ (?=\S)/` matches at `i`: a space followed by a non-whitespace character. */
  predicate IsBreak(s: string, i: int)
  {
    0 <= i && i + 1 < |s| && s[i] == ' ' && !IsWs(s[i + 1])
  }

  /** The first break at or after `i`, or `|s|` when there is none. */
  function BreakFrom(s: string, i: nat): (r: nat)
    requires i <= |s|
    ensures i <= r <= |s|
    ensures r < |s| ==> IsBreak(s, r)
    ensures forall j :: i <= j < r ==> !IsBreak(s, j)
    decreases |s| - i
  {
    if i == |s| || IsBreak(s, i) then i else BreakFrom(s, i + 1)
  }

  /** `s.split(/ (?=\S)/gm)`: the matched space is consumed, the looked-ahead character is not. */
  function Fragments(s: string): (r: seq<string>)
    ensures |r| >= 1
    decreases |s|
  {
    var i := BreakFrom(s, 0);
    if i == |s| then [s] else [s[..i]] + Fragments(s[i + 1..])
  }

  /**
    What a split at breaks looks like: no fragment contains a break, and every
    fragment but the first begins with a non-whitespace character.
   */
  predicate WellSplit(parts: seq<string>)
  {
    && |parts| >= 1
    && (forall k, j :: 0 <= k < |parts| && 0 <= j < |parts[k]| ==> !IsBreak(parts[k], j))
    && (forall k :: 0 < k < |parts| ==> |parts[k]| > 0 && !IsWs(parts[k][0]))
  }

  /** A string that starts with a non-whitespace character has a first fragment that starts with it too. */
  lemma FirstFragmentHead(s: string)
    requires |s| > 0 && !IsWs(s[0])
    ensures |Fragments(s)[0]| > 0 && Fragments(s)[0][0] == s[0]
  {
    assert !IsBreak(s, 0);
  }

  /** The fragments of any string have the shape of a split at breaks. */
  lemma {:induction false} FragmentsWellSplit(s: string)
    ensures WellSplit(Fragments(s))
    decreases |s|
  {
    var i := BreakFrom(s, 0);
    if i == |s| {
      assert forall j :: !IsBreak(s, j);
    } else {
      var rest := s[i + 1..];
      FragmentsWellSplit(rest);
      FirstFragmentHead(rest);
      var head := s[..i];
      assert forall j :: !IsBreak(head, j) by {
        forall j ensures !IsBreak(head, j) {
          if IsBreak(head, j) { assert IsBreak(s, j); }
        }
      }
      var r := [head] + Fragments(rest);
      assert Fragments(s) == r;
      assert forall k :: 0 < k < |r| ==> r[k] == Fragments(rest)[k - 1];
    }
  }

  /** The first character of a join is the first character of its first part. */
  lemma JoinHead(parts: seq<string>, sep: string)
    requires |parts| >= 1 && |parts[0]| > 0
    ensures |Join(parts, sep)| > 0 && Join(parts, sep)[0] == parts[0][0]
  {
  }

  /** Re-inserting the consumed spaces gives back the typed string. */
  lemma {:induction false} JoinFragments(s: string)
    ensures Join(Fragments(s), " ") == s
    decreases |s|
  {
    var i := BreakFrom(s, 0);
    if i < |s| {
      var rest := s[i + 1..];
      JoinFragments(rest);
      var all := [s[..i]] + Fragments(rest);
      assert Fragments(s) == all;
      assert all[1..] == Fragments(rest);
      assert s == s[..i] + [s[i]] + rest;
    }
  }

  /** A break-free part, a space and a text that starts with non-whitespace: the first break is that space. */
  lemma BreakAfterPart(p: string, t: string)
    requires forall j :: !IsBreak(p, j)
    requires |t| > 0 && !IsWs(t[0])
    ensures BreakFrom(p + " " + t, 0) == |p|
  {
    var s := p + " " + t;
    assert s[..|p|] == p;
    assert s[|p|] == ' ' && s[|p| + 1] == t[0];
    forall j | 0 <= j < |p|
      ensures !IsBreak(s, j)
    {
      if j + 1 < |p| {
        assert s[j] == s[..|p|][j] && s[j + 1] == s[..|p|][j + 1];
        assert !IsBreak(p, j);
      }
    }
    assert IsBreak(s, |p|);
  }

  /**
    Conversely, a well-split sequence is exactly what the split returns on its
    space-join: the split is the unique decomposition of that shape.
   */
  lemma {:induction false} FragmentsOfJoin(parts: seq<string>)
    requires WellSplit(parts)
    ensures Fragments(Join(parts, " ")) == parts
    decreases |parts|
  {
    var s := Join(parts, " ");
    var p := parts[0];
    assert forall j :: !IsBreak(p, j);
    if |parts| == 1 {
      assert BreakFrom(s, 0) == |s|;
    } else {
      var tail := parts[1..];
      assert WellSplit(tail) by {
        assert forall k :: 0 <= k < |tail| ==> tail[k] == parts[k + 1];
      }
      var t := Join(tail, " ");
      JoinHead(tail, " ");
      assert s == p + " " + t;
      BreakAfterPart(p, t);
      assert s[..|p|] == p;
      assert s[|p| + 1..] == t;
      FragmentsOfJoin(tail);
      assert parts == [p] + tail;
    }
  }

  /**
    One step of the `reduce`: a fragment without whitespace passes through;
    one with whitespace becomes its whitespace-free form and one gap marker.
   */
  function Piece(f: string): (r: seq<string>)
    ensures |r| == (if WsFree(f) then 1 else 2)
    ensures r[0] == StripWs(f)
    ensures |r| == 2 ==> r[1] == Gap
  {
    if WsFree(f) then [f] else [StripWs(f), Gap]
  }

  /** The `reduce` over all fragments, left to right. */
  function Expand(frags: seq<string>): (r: seq<string>)
    ensures forall k :: 0 <= k < |r| ==> r[k] == Gap || WsFree(r[k])
    ensures |r| >= |frags|
    decreases |frags|
  {
    if frags == [] then [] else Piece(frags[0]) + Expand(frags[1..])
  }

  /** The whole parser: the tokens the lookup loop iterates over. */
  function Tokenize(s: string): (r: seq<string>)
    ensures |r| >= 1
    ensures forall k :: 0 <= k < |r| ==> r[k] == Gap || WsFree(r[k])
  {
    Expand(Fragments(s))
  }

  /** Drops every gap marker. */
  function RemoveGaps(ts: seq<string>): (r: seq<string>)
    ensures Gap !in r
    decreases |ts|
  {
    if ts == [] then []
    else if ts[0] == Gap then RemoveGaps(ts[1..])
    else [ts[0]] + RemoveGaps(ts[1..])
  }

  lemma {:induction false} RemoveGapsAppend(a: seq<string>, b: seq<string>)
    ensures RemoveGaps(a + b) == RemoveGaps(a) + RemoveGaps(b)
    decreases |a|
  {
    if a == [] {
      assert a + b == b;
    } else {
      assert (a + b)[0] == a[0];
      assert (a + b)[1..] == a[1..] + b;
      RemoveGapsAppend(a[1..], b);
    }
  }

  /** `StripWs` applied to every fragment. */
  function StripAll(frags: seq<string>): (r: seq<string>)
    ensures |r| == |frags|
    decreases |frags|
  {
    if frags == [] then [] else [StripWs(frags[0])] + StripAll(frags[1..])
  }

  /** Apart from the gap markers, expansion only removes whitespace inside each fragment. */
  lemma {:induction false} ExpandDropsOnlyWhitespace(frags: seq<string>)
    ensures RemoveGaps(Expand(frags)) == StripAll(frags)
    decreases |frags|
  {
    if frags != [] {
      var f := frags[0];
      RemoveGapsAppend(Piece(f), Expand(frags[1..]));
      assert StripWs(f) != Gap by { assert IsWs(Gap[0]); }
      if WsFree(f) {
        assert RemoveGaps(Piece(f)) == [f];
      } else {
        assert Piece(f)[1..] == [Gap];
        assert RemoveGaps(Piece(f)) == [StripWs(f)];
      }
      ExpandDropsOnlyWhitespace(frags[1..]);
    }
  }

  lemma StripSpace()
    ensures StripWs(" ") == ""
  {
    assert StripWs(" ") == StripWs(" "[1..]);
  }

  /** Removing whitespace from a space-join removes the joining spaces too. */
  lemma {:induction false} StripJoin(frags: seq<string>)
    ensures StripWs(Join(frags, " ")) == Concat(StripAll(frags))
    decreases |frags|
  {
    if |frags| == 1 {
      assert StripAll(frags) == [StripWs(frags[0])];
      assert Concat([StripWs(frags[0])]) == StripWs(frags[0]) + Concat([]);
    } else if |frags| > 1 {
      var f := frags[0];
      var t := Join(frags[1..], " ");
      assert Join(frags, " ") == (f + " ") + t;
      StripWsAppend(f + " ", t);
      StripWsAppend(f, " ");
      StripSpace();
      assert StripWs(Join(frags, " ")) == StripWs(f) + StripWs(t);
      StripJoin(frags[1..]);
      var all := StripAll(frags);
      assert all[0] == StripWs(f);
      assert all[1..] == StripAll(frags[1..]);
      assert Concat(all) == all[0] + Concat(all[1..]);
    }
  }

  /** A whitespace-free fragment contains no break. */
  lemma WsFreeNoBreak(p: string)
    requires WsFree(p)
    ensures forall j :: !IsBreak(p, j)
  {
  }

  /** Whitespace-free fragments pass through expansion unchanged. */
  lemma {:induction false} ExpandWsFree(frags: seq<string>)
    requires forall k :: 0 <= k < |frags| ==> WsFree(frags[k])
    ensures Expand(frags) == frags
    decreases |frags|
  {
    if frags != [] {
      ExpandWsFree(frags[1..]);
      assert frags == [frags[0]] + frags[1..];
    }
  }

  /**
    Nothing typed is lost but whitespace: the non-gap tokens, concatenated, are
    the input with all whitespace removed.
   */
  lemma TokensKeepText(s: string)
    ensures Concat(RemoveGaps(Tokenize(s))) == StripWs(s)
  {
    ExpandDropsOnlyWhitespace(Fragments(s));
    StripJoin(Fragments(s));
    JoinFragments(s);
  }

  /** A fragment holding whitespace leaves a gap marker among the tokens. */
  lemma {:induction false} GapFromWsFragment(frags: seq<string>, k: int)
    requires 0 <= k < |frags| && !WsFree(frags[k])
    ensures Gap in Expand(frags)
    decreases |frags|
  {
    if k == 0 {
      assert Expand(frags)[1] == Gap;
    } else {
      GapFromWsFragment(frags[1..], k - 1);
      assert Expand(frags) == Piece(frags[0]) + Expand(frags[1..]);
    }
  }

  /**
    Only the empty input yields no non-empty token: anything else leaves
    either a gap marker or a non-empty whitespace-free token.
   */
  lemma NonEmptyToken(s: string)
    requires s != ""
    ensures Gap in Tokenize(s) || exists k :: 0 <= k < |Tokenize(s)| && Tokenize(s)[k] != "" && WsFree(Tokenize(s)[k])
  {
    var frags := Fragments(s);
    FragmentsWellSplit(s);
    JoinFragments(s);
    if k :| 0 <= k < |frags| && !WsFree(frags[k]) {
      GapFromWsFragment(frags, k);
    } else {
      ExpandWsFree(frags);
      if frags[0] == "" {
        assert |frags| > 1;
      } else {
        assert Tokenize(s)[0] == frags[0];
      }
    }
  }

  /** The spreadsheet header `"CAS No."` holds a space, so the parser can never produce it as one token. */
  lemma NoHeaderToken(s: string)
    ensures "CAS No." !in Tokenize(s)
  {
    var ts := Tokenize(s);
    assert !WsFree("CAS No.") by { assert IsWs("CAS No."[3]); }
    assert "CAS No." != Gap;
    forall k | 0 <= k < |ts| ensures ts[k] != "CAS No." { }
  }

  /** A pasted header line splits into three tokens, the last of them the CAS number itself. */
  lemma TokenizePastedHeader(code: string)
    requires code != "" && WsFree(code)
    ensures Tokenize("CAS No. " + code) == ["CAS", "No.", code]
  {
    var parts := ["CAS", "No.", code];
    assert parts[1..] == ["No.", code];
    assert parts[1..][1..] == [code];
    assert Join(parts[1..][1..], " ") == code;
    assert Join(parts[1..], " ") == "No." + " " + code;
    assert Join(parts, " ") == "CAS" + " " + ("No." + " " + code);
    assert "CAS" + " " + ("No." + " " + code) == "CAS No. " + code;
    PrintableWsFree("CAS");
    PrintableWsFree("No.");
    WsFreeNoBreak("CAS");
    WsFreeNoBreak("No.");
    WsFreeNoBreak(code);
    assert WellSplit(parts);
    FragmentsOfJoin(parts);
    ExpandWsFree(parts);
  }

  /** A whitespace-free string followed by one space contains no break. */
  lemma TrailingSpaceNoBreak(a: string)
    requires WsFree(a)
    ensures forall j :: !IsBreak(a + " ", j)
  {
    forall j ensures !IsBreak(a + " ", j) {
      if 0 <= j && j + 1 < |a| {
        assert (a + " ")[j + 1] == a[j + 1];
      }
    }
  }

  /** The split keeps the first of two spaces on the fragment before the break. */
  lemma FragmentsDoubleSpace(a: string, b: string)
    requires WsFree(a) && WsFree(b) && b != ""
    ensures Fragments(a + "  " + b) == [a + " ", b]
  {
    var parts := [a + " ", b];
    assert parts[1..] == [b];
    assert Join(parts, " ") == a + "  " + b;
    TrailingSpaceNoBreak(a);
    WsFreeNoBreak(b);
    assert WellSplit(parts);
    FragmentsOfJoin(parts);
  }

  /** Two spaces between CAS numbers leave a gap marker after the first. */
  lemma TokenizeDoubleSpace(a: string, b: string)
    requires WsFree(a) && WsFree(b) && b != ""
    ensures Tokenize(a + "  " + b) == [a, Gap, b]
  {
    var parts := [a + " ", b];
    FragmentsDoubleSpace(a, b);
    assert !WsFree(parts[0]) by { assert IsWs(parts[0][|a|]); }
    StripWsAppend(a, " ");
    StripSpace();
    assert a + "" == a;
    assert Piece(parts[0]) == [a, Gap];
    assert parts[1..] == [b];
    ExpandWsFree(parts[1..]);
    assert Expand(parts) == Piece(parts[0]) + Expand(parts[1..]);
  }

  /** Removing whitespace from a string made only of whitespace leaves nothing. */
  lemma {:induction false} StripBlank(s: string)
    requires forall i :: 0 <= i < |s| ==> IsWs(s[i])
    ensures StripWs(s) == ""
    decreases |s|
  {
    if s != [] {
      StripBlank(s[1..]);
    }
  }

  /** Input made only of whitespace leaves an empty token and one gap marker. */
  lemma TokenizeBlank(s: string)
    requires s != "" && forall i :: 0 <= i < |s| ==> IsWs(s[i])
    ensures Tokenize(s) == ["", Gap]
  {
    assert forall j :: !IsBreak(s, j);
    assert Fragments(s) == [s];
    assert !WsFree(s) by { assert IsWs(s[0]); }
    StripBlank(s);
    assert Piece(s) == ["", Gap];
    assert Expand([s]) == Piece(s) + Expand([]);
  }

  /**
    Whitespace other than a space (a tab, a line break) between two codes is
    no break: the codes merge into one token, followed by one gap marker.
   */
  lemma TokenizeInnerWhitespace(a: string, c: char, b: string)
    requires WsFree(a) && WsFree(b) && IsWs(c) && c != ' '
    ensures Tokenize(a + [c] + b) == [a + b, Gap]
  {
    var s := a + [c] + b;
    forall j ensures !IsBreak(s, j) {
      if 0 <= j < |a| {
        assert s[j] == a[j];
      } else if j == |a| {
        assert s[j] == c;
      } else if |a| < j < |s| {
        assert s[j] == b[j - |a| - 1];
      }
    }
    assert Fragments(s) == [s];
    assert !WsFree(s) by { assert s[|a|] == c; }
    StripWsAppend(a + [c], b);
    StripWsAppend(a, [c]);
    StripBlank([c]);
    assert a + "" == a;
    assert Piece(s) == [a + b, Gap];
    assert Expand([s]) == Piece(s) + Expand([]);
  }

  /** Conversely, a gap marker among the tokens comes from a fragment that holds whitespace. */
  lemma {:induction false} GapOnlyFromWsFragment(frags: seq<string>)
    requires Gap in Expand(frags)
    ensures exists k :: 0 <= k < |frags| && !WsFree(frags[k])
    decreases |frags|
  {
    var f := frags[0];
    if WsFree(f) {
      assert Expand(frags) == [f] + Expand(frags[1..]);
      assert f != Gap by { assert IsWs(Gap[0]); }
      GapOnlyFromWsFragment(frags[1..]);
      var k :| 0 <= k < |frags[1..]| && !WsFree(frags[1..][k]);
      assert frags[k + 1] == frags[1..][k];
    }
  }
}
