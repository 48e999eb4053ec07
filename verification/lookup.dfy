/**
  The lookup half of `onCasSubmit`: every surviving token is joined against
  the VI dictionary, in token order and without deduplication; a token the
  dictionary does not know still yields an entry, with every value absent.
 */
module Lookup {
  import opened Common
  import opened Text
  import opened Tokenizer
  import opened Records

  /** One result: the CAS token and the record shown for it. */
  datatype Entry = Entry(cas: string, vi: VIRecord)

  /** The spreadsheet header the loop skips. */
  const HeaderArtifact: string := "CAS No."

  /** The loop's guard: the token is truthy and is not the header. */
  predicate Keep(t: string)
  {
    t != "" && t != HeaderArtifact
  }

  /** The tokens the loop does not skip, in order. */
  function Kept(ts: seq<string>): (r: seq<string>)
    ensures |r| <= |ts|
    ensures forall k :: 0 <= k < |r| ==> Keep(r[k])
    decreases |ts|
  {
    if ts == [] then []
    else if Keep(ts[0]) then [ts[0]] + Kept(ts[1..])
    else Kept(ts[1..])
  }

  lemma {:induction false} KeptAppend(a: seq<string>, b: seq<string>)
    ensures Kept(a + b) == Kept(a) + Kept(b)
    decreases |a|
  {
    if a == [] {
      assert a + b == b;
    } else {
      assert (a + b)[0] == a[0];
      assert (a + b)[1..] == a[1..] + b;
      KeptAppend(a[1..], b);
    }
  }

  /** No deduplication: a kept token occurs among the kept tokens as often as it was typed. */
  lemma {:induction false} KeptMultiplicity(ts: seq<string>, t: string)
    ensures multiset(Kept(ts))[t] == (if Keep(t) then multiset(ts)[t] else 0)
    decreases |ts|
  {
    if ts != [] {
      KeptMultiplicity(ts[1..], t);
      assert ts == [ts[0]] + ts[1..];
      assert multiset(ts) == multiset([ts[0]]) + multiset(ts[1..]);
    }
  }

  /** `viByCas[cas]`, with an unknown CAS number given the empty record. */
  function Find(dict: map<string, VIRecord>, t: string): (r: VIRecord)
    ensures t in dict ==> r == dict[t]
    ensures t !in dict ==> forall c :: Get(r, c) == None
  {
    if t in dict then dict[t] else Empty
  }

  /** The result list of a token sequence. */
  function Results(tokens: seq<string>, dict: map<string, VIRecord>): (r: seq<Entry>)
    ensures |r| == |Kept(tokens)|
    ensures forall i :: 0 <= i < |r| ==> r[i] == Entry(Kept(tokens)[i], Find(dict, Kept(tokens)[i]))
    decreases |tokens|
  {
    if tokens == [] then []
    else if Keep(tokens[0]) then [Entry(tokens[0], Find(dict, tokens[0]))] + Results(tokens[1..], dict)
    else Results(tokens[1..], dict)
  }

  /** Results of a token sequence extended by one token. */
  lemma ResultsSnoc(tokens: seq<string>, t: string, dict: map<string, VIRecord>)
    ensures Results(tokens + [t], dict)
         == Results(tokens, dict) + (if Keep(t) then [Entry(t, Find(dict, t))] else [])
  {
    KeptAppend(tokens, [t]);
    assert Kept([t]) == (if Keep(t) then [t] else []);
    var a := Results(tokens + [t], dict);
    var b := Results(tokens, dict) + (if Keep(t) then [Entry(t, Find(dict, t))] else []);
    assert |a| == |b|;
    forall i | 0 <= i < |a| ensures a[i] == b[i] {
      if i < |Results(tokens, dict)| {
        assert Kept(tokens + [t])[i] == Kept(tokens)[i];
      }
    }
  }

  /** The lookup loop of `onCasSubmit`, step by step. */
  method Search(tokens: seq<string>, dict: map<string, VIRecord>) returns (found: seq<Entry>)
    ensures found == Results(tokens, dict)
  {
    found := [];
    var i := 0;
    while i < |tokens|
      invariant 0 <= i <= |tokens|
      invariant found == Results(tokens[..i], dict)
    {
      var cas := tokens[i];
      if cas != "" && cas != HeaderArtifact {
        if cas in dict {
          found := found + [Entry(cas, dict[cas])];
        } else {
          found := found + [Entry(cas, Empty)];
        }
      }
      ResultsSnoc(tokens[..i], cas, dict);
      assert tokens[..i + 1] == tokens[..i] + [cas];
      i := i + 1;
    }
    assert tokens[..i] == tokens;
  }

  /** The CAS column of a result list. */
  function Codes(entries: seq<Entry>): (r: seq<string>)
    ensures |r| == |entries|
    ensures forall i :: 0 <= i < |r| ==> r[i] == entries[i].cas
  {
    seq(|entries|, i requires 0 <= i < |entries| => entries[i].cas)
  }

  /** Order preservation: the result list's CAS column is the kept token sequence itself. */
  lemma CodesAreKeptTokens(tokens: seq<string>, dict: map<string, VIRecord>)
    ensures Codes(Results(tokens, dict)) == Kept(tokens)
  {
  }

  /** No deduplication: every kept token has as many entries as occurrences in the input. */
  lemma ResultsMultiplicity(tokens: seq<string>, dict: map<string, VIRecord>, t: string)
    ensures multiset(Codes(Results(tokens, dict)))[t] == (if Keep(t) then multiset(tokens)[t] else 0)
  {
    CodesAreKeptTokens(tokens, dict);
    KeptMultiplicity(tokens, t);
  }

  /** The whole submit pipeline: parse the typed string, then look every token up. */
  function SearchInput(input: string, dict: map<string, VIRecord>): (r: seq<Entry>)
    ensures forall i :: 0 <= i < |r| ==> r[i].cas == Gap || (r[i].cas != "" && WsFree(r[i].cas))
    ensures forall i :: 0 <= i < |r| ==> r[i].cas != HeaderArtifact
  {
    var ts := Tokenize(input);
    var r := Results(ts, dict);
    assert forall k :: 0 <= k < |Kept(ts)| ==> Kept(ts)[k] in ts by {
      KeptSubset(ts);
    }
    r
  }

  lemma {:induction false} KeptSubset(ts: seq<string>)
    ensures forall k :: 0 <= k < |Kept(ts)| ==> Kept(ts)[k] in ts
    decreases |ts|
  {
    if ts != [] {
      KeptSubset(ts[1..]);
    }
  }

  /** Dropping empty tokens does not change a concatenation. */
  lemma {:induction false} ConcatGapsKept(ts: seq<string>)
    requires HeaderArtifact !in ts
    ensures Concat(RemoveGaps(Kept(ts))) == Concat(RemoveGaps(ts))
    decreases |ts|
  {
    if ts != [] {
      ConcatGapsKept(ts[1..]);
      var t := ts[0];
      if t == "" {
        assert RemoveGaps(ts) == [""] + RemoveGaps(ts[1..]);
        assert Concat(RemoveGaps(ts)) == "" + Concat(RemoveGaps(ts[1..]));
      } else {
        assert Kept(ts) == [t] + Kept(ts[1..]);
      }
    }
  }

  /**
    Every typed non-whitespace character reaches the result list, in order:
    the non-gap CAS tokens, concatenated, are the input without whitespace.
   */
  lemma SearchKeepsText(input: string, dict: map<string, VIRecord>)
    ensures Concat(RemoveGaps(Codes(SearchInput(input, dict)))) == StripWs(input)
  {
    var ts := Tokenize(input);
    CodesAreKeptTokens(ts, dict);
    NoHeaderToken(input);
    ConcatGapsKept(ts);
    TokensKeepText(input);
  }

  /** A kept token gives the result list at least one entry. */
  lemma KeptNonEmpty(ts: seq<string>, t: string)
    requires t in ts && Keep(t)
    ensures |Kept(ts)| > 0
  {
    KeptMultiplicity(ts, t);
    assert multiset(ts)[t] > 0;
  }

  /**
    The result list is empty exactly when the typed string is: any other input,
    blanks included, yields at least one entry.
   */
  lemma EmptyResultsIffEmptyInput(input: string, dict: map<string, VIRecord>)
    ensures |SearchInput(input, dict)| == 0 <==> input == ""
  {
    var ts := Tokenize(input);
    if input == "" {
      assert BreakFrom(input, 0) == 0;
      assert Fragments(input) == [""];
      assert WsFree("");
      assert ts == [""];
      assert Kept(ts) == [];
    } else {
      NonEmptyToken(input);
      if Gap in ts {
        KeptNonEmpty(ts, Gap);
      } else {
        var k :| 0 <= k < |ts| && ts[k] != "" && WsFree(ts[k]);
        assert ts[k] != HeaderArtifact by { assert IsWs(HeaderArtifact[3]); }
        KeptNonEmpty(ts, ts[k]);
      }
    }
  }

  /** A gap marker is looked up like any token and so shows an empty row. */
  lemma GapRowsEmpty(input: string, dict: map<string, VIRecord>, i: int)
    requires Gap !in dict
    requires 0 <= i < |SearchInput(input, dict)| && SearchInput(input, dict)[i].cas == Gap
    ensures SearchInput(input, dict)[i].vi == Empty
  {
  }

  /** A pasted header line gives three rows: the words of the header are not filtered. */
  lemma PastedHeaderRows(code: string, dict: map<string, VIRecord>)
    requires code != "" && WsFree(code)
    ensures Codes(SearchInput("CAS No. " + code, dict)) == ["CAS", "No.", code]
  {
    TokenizePastedHeader(code);
    var ts := ["CAS", "No.", code];
    assert code != HeaderArtifact by { assert IsWs(HeaderArtifact[3]); }
    assert Keep("CAS") && Keep("No.") && Keep(code);
    assert Kept([code]) == [code] by {
      assert [code][1..] == [];
    }
    assert Kept(["No.", code]) == ["No.", code] by {
      assert ["No.", code][1..] == [code];
    }
    assert Kept(ts) == ts by {
      assert ts[1..] == ["No.", code];
    }
    CodesAreKeptTokens(ts, dict);
  }

  /** Two whitespace-free codes separated by one space parse into exactly those two tokens. */
  lemma TokenizeTwoCodes(a: string, b: string)
    requires WsFree(a) && WsFree(b) && b != ""
    ensures Tokenize(a + " " + b) == [a, b]
  {
    var parts := [a, b];
    assert parts[1..] == [b];
    assert Join(parts, " ") == a + " " + b;
    WsFreeNoBreak(a);
    WsFreeNoBreak(b);
    assert WellSplit(parts);
    FragmentsOfJoin(parts);
    ExpandWsFree(parts);
  }

  /** An unknown CAS number typed after a known one keeps its place, with an empty record. */
  lemma UnknownAfterKnown(a: string, b: string, dict: map<string, VIRecord>)
    requires WsFree(a) && WsFree(b) && a != "" && b != ""
    requires a in dict && b !in dict
    ensures SearchInput(a + " " + b, dict) == [Entry(a, dict[a]), Entry(b, Empty)]
  {
    var parts := [a, b];
    TokenizeTwoCodes(a, b);
    assert parts[1..] == [b];
    assert a != HeaderArtifact by { assert IsWs(HeaderArtifact[3]); }
    assert b != HeaderArtifact by { assert IsWs(HeaderArtifact[3]); }
    assert Kept(parts[1..]) == [b];
    assert Kept(parts) == parts;
  }
}
