/**
  Cell rendering of the results table: a truthy value is shown with its first
  decimal point turned into a comma, anything else as a dash, and the CETESB
  VI cell of a CAS number from the sum-marker list gets a trailing `" *"`.
 */
module Cells {
  import opened Common
  import opened Text
  import opened Records
  import opened Lookup

  /** JavaScript truthiness of the stored number: `undefined`, `null` and `0` are falsy (JSON holds no NaN). */
  predicate Truthy(v: Option<string>): (b: bool)
    ensures v.None? ==> !b
    ensures v == Some("0") ==> !b
    ensures v.Some? && v.value != "0" ==> b
  {
    v.Some? && v.value != "0"
  }

  /** `v ? String(v).replace(".", ",") : "-"`. */
  function Cell(v: Option<string>): (r: string)
    ensures !Truthy(v) ==> r == "-"
    ensures Truthy(v) ==> |r| == |v.value|
    ensures Truthy(v) ==> forall i :: 0 <= i < |r| ==>
      r[i] == (if v.value[i] == '.' && '.' !in v.value[..i] then ',' else v.value[i])
  {
    if Truthy(v) then ReplaceFirst(v.value, '.', ',') else "-"
  }

  /**
    A rendering with at most one decimal point comes out with none, and with
    at most one comma more than it had.
   */
  lemma CellDecimal(v: Option<string>)
    requires Truthy(v) && Count(v.value, '.') <= 1
    ensures '.' !in Cell(v)
    ensures Count(Cell(v), ',') <= Count(v.value, ',') + 1
  {
    CountAbsent(Cell(v), '.');
  }

  lemma {:induction false} NumberTextCounts(s: string)
    requires forall i, j :: 0 <= i < j < |s| && s[i] == '.' ==> s[j] != '.'
    ensures Count(s, '.') <= 1
    decreases |s|
  {
    if s != [] {
      NumberTextCounts(s[1..]);
      if s[0] == '.' {
        assert forall j :: 0 <= j < |s[1..]| ==> s[1..][j] == s[j + 1];
        assert '.' !in s[1..];
        CountAbsent(s[1..], '.');
      }
    }
  }

  /** The cell of a stored number shows no decimal point and at most one comma. */
  lemma NumberCell(v: Option<string>)
    requires v.Some? ==> NumberText(v.value)
    ensures '.' !in Cell(v)
    ensures Count(Cell(v), ',') <= 1
  {
    if Truthy(v) {
      NumberTextCounts(v.value);
      CellDecimal(v);
      CountAbsent(v.value, ',');
      assert ',' !in v.value by {
        forall i | 0 <= i < |v.value| ensures v.value[i] != ',' {
          assert NumeralChar(v.value[i]);
        }
      }
    } else {
      assert Cell(v) == ['-'];
      assert Count(Cell(v), ',') == 0 by { assert Cell(v)[1..] == []; }
    }
  }

  /** The CAS numbers whose groundwater VI is a sum of isomers or metabolites (`casSums`). */
  const CasSums: seq<string> := [
    "87-61-6", "120-82-1", "108-70-3", "156-59-2", "156-60-5",
    "309-00-2", "60-57-1", "72-54-8", "72-55-9", "50-29-3"]

  lemma CasSumsDistinct()
    ensures |CasSums| == 10
    ensures forall i, j :: 0 <= i < j < |CasSums| ==> CasSums[i] != CasSums[j]
  {
  }

  /** The sum marker a CAS number's VI cell carries (`casSums.includes(casCode) && " *"`). */
  function Marker(cas: string): (r: string)
    ensures r == " *" <==> cas in CasSums
    ensures r == "" <==> cas !in CasSums
  {
    if cas in CasSums then " *" else ""
  }

  /** The text of the cell shown for one entry in one value column. */
  function DisplayCell(e: Entry, c: Column): (r: string)
    ensures c != VIColumn ==> r == Cell(Get(e.vi, c))
    ensures c == VIColumn ==> r == Cell(e.vi.VI) + Marker(e.cas)
  {
    if c == VIColumn then Cell(e.vi.VI) + Marker(e.cas) else Cell(Get(e.vi, c))
  }

  /**
    One table row: the CAS cell and the nine value cells in table order. For a
    well-formed record no value cell shows a decimal point, and the only value
    cell ending in `" *"` is the VI cell (position 6) of a listed CAS number.
   */
  function Row(e: Entry): (r: seq<string>)
    ensures |r| == 1 + |TableColumns|
    ensures r[0] == e.cas
    ensures forall k :: 0 <= k < |TableColumns| ==> r[k + 1] == DisplayCell(e, TableColumns[k])
    ensures WellFormed(e.vi) ==> forall k :: 1 <= k < |r| ==>
      '.' !in r[k] && (EndsWithMarker(r[k]) <==> k == 6 && e.cas in CasSums)
  {
    var r := [e.cas] + seq(|TableColumns|, k requires 0 <= k < |TableColumns| => DisplayCell(e, TableColumns[k]));
    assert WellFormed(e.vi) ==> forall k :: 1 <= k < |r| ==>
      '.' !in r[k] && (EndsWithMarker(r[k]) <==> k == 6 && e.cas in CasSums) by {
      if WellFormed(e.vi) {
        forall k | 1 <= k < |r|
          ensures '.' !in r[k] && (EndsWithMarker(r[k]) <==> k == 6 && e.cas in CasSums)
        {
          var c := TableColumns[k - 1];
          assert r[k] == DisplayCell(e, c);
          assert c == VIColumn <==> k == 6;
          SumMarker(e, c);
          NumberCell(Get(e.vi, c));
          assert '.' !in Marker(e.cas);
        }
      }
    }
    r
  }

  /**
    The table body: one row per entry, in result order, each row's marker and
    decimal rules holding for the rows of well-formed records.
   */
  function Table(entries: seq<Entry>): (r: seq<seq<string>>)
    ensures |r| == |entries|
    ensures forall i :: 0 <= i < |r| ==> r[i] == Row(entries[i])
    ensures forall i, k :: 0 <= i < |r| && 1 <= k < |r[i]| && WellFormed(entries[i].vi) ==>
      '.' !in r[i][k] && (EndsWithMarker(r[i][k]) <==> k == 6 && entries[i].cas in CasSums)
  {
    seq(|entries|, i requires 0 <= i < |entries| => Row(entries[i]))
  }

  predicate EndsWithMarker(s: string)
  {
    |s| >= 2 && s[|s| - 2..] == " *"
  }

  /** The last character of a cell of a stored number is never `*`. */
  lemma CellLastNotStar(v: Option<string>)
    requires v.Some? ==> NumberText(v.value)
    ensures |Cell(v)| > 0 && Cell(v)[|Cell(v)| - 1] != '*'
  {
    if Truthy(v) {
      var n := |v.value| - 1;
      assert NumeralChar(v.value[n]);
    }
  }

  /**
    The sum marker: in a well-formed record, a cell ends with `" *"` exactly
    when it is the VI cell of a CAS number from the sum-marker list.
   */
  lemma SumMarker(e: Entry, c: Column)
    requires WellFormed(e.vi)
    ensures EndsWithMarker(DisplayCell(e, c)) <==> c == VIColumn && e.cas in CasSums
  {
    var v := Get(e.vi, c);
    CellLastNotStar(v);
    var cell := Cell(v);
    var r := DisplayCell(e, c);
    if c == VIColumn && e.cas in CasSums {
      assert r == cell + " *";
      assert r[|r| - 2..] == " *";
    } else {
      assert r == cell;
      assert r[|r| - 1] != '*';
    }
  }

  /**
    The table the user sees: in rows of well-formed records, the only cells
    that end with `" *"` are VI cells (position 6) of listed CAS numbers, and
    no value cell shows a decimal point.
   */
  lemma TableMarker(entries: seq<Entry>, i: int, j: int)
    requires 0 <= i < |entries| && 1 <= j <= |TableColumns|
    requires WellFormed(entries[i].vi)
    ensures EndsWithMarker(Table(entries)[i][j]) <==> j == 6 && entries[i].cas in CasSums
    ensures '.' !in Table(entries)[i][j]
  {
    assert |Table(entries)[i]| == 1 + |TableColumns|;
  }

  /** A CAS cell without whitespace never ends with the marker, which holds a space. */
  lemma CasCellUnmarked(cas: string)
    requires WsFree(cas) || cas == " "
    ensures !EndsWithMarker(cas)
  {
    if EndsWithMarker(cas) {
      assert cas[|cas| - 2] == ' ';
      assert IsWs(cas[|cas| - 2]);
    }
  }

  /** The marker does not look at the value: an absent VI of a listed CAS shows `"- *"`. */
  lemma MarkerOnAbsentValue(e: Entry)
    requires e.cas in CasSums && !Truthy(e.vi.VI)
    ensures DisplayCell(e, VIColumn) == "- *"
  {
  }

  lemma DecimalCell()
    ensures Cell(Some("0.3")) == "0,3"
  {
    var s := "0.3";
    assert s[..1] == "0";
    var r := Cell(Some(s));
    assert r[0] == '0' && r[1] == ',' && r[2] == '3';
  }

  /** A record that holds only VRQ 0.3 and VI 5, as the cells of its row show it. */
  lemma KnownRow(c: Column)
    ensures var e := Entry("71-43-2", VIRecord(None, None, None, Some("0.3"), None, None, None, None, Some("5")));
      DisplayCell(e, c) == (if c == VRQColumn then "0,3" else if c == VIColumn then "5" else "-")
  {
    DecimalCell();
    assert '.' !in "5";
    assert "71-43-2" !in CasSums;
  }
}
