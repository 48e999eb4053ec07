/**
  The column exporter (`copyColumnToClipboard`): one cell text per entry,
  joined with CRLF for the clipboard, and the confirmation toast naming the
  column that was copied.
 */
module Export {
  import opened Common
  import opened Text
  import opened Records
  import opened Lookup
  import opened Cells

  const CRLF: string := "\r\n"

  /**
    The cell text of one column for every entry, in result order. The line of
    a well-formed record shows no decimal point and at most one comma, and
    never carries the sum marker.
   */
  function ColumnLines(entries: seq<Entry>, c: Column): (r: seq<string>)
    ensures |r| == |entries|
    ensures forall i :: 0 <= i < |r| ==> r[i] == Cell(Get(entries[i].vi, c))
    ensures forall i :: 0 <= i < |r| && WellFormed(entries[i].vi) ==>
      '.' !in r[i] && Count(r[i], ',') <= 1 && !EndsWithMarker(r[i])
  {
    var r := seq(|entries|, i requires 0 <= i < |entries| => Cell(Get(entries[i].vi, c)));
    assert forall i :: 0 <= i < |r| && WellFormed(entries[i].vi) ==>
      '.' !in r[i] && Count(r[i], ',') <= 1 && !EndsWithMarker(r[i]) by {
      forall i | 0 <= i < |r| && WellFormed(entries[i].vi)
        ensures '.' !in r[i] && Count(r[i], ',') <= 1 && !EndsWithMarker(r[i])
      {
        NumberCell(Get(entries[i].vi, c));
        CellLastNotStar(Get(entries[i].vi, c));
      }
    }
    r
  }

  /**
    The text written to the clipboard: `columnText.join("\r\n")`. It is empty
    for an empty list; otherwise, when no stored rendering holds a line feed,
    it splits on CRLF back into the column lines.
   */
  function ColumnText(entries: seq<Entry>, c: Column): (r: string)
    ensures |entries| == 0 ==> r == ""
    ensures |entries| >= 1 && LineFeedFree(entries, c) ==> SplitOn(r, CRLF) == ColumnLines(entries, c)
  {
    var lines := ColumnLines(entries, c);
    assert |entries| >= 1 && LineFeedFree(entries, c) ==> SplitOn(Join(lines, CRLF), CRLF) == lines by {
      if |entries| >= 1 && LineFeedFree(entries, c) {
        forall k | 0 <= k < |lines| ensures '\n' !in lines[k] {
          CellLineFree(Get(entries[k].vi, c));
        }
        LinesRoundTrip(lines);
      }
    }
    Join(lines, CRLF)
  }

  /** No stored rendering in the column holds a line feed. */
  predicate LineFeedFree(entries: seq<Entry>, c: Column)
  {
    forall i :: 0 <= i < |entries| ==> Get(entries[i].vi, c).Some? ==> '\n' !in Get(entries[i].vi, c).value
  }

  /** Lines without a line feed survive a CRLF join and split. */
  lemma LinesRoundTrip(lines: seq<string>)
    requires |lines| >= 1
    requires forall k :: 0 <= k < |lines| ==> '\n' !in lines[k]
    ensures SplitOn(Join(lines, CRLF), CRLF) == lines
  {
    forall k | 0 <= k < |lines| ensures SepFree(lines[k], CRLF) {
      CrlfFree(lines[k]);
    }
    SplitOnJoin(lines, CRLF);
  }

  datatype Toast = Toast(title: string, description: string)

  /** What one click on a column header hands to the clipboard and to the toast. */
  datatype Copy = Copy(clipboard: string, toast: Toast)

  /** The toast text; the column's pretty name can be read back between its fixed prefix and suffix. */
  function Description(c: Column): (r: string)
    ensures |r| == 30 + |PrettyName(c)|
    ensures r[..8] == "Coluna '" && r[|r| - 22..] == "' copiada com sucesso."
    ensures r[8..|r| - 22] == PrettyName(c)
  {
    "Coluna '" + PrettyName(c) + "' copiada com sucesso."
  }

  function CopyColumn(entries: seq<Entry>, c: Column): (r: Copy)
    ensures r.toast.title == "Copiado!"
    ensures r.toast.description == Description(c)
    ensures |entries| >= 1 && (forall i :: 0 <= i < |entries| ==> WellFormed(entries[i].vi))
      ==> SplitOn(r.clipboard, CRLF) == ColumnLines(entries, c)
  {
    assert |entries| >= 1 && (forall i :: 0 <= i < |entries| ==> WellFormed(entries[i].vi))
      ==> SplitOn(ColumnText(entries, c), CRLF) == ColumnLines(entries, c) by {
      if |entries| >= 1 && (forall i :: 0 <= i < |entries| ==> WellFormed(entries[i].vi)) {
        WellFormedRoundTrip(entries, c);
      }
    }
    Copy(ColumnText(entries, c), Toast("Copiado!", Description(c)))
  }

  /** The toast identifies the column: different columns never share a description. */
  lemma DescriptionIdentifiesColumn(a: Column, b: Column)
    requires Description(a) == Description(b)
    ensures a == b
  {
    PrettyNameInjective(a, b);
  }

  /** A text without a line feed cannot hide a CRLF, even when one follows it. */
  lemma CrlfFree(p: string)
    requires '\n' !in p
    ensures SepFree(p, CRLF)
  {
    forall j | 0 <= j < |p|
      ensures !MatchAt(p + CRLF, CRLF, j)
    {
      var s := p + CRLF;
      if j + 1 < |p| {
        assert s[j + 1] == p[j + 1];
      } else {
        assert s[j + 1] == '\r';
      }
      assert s[j..j + 2][1] == s[j + 1];
    }
  }

  /** A cell holds a line feed only when the stored rendering does. */
  lemma CellLineFree(v: Option<string>)
    requires v.Some? ==> '\n' !in v.value
    ensures '\n' !in Cell(v)
  {
    var r := Cell(v);
    if Truthy(v) {
      forall i | 0 <= i < |r| ensures r[i] != '\n' {
        assert v.value[i] in v.value;
      }
    }
  }

  /**
    Export round trip: splitting the clipboard text on CRLF gives one line per
    entry, in result order, each the entry's unmarked cell in that column.
   */
  lemma ExportRoundTrip(entries: seq<Entry>, c: Column)
    requires |entries| >= 1
    requires forall i :: 0 <= i < |entries| ==> Get(entries[i].vi, c).Some? ==> '\n' !in Get(entries[i].vi, c).value
    ensures |SplitOn(ColumnText(entries, c), CRLF)| == |entries|
    ensures forall i :: 0 <= i < |entries| ==>
      SplitOn(ColumnText(entries, c), CRLF)[i] == Cell(Get(entries[i].vi, c))
  {
  }

  /** Well-formed records hold no line feed, so their column survives the round trip. */
  lemma WellFormedRoundTrip(entries: seq<Entry>, c: Column)
    requires |entries| >= 1
    requires forall i :: 0 <= i < |entries| ==> WellFormed(entries[i].vi)
    ensures SplitOn(ColumnText(entries, c), CRLF) == ColumnLines(entries, c)
  {
    forall i | 0 <= i < |entries|
      ensures Get(entries[i].vi, c).Some? ==> '\n' !in Get(entries[i].vi, c).value
    {
      var v := Get(entries[i].vi, c);
      if v.Some? {
        assert NumberText(v.value);
        forall j | 0 <= j < |v.value| ensures v.value[j] != '\n' {
          assert NumeralChar(v.value[j]);
        }
      }
    }
    ExportRoundTrip(entries, c);
  }

  /** The export drops the sum marker: each line plus the entry's marker is what the table shows. */
  lemma ExportDropsMarker(entries: seq<Entry>, c: Column, i: int)
    requires 0 <= i < |entries|
    ensures DisplayCell(entries[i], c)
         == ColumnLines(entries, c)[i] + (if c == VIColumn then Marker(entries[i].cas) else "")
  {
  }

  /** Three entries, one without VRQ, export as three CRLF-separated lines. */
  lemma ExportExample()
    ensures ColumnText([
        Entry("A", Empty.(VRQ := Some("1.5"))),
        Entry("B", Empty),
        Entry("C", Empty.(VRQ := Some("2")))], VRQColumn)
      == "1,5\r\n-\r\n2"
  {
    var entries := [
        Entry("A", Empty.(VRQ := Some("1.5"))),
        Entry("B", Empty),
        Entry("C", Empty.(VRQ := Some("2")))];
    var s := "1.5";
    assert s[..1] == "1";
    var r := Cell(Some(s));
    assert r[0] == '1' && r[1] == ',' && r[2] == '5';
    assert r == "1,5";
    assert '.' !in "2";
    var lines := ColumnLines(entries, VRQColumn);
    assert lines == ["1,5", "-", "2"];
    assert lines[1..] == ["-", "2"];
    assert lines[1..][1..] == ["2"];
    assert Join(lines[1..], CRLF) == "-" + CRLF + "2";
    assert Join(lines, CRLF) == "1,5" + CRLF + ("-" + CRLF + "2");
    assert "1,5" + CRLF + ("-" + CRLF + "2") == "1,5\r\n-\r\n2";
  }
}
