/**
  The search pane: the two-state machine (Entry with the input field, Results
  with the chip strip and the table), the registry of rendered table rows the
  chips navigate by, and the handle of the latest highlight-removal timer.
  DOM elements and timers are abstract handles.
 */
module Pane {
  import opened Common
  import opened Text
  import opened Tokenizer
  import opened Records
  import opened Lookup
  import opened Cells
  import opened Export
  import opened Header

  /** A rendered table row element. */
  type Handle = nat

  /** A pending `setTimeout`. */
  type Timer = nat

  /** One registry record: `{ [casCode]: element }`. */
  datatype RowRef = RowRef(cas: string, handle: Handle)

  /** The input text, the result list (`selectedCas`), the row registry and the latest timer. */
  datatype State = State(input: string, selection: Option<seq<Entry>>, rows: seq<RowRef>, timer: Option<Timer>)

  const Initial: State := State("", None, [], None)

  /** A shown result list is never empty. */
  predicate Valid(s: State)
  {
    s.selection.Some? ==> |s.selection.value| > 0
  }

  /** Typing into the input field. */
  function Edit(s: State, text: string): (r: State)
    ensures r.input == text
    ensures r.selection == s.selection && r.rows == s.rows && r.timer == s.timer
    ensures Valid(s) ==> Valid(r)
  {
    s.(input := text)
  }

  /**
    Submitting the form: the typed string is parsed and looked up; an empty
    result list leaves the pane in (or returns it to) the Entry state.
   */
  function Submit(s: State, dict: map<string, VIRecord>): (r: State)
    ensures Valid(r)
    ensures r.selection.None? <==> s.input == ""
    ensures r.selection.Some? ==> r.selection.value == SearchInput(s.input, dict)
    ensures r.input == s.input && r.rows == s.rows && r.timer == s.timer
  {
    EmptyResultsIffEmptyInput(s.input, dict);
    var found := SearchInput(s.input, dict);
    if |found| == 0 then s.(selection := None) else s.(selection := Some(found))
  }

  /** The clear button: input emptied, results dropped, registry emptied; the timer is left alone. */
  function Clear(s: State): (r: State)
    ensures r == Initial.(timer := s.timer)
  {
    State("", None, [], s.timer)
  }

  /** Submitting right after a clear changes nothing. */
  lemma SubmitAfterClear(s: State, dict: map<string, VIRecord>)
    ensures Submit(Clear(s), dict) == Clear(s)
  {
  }

  /** The registry records one table render adds, one per entry in table order. */
  function Registered(entries: seq<Entry>, handles: seq<Handle>): (r: seq<RowRef>)
    requires |handles| == |entries|
    ensures |r| == |entries|
    ensures forall i :: 0 <= i < |r| ==> r[i] == RowRef(entries[i].cas, handles[i])
  {
    seq(|entries|, i requires 0 <= i < |entries| => RowRef(entries[i].cas, handles[i]))
  }

  /** A render of the Results state: every row's ref callback pushes its element. */
  function Render(s: State, handles: seq<Handle>): (r: State)
    requires s.selection.Some? && |handles| == |s.selection.value|
    ensures |r.rows| == |s.rows| + |s.selection.value|
    ensures r.rows[..|s.rows|] == s.rows
    ensures r.rows[|s.rows|..] == Registered(s.selection.value, handles)
    ensures r.(rows := s.rows) == s
  {
    s.(rows := s.rows + Registered(s.selection.value, handles))
  }

  /** The index of the first registry record for `cas`, or `|rows|` when there is none. */
  function FirstRow(rows: seq<RowRef>, cas: string): (k: nat)
    ensures k <= |rows|
    ensures k < |rows| ==> rows[k].cas == cas
    ensures forall j :: 0 <= j < k ==> rows[j].cas != cas
    decreases |rows|
  {
    if rows == [] then 0
    else if rows[0].cas == cas then 0
    else 1 + FirstRow(rows[1..], cas)
  }

  /** The outcome of a chip click: the new state and the row highlighted, if any. */
  datatype Click = Click(state: State, highlighted: Option<Handle>)

  /**
    A chip click: the first registered row of that CAS is highlighted and a
    fresh removal timer `t` replaces the tracked one; with no such row nothing
    happens.
   */
  function ChipClick(s: State, cas: string, t: Timer): (r: Click)
    ensures r.highlighted.None? <==> forall j :: 0 <= j < |s.rows| ==> s.rows[j].cas != cas
    ensures r.highlighted.None? ==> r.state == s
    ensures r.highlighted.Some? ==> r.state == s.(timer := Some(t))
    ensures r.highlighted.Some? ==> exists k :: 0 <= k < |s.rows| && s.rows[k] == RowRef(cas, r.highlighted.value)
                                       && forall j :: 0 <= j < k ==> s.rows[j].cas != cas
  {
    var k := FirstRow(s.rows, cas);
    if k == |s.rows| then Click(s, None)
    else Click(s.(timer := Some(t)), Some(s.rows[k].handle))
  }

  /** The cleanup on dismantling the pane: the tracked timer, if any, is cancelled. */
  function Unmount(s: State): (cancelled: Option<Timer>)
    ensures cancelled.Some? <==> s.timer.Some?
    ensures cancelled == s.timer
  {
    s.timer
  }

  /** Only the most recent highlight timer is tracked, and it is the one unmounting cancels. */
  lemma LatestTimerCancelled(s: State, cas: string, t: Timer)
    requires ChipClick(s, cas, t).highlighted.Some?
    ensures Unmount(ChipClick(s, cas, t).state) == Some(t)
  {
  }

  /** Clearing does not cancel a pending highlight timer; unmounting still does. */
  lemma ClearKeepsTimer(s: State)
    ensures Unmount(Clear(s)) == Unmount(s)
  {
  }

  /**
    With an empty registry (as after a clear), the first render of a search
    lets a chip click highlight the row of the FIRST entry with that CAS, also
    for a duplicated CAS.
   */
  lemma ChipFindsFirstRow(s: State, dict: map<string, VIRecord>, handles: seq<Handle>, k: int, t: Timer)
    requires s.rows == [] && s.input != ""
    requires |handles| == |SearchInput(s.input, dict)|
    requires 0 <= k < |SearchInput(s.input, dict)|
    requires forall j :: 0 <= j < k ==> SearchInput(s.input, dict)[j].cas != SearchInput(s.input, dict)[k].cas
    ensures Submit(s, dict).selection.Some?
    ensures ChipClick(Render(Submit(s, dict), handles), SearchInput(s.input, dict)[k].cas, t).highlighted
         == Some(handles[k])
  {
    var entries := SearchInput(s.input, dict);
    var p0 := Submit(s, dict);
    var p := Render(p0, handles);
    assert p.rows == Registered(entries, handles);
    var cas := entries[k].cas;
    var i := FirstRow(p.rows, cas);
    assert p.rows[k].cas == cas;
    assert i == k;
  }

  /** Copying a column from the Results state. */
  function CopyFromPane(s: State, c: Column): (r: Copy)
    requires s.selection.Some?
    ensures r.toast.title == "Copiado!"
    ensures r.toast.description == "Coluna '" + PrettyName(c) + "' copiada com sucesso."
  {
    CopyColumn(s.selection.value, c)
  }

  /**
    In any reachable Results state with well-formed records, the clipboard
    text splits on CRLF into one line per row, each the row's unmarked cell.
   */
  lemma PaneExportRoundTrip(s: State, c: Column)
    requires Valid(s) && s.selection.Some?
    requires forall i :: 0 <= i < |s.selection.value| ==> WellFormed(s.selection.value[i].vi)
    ensures var lines := SplitOn(CopyFromPane(s, c).clipboard, CRLF);
      && |lines| == |s.selection.value|
      && forall i :: 0 <= i < |lines| ==> lines[i] == Cell(Get(s.selection.value[i].vi, c))
  {
    WellFormedRoundTrip(s.selection.value, c);
  }

  /** What the pane shows. */
  datatype Screen =
    | EntryScreen(input: string)
    | ResultsScreen(chips: seq<string>, usepa: string, table: seq<seq<string>>)

  /**
    One render of the pane. The Entry state never evaluates the USEPA header;
    a Results render evaluates it together with the chips and the table, so
    when the header throws, the whole render throws and nothing is shown.
   */
  function View(s: State, lastUpdated: Option<string>): (r: Evaluation<Screen>)
    ensures r.Crash? <==> s.selection.Some? && UsepaHeader(lastUpdated).Crash?
    ensures r.Crash? ==> r.reason == UndefinedMonth
    ensures r.Ok? ==> (r.value.EntryScreen? <==> s.selection.None?)
    ensures r.Ok? && r.value.EntryScreen? ==> r.value.input == s.input
    ensures r.Ok? && r.value.ResultsScreen? ==>
      && |r.value.chips| == |r.value.table| == |s.selection.value|
      && (forall i :: 0 <= i < |r.value.chips| ==> |r.value.table[i]| == 10 && r.value.chips[i] == r.value.table[i][0])
      && r.value.chips == Codes(s.selection.value) && r.value.table == Table(s.selection.value)
      && Ok(r.value.usepa) == UsepaHeader(lastUpdated)
  {
    match s.selection
    case None => Ok(EntryScreen(s.input))
    case Some(entries) =>
      match UsepaHeader(lastUpdated)
      case Ok(header) => Ok(ResultsScreen(Codes(entries), header, Table(entries)))
      case Crash(e) => Crash(e)
  }

  /** Submitting only whitespace moves to Results with a single gap chip. */
  lemma BlankInputShowsGap(s: State, dict: map<string, VIRecord>)
    requires s.input != "" && forall i :: 0 <= i < |s.input| ==> IsWs(s.input[i])
    ensures Submit(s, dict).selection == Some([Entry(Gap, Find(dict, Gap))])
  {
    TokenizeBlank(s.input);
    var ts := ["", Gap];
    assert ts[1..] == [Gap];
    assert Kept(ts) == [Gap];
    var r := Results(ts, dict);
    assert |r| == 1 && r[0] == Entry(Gap, Find(dict, Gap));
    assert r == [Entry(Gap, Find(dict, Gap))];
  }

  /**
    On the screen a search leads to when the header renders, with a
    dictionary of well-formed records, a table cell ends with `" *"` exactly
    when it is the VI cell (position 6) of a listed CAS number: neither the CAS
    cell nor any other column is marked, and no value cell shows a decimal point.
   */
  lemma ScreenMarker(s: State, dict: map<string, VIRecord>, lastUpdated: Option<string>, i: int, j: int)
    requires forall t :: t in dict ==> WellFormed(dict[t])
    requires s.input != "" && UsepaHeader(lastUpdated).Ok?
    requires 0 <= i < |SearchInput(s.input, dict)| && 0 <= j < 10
    ensures View(Submit(s, dict), lastUpdated).Ok? && View(Submit(s, dict), lastUpdated).value.ResultsScreen?
    ensures var table := View(Submit(s, dict), lastUpdated).value.table;
      && (EndsWithMarker(table[i][j]) <==> j == 6 && SearchInput(s.input, dict)[i].cas in CasSums)
      && (j > 0 ==> '.' !in table[i][j])
  {
    var entries := SearchInput(s.input, dict);
    var e := entries[i];
    var table := Table(entries);
    assert table[i][0] == e.cas;
    if j == 0 {
      CasCellUnmarked(e.cas);
    } else {
      assert WellFormed(e.vi) by {
        if e.cas !in dict {
          assert e.vi == Empty;
        }
      }
      TableMarker(entries, i, j);
    }
  }

  /**
    A non-empty `lastUpdated` with fewer than two spaces does not disturb the
    Entry screen, but the first search then throws instead of showing results.
   */
  lemma ShortPhraseBreaksResults(s: State, dict: map<string, VIRecord>, phrase: string)
    requires s.input != "" && phrase != "" && Count(phrase, ' ') < 2
    ensures View(Clear(s), Some(phrase)) == Ok(EntryScreen(""))
    ensures View(Submit(s, dict), Some(phrase)) == Crash(UndefinedMonth)
  {
  }

  /** Every transition keeps the pane valid. */
  lemma {:induction false} ValidReachable(s: State, dict: map<string, VIRecord>, text: string,
                                          handles: seq<Handle>, cas: string, t: Timer)
    requires Valid(s)
    ensures Valid(Edit(s, text)) && Valid(Submit(s, dict)) && Valid(Clear(s))
    ensures Valid(ChipClick(s, cas, t).state)
    ensures s.selection.Some? && |handles| == |s.selection.value| ==> Valid(Render(s, handles))
  {
  }
}
