/** The report loop of `main`: each sorted row becomes one line, a
    left-aligned county prefix padded with spaces to a fixed column followed
    by the level text in its severity's colour. */
module Render {
  import opened Results
  import opened Ascii
  import opened Levels
  import opened CountySort

  /** Column width of the `county (state): ` prefix (format spec `<35`). */
  const WideWidth: nat := 35

  /** Column width of the `county: ` prefix (format spec `<24`). */
  const NarrowWidth: nat := 24

  /** One printed line: the padded prefix, then the level text, coloured. */
  datatype Line = Line(field: string, level: string, color: Color)

  /** The lines printed, and the `KeyError` that ended the run, if any. */
  datatype Output = Output(lines: seq<Line>, error: Option<LevelError>) {
    /** `sys.exit(main(args))`: 0 when `main` returns, 1 on an uncaught error. */
    function ExitCode(): nat {
      if error.None? then 0 else 1
    }
  }

  function Max(a: nat, b: nat): nat {
    if a < b then b else a
  }

  function Spaces(n: nat): (r: string)
    ensures |r| == n
    ensures forall i :: 0 <= i < n ==> r[i] == ' '
  {
    if n == 0 then "" else [' '] + Spaces(n - 1)
  }

  /** Python's `format(s, '<width')`: pad on the right with spaces up to
      `width`; a longer `s` is kept whole, never cut. */
  function PadRight(s: string, width: nat): (r: string)
    ensures |r| == Max(|s|, width)
    ensures r[..|s|] == s
    ensures forall i :: |s| <= i < |r| ==> r[i] == ' '
  {
    if |s| < width then s + Spaces(width - |s|) else s
  }

  /** The script's `not state`: no state filter, or an empty one. */
  predicate NoStateFilter(stateFilter: Option<string>) {
    stateFilter.None? || stateFilter.value == ""
  }

  /** The unpadded text in front of the level. */
  function Prefix(item: Record, stateFilter: Option<string>): string
  {
    if NoStateFilter(stateFilter) then item.county + " (" + item.state + "): "
    else item.county + ": "
  }

  function Width(stateFilter: Option<string>): nat
  {
    if NoStateFilter(stateFilter) then WideWidth else NarrowWidth
  }

  /** `not state`: no filter and an empty filter both give the wide
      `county (state): ` prefix in 35 columns; any other filter gives the
      narrow `county: ` prefix in 24 columns. */
  lemma PrefixChoice(item: Record, state: string)
    ensures Prefix(item, None) == Prefix(item, Some("")) == item.county + " (" + item.state + "): "
    ensures Width(None) == Width(Some("")) == WideWidth
    ensures state != "" ==> Prefix(item, Some(state)) == item.county + ": "
    ensures state != "" ==> Width(Some(state)) == NarrowWidth
  {
  }

  /** The text of a line without the terminal colour codes. */
  function Text(line: Line): string {
    line.field + line.level
  }

  /** One iteration of the loop in `main`: the colour lookup, which fails on
      an unknown level before anything of the line is printed, then the
      padded prefix and the level as written. */
  function RenderLine(item: Record, stateFilter: Option<string>): (r: Result<Line, LevelError>)
    ensures r.Failure? <==> ColorOf(item.level).None?
    ensures r.Failure? ==> r.error == UnknownLevel(Lower(item.level))
    ensures r.Success? ==>
              && r.value.level == item.level
              && Some(r.value.color) == ColorOf(item.level)
              && |r.value.field| == Max(|Prefix(item, stateFilter)|, Width(stateFilter))
              && r.value.field[..|Prefix(item, stateFilter)|] == Prefix(item, stateFilter)
              && (forall i :: |Prefix(item, stateFilter)| <= i < |r.value.field| ==> r.value.field[i] == ' ')
  {
    match ColorOf(item.level)
    case None => Failure(UnknownLevel(Lower(item.level)))
    case Some(c) => Success(Line(PadRight(Prefix(item, stateFilter), Width(stateFilter)), item.level, c))
  }

  /** The loop of `main` over already sorted rows: lines are printed as the
      loop goes, so a failing row leaves the lines before it on the screen. */
  function RenderAll(items: seq<Record>, stateFilter: Option<string>): (r: Output)
    ensures |r.lines| <= |items|
    ensures forall i :: 0 <= i < |r.lines| ==> RenderLine(items[i], stateFilter) == Success(r.lines[i])
    ensures r.error.None? ==> |r.lines| == |items|
    ensures r.error.Some? ==>
              |r.lines| < |items| && RenderLine(items[|r.lines|], stateFilter) == Failure(r.error.value)
  {
    if |items| == 0 then Output([], None)
    else match RenderLine(items[0], stateFilter)
      case Failure(e) => Output([], Some(e))
      case Success(line) =>
        var rest := RenderAll(items[1..], stateFilter);
        PrependLine(items, stateFilter, line, rest.lines);
        Output([line] + rest.lines, rest.error)
  }

  /** A line rendered from the first row, followed by lines rendered from
      the rest, are lines rendered from all the rows. */
  lemma PrependLine(items: seq<Record>, stateFilter: Option<string>, line: Line, rest: seq<Line>)
    requires 0 < |items| && RenderLine(items[0], stateFilter) == Success(line)
    requires |rest| < |items|
    requires forall i :: 0 <= i < |rest| ==> RenderLine(items[1..][i], stateFilter) == Success(rest[i])
    ensures forall i :: 0 <= i < |rest| + 1 ==> RenderLine(items[i], stateFilter) == Success(([line] + rest)[i])
  {
    forall i | 0 < i < |rest| + 1
      ensures RenderLine(items[i], stateFilter) == Success(([line] + rest)[i])
    {
      assert items[i] == items[1..][i - 1];
      assert ([line] + rest)[i] == rest[i - 1];
    }
  }

  /** The loop runs to the end exactly when every level has a colour; else
      it stops at the first row whose level has none. */
  lemma RenderAllFails(items: seq<Record>, stateFilter: Option<string>)
    ensures var r := RenderAll(items, stateFilter);
            && (r.error.None? <==> forall i :: 0 <= i < |items| ==> ColorOf(items[i].level).Some?)
            && (r.error.Some? ==>
                  && r.error.value == UnknownLevel(Lower(items[|r.lines|].level))
                  && forall i :: 0 <= i < |r.lines| ==> ColorOf(items[i].level).Some?)
  {
    var r := RenderAll(items, stateFilter);
    if r.error.Some? {
      assert ColorOf(items[|r.lines|].level).None?;
    }
  }

  /** `main`: sort, then print. A sort failure prints nothing. */
  function Report(rows: seq<Record>, stateFilter: Option<string>): (r: Output)
    ensures r.error.None? <==> AllRanked(rows)
    ensures r.error.Some? ==> r.lines == []
    ensures r.error.None? ==> |r.lines| == |rows|
    ensures r.ExitCode() == 0 <==> AllRanked(rows)
    ensures r.error.Some? ==> r.error.value == SortByLevel(rows).error
    ensures r.error.None? ==>
              forall i :: 0 <= i < |r.lines| ==> RenderLine(SortByLevel(rows).value[i], stateFilter) == Success(r.lines[i])
  {
    match SortByLevel(rows)
    case Failure(e) => Output([], Some(e))
    case Success(sorted) =>
      assert forall i :: 0 <= i < |sorted| ==> ColorOf(sorted[i].level).Some? by {
        forall i | 0 <= i < |sorted| {
          TablesAgree(sorted[i].level);
        }
      }
      RenderAllFails(sorted, stateFilter);
      RenderAll(sorted, stateFilter)
  }

  /** A printed line reads back as the prefix, spaces up to the column,
      and the level text exactly as the data set spelled it, starting at
      column `max(len(prefix), width)`. */
  lemma LineLayout(item: Record, stateFilter: Option<string>)
    requires ColorOf(item.level).Some?
    ensures RenderLine(item, stateFilter).Success?
    ensures var text := Text(RenderLine(item, stateFilter).value);
            var p := Prefix(item, stateFilter);
            var col := Max(|p|, Width(stateFilter));
            && |text| == col + |item.level|
            && text[..|p|] == p
            && (forall i :: |p| <= i < col ==> text[i] == ' ')
            && text[col..] == item.level
  {
    var line := RenderLine(item, stateFilter).value;
    var text := Text(line);
    var p := Prefix(item, stateFilter);
    assert text[..|line.field|] == line.field;
    assert text[..|p|] == line.field[..|p|];
  }

  /** With a successful sort, line `i` of the report is row `i` of the
      sorted order rendered: its colour, its level in the original case,
      and its prefix padded to the column. */
  lemma ReportFollowsSort(rows: seq<Record>, stateFilter: Option<string>, i: nat)
    requires AllRanked(rows) && i < |rows|
    ensures var sorted := SortByLevel(rows).value;
            var line := Report(rows, stateFilter).lines[i];
            && line.level == sorted[i].level
            && Some(line.color) == ColorOf(sorted[i].level)
            && RenderLine(sorted[i], stateFilter) == Success(line)
  {
  }

  /** No rows: nothing printed, exit status 0. */
  lemma EmptyReport(stateFilter: Option<string>)
    ensures Report([], stateFilter) == Output([], None)
    ensures Report([], stateFilter).ExitCode() == 0
  {
  }

  lemma PadExamples()
    ensures PadRight("Allegany County (New York): ", WideWidth) == "Allegany County (New York):        "
    ensures PadRight("Bexar County (Texas): ", WideWidth) == "Bexar County (Texas):              "
    ensures PadRight("Allegany County: ", NarrowWidth) == "Allegany County:        "
  {
    assert Spaces(7) == "       ";
    assert Spaces(13) == "             ";
  }

  lemma AlleganyLine()
    ensures RenderLine(Record("Allegany County", "New York", "High"), None)
              == Success(Line("Allegany County (New York):        ", "High", Red))
  {
    var allegany := Record("Allegany County", "New York", "High");
    HighSpellings();
    PadExamples();
    assert Prefix(allegany, None) == "Allegany County (New York): ";
  }

  lemma BexarLine()
    ensures RenderLine(Record("Bexar County", "Texas", "Medium"), None)
              == Success(Line("Bexar County (Texas):              ", "Medium", Yellow))
  {
    var bexar := Record("Bexar County", "Texas", "Medium");
    OtherSpellings();
    PadExamples();
    assert Prefix(bexar, None) == "Bexar County (Texas): ";
  }

  /** Two lines rendered in order, each by its own row. */
  lemma TwoLines(a: Record, b: Record, la: Line, lb: Line, stateFilter: Option<string>)
    requires RenderLine(a, stateFilter) == Success(la)
    requires RenderLine(b, stateFilter) == Success(lb)
    ensures RenderAll([a, b], stateFilter) == Output([la, lb], None)
  {
    assert [a, b][1..] == [b];
    assert RenderAll([b], stateFilter) == Output([lb], None);
  }

  /** Two rows reported without a state filter: the high county comes
      first, in red, then the medium one in yellow, both with the
      `county (state): ` prefix padded to 35 columns. */
  lemma TwoCountyExample()
    ensures
      var bexar := Record("Bexar County", "Texas", "Medium");
      var allegany := Record("Allegany County", "New York", "High");
      Report([bexar, allegany], None)
        == Output([Line("Allegany County (New York):        ", "High", Red),
                   Line("Bexar County (Texas):              ", "Medium", Yellow)], None)
  {
    var bexar := Record("Bexar County", "Texas", "Medium");
    var allegany := Record("Allegany County", "New York", "High");
    HighSpellings();
    OtherSpellings();
    SwapByRank(bexar, allegany);
    AlleganyLine();
    BexarLine();
    TwoLines(allegany, bexar, Line("Allegany County (New York):        ", "High", Red),
             Line("Bexar County (Texas):              ", "Medium", Yellow), None);
  }

  /** With a state filter the prefix is only `county: `, padded to 24. */
  lemma StateFilterExample()
    ensures
      var allegany := Record("Allegany County", "New York", "High");
      Report([allegany], Some("New York"))
        == Output([Line("Allegany County:        ", "High", Red)], None)
  {
    var allegany := Record("Allegany County", "New York", "High");
    PadExamples();
    HighSpellings();
    assert Prefix(allegany, Some("New York")) == "Allegany County: ";
    SingleRow(allegany);
    assert RenderAll([allegany], Some("New York")).lines[0] == Line("Allegany County:        ", "High", Red);
    assert RenderLine(allegany, Some("New York")) == Success(Line("Allegany County:        ", "High", Red));
  }

  /** The facts `RenderAll` promises pin its result down completely. */
  lemma RenderAllDetermined(items: seq<Record>, stateFilter: Option<string>, o: Output)
    requires |o.lines| <= |items|
    requires forall i :: 0 <= i < |o.lines| ==> RenderLine(items[i], stateFilter) == Success(o.lines[i])
    requires o.error.None? ==> |o.lines| == |items|
    requires o.error.Some? ==>
               |o.lines| < |items| && RenderLine(items[|o.lines|], stateFilter) == Failure(o.error.value)
    ensures o == RenderAll(items, stateFilter)
  {
    var r := RenderAll(items, stateFilter);
    assert |o.lines| == |r.lines|;
    assert o.lines == r.lines;
  }

  /** The `for` loop of `main` written as a loop: it prints exactly the
      lines `RenderAll` describes and stops at the same row. */
  method PrintLines(items: seq<Record>, stateFilter: Option<string>) returns (out: Output)
    ensures out == RenderAll(items, stateFilter)
  {
    var lines: seq<Line> := [];
    var i := 0;
    while i < |items|
      invariant i <= |items| && |lines| == i
      invariant forall j :: 0 <= j < i ==> RenderLine(items[j], stateFilter) == Success(lines[j])
    {
      match RenderLine(items[i], stateFilter)
      case Failure(e) =>
        out := Output(lines, Some(e));
        RenderAllDetermined(items, stateFilter, out);
        return;
      case Success(line) =>
        lines := lines + [line];
        i := i + 1;
    }
    out := Output(lines, None);
    RenderAllDetermined(items, stateFilter, out);
  }
}
