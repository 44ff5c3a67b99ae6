/**
 * Concrete runs of the classification pass: a small table against a small
 * identifier list, a matched row whose auxiliary file cannot be read, and an
 * empty identifier list.
 */
module Scenarios {
  import opened Records
  import opened FieldPresence
  import opened Coverage
  import DocIds

  /** `d1`: PMC JSON only, a title, no abstract. */
  function RowD1(): Row {
    Row("d1", "", "True", "False", "document_parses", "X", "", "PMC1")
  }

  /** `d2`: no JSON at all, neither title nor abstract. */
  function RowD2(): Row {
    Row("d2", "", "False", "False", "", "", "", "")
  }

  /** Identifiers `d1`, `d2`, `d3` against a table holding `d1` and `d2`:
      nothing is extraneous, one row is PMC-only, one has no JSON, `d3` is
      missing, exactly one title (that of `d1`) is counted, and an abstract is counted only
      when the PMC file of `d1` supplies one. */
  lemma ScenarioA(load: AuxPath -> Parse)
    ensures var end := Run(State({"d1", "d2", "d3"}, Zero), [RowD1(), RowD2()], load);
      && end.required == {"d3"}
      && end.tally.notCovered == 0
      && end.tally.pmcOnly == 1 && end.tally.noJson == 1
      && end.tally.bothJson == 0 && end.tally.pdfOnly == 0
      && end.tally.title == 1
      && end.tally.fulltext <= 1
      && (end.tally.abstractText == 0 <==>
            !(load(PmcJson("document_parses", "PMC1")).Parsed? &&
              DocInfo(load(PmcJson("document_parses", "PMC1")).doc).abstractText))
  {
    var rows := [RowD1(), RowD2()];
    var st0 := State({"d1", "d2", "d3"}, Zero);
    assert rows[..1] == [RowD1()] && rows[..1][..0] == [];
    var st1 := Step(st0, RowD1(), load);
    assert Run(st0, rows[..1], load) == st1;
    assert "d2" in st1.required;
    assert Run(st0, rows, load) == Step(st1, RowD2(), load);
  }

  /** A matched row whose auxiliary file does not parse still lands in
      exactly one bucket and leaves the required set; its title and abstract
      come from the row alone and it has no full text. */
  lemma UnreadableFileFallsBack(st: State, row: Row, load: AuxPath -> Parse)
    requires row.cordUid in st.required
    requires AuxPathOf(row).Some? && load(AuxPathOf(row).value).ParseFailed?
    ensures var next := Step(st, row, load);
      && next.required == st.required - {row.cordUid}
      && BucketOf(row) != NoJson
      && Matched(next.tally) == Matched(st.tally) + 1
      && next.tally.notCovered == st.tally.notCovered
      && next.tally.title == st.tally.title + (if row.title != [] then 1 else 0)
      && next.tally.abstractText == st.tally.abstractText + (if row.abstractText != [] then 1 else 0)
      && next.tally.fulltext == st.tally.fulltext
  {
    StepMatched(st, row, load);
    FallbackToRow(row, AuxPathOf(row), load);
    BucketByFlags(row);
  }

  /** An empty identifier list yields no identifiers; every row of the table
      is then not covered and nothing is missing. */
  lemma EmptyIdentifierList(rows: seq<Row>, load: AuxPath -> Parse)
    ensures DocIds.DocidSet([]) == {}
    ensures Run(State(DocIds.DocidSet([]), Zero), rows, load) == State({}, Zero.(notCovered := |rows|))
  {
    assert DocIds.DocidSet([]) == {};
    RunNothingRequired(Zero, rows, load);
  }
}
