/**
 * The classification pass of `main`: every row of the metadata table is
 * reconciled against the required identifiers, put into one availability
 * bucket and counted for title, abstract and full text.
 */
module Coverage {
  import opened Text
  import opened Records
  import opened FieldPresence
  import DocIds

  /** Which auxiliary JSON files a row declares. */
  datatype Bucket = BothJson | PmcOnly | PdfOnly | NoJson

  /** The eight counters of `main`. */
  datatype Tally = Tally(
    notCovered: nat,
    pmcOnly: nat,
    pdfOnly: nat,
    bothJson: nat,
    noJson: nat,
    title: nat,
    abstractText: nat,
    fulltext: nat)

  const Zero := Tally(0, 0, 0, 0, 0, 0, 0, 0)

  /** Everything the pass carries from row to row: the identifiers not yet
      found and the counters. */
  datatype State = State(required: set<string>, tally: Tally)

  /** A flag cell is set only when it is exactly the string `True`. */
  predicate IsTrue(cell: string) {
    cell == "True"
  }

  /** The bucket of a row, from its two flag cells, the PMC flag first. */
  function BucketOf(row: Row): Bucket {
    if IsTrue(row.hasPmcXmlParse) then
      (if IsTrue(row.hasPdfParse) then BothJson else PmcOnly)
    else if IsTrue(row.hasPdfParse) then PdfOnly
    else NoJson
  }

  /** The auxiliary file a row points to: its PMC JSON when it has one,
      otherwise the PDF JSON named by the first hash of `sha`. */
  function AuxPathOf(row: Row): Option<AuxPath> {
    if IsTrue(row.hasPmcXmlParse) then Some(PmcJson(row.fullTextFile, row.pmcid))
    else if IsTrue(row.hasPdfParse) then Some(PdfJson(row.fullTextFile, FirstToken(row.sha, ';')))
    else None
  }

  function BucketCount(t: Tally, b: Bucket): nat {
    match b
    case BothJson => t.bothJson
    case PmcOnly => t.pmcOnly
    case PdfOnly => t.pdfOnly
    case NoJson => t.noJson
  }

  /** The number of rows that were matched: each one lands in one bucket. */
  function Matched(t: Tally): nat {
    t.bothJson + t.pmcOnly + t.pdfOnly + t.noJson
  }

  function Bump(t: Tally, b: Bucket): Tally {
    match b
    case BothJson => t.(bothJson := t.bothJson + 1)
    case PmcOnly => t.(pmcOnly := t.pmcOnly + 1)
    case PdfOnly => t.(pdfOnly := t.pdfOnly + 1)
    case NoJson => t.(noJson := t.noJson + 1)
  }

  function Credit(t: Tally, info: Info): Tally {
    t.(title := t.title + (if info.title then 1 else 0),
       abstractText := t.abstractText + (if info.abstractText then 1 else 0),
       fulltext := t.fulltext + (if info.fulltext then 1 else 0))
  }

  /** One iteration of the loop over the metadata table. */
  function Step(st: State, row: Row, load: AuxPath -> Parse): State {
    if row.cordUid !in st.required then
      State(st.required, st.tally.(notCovered := st.tally.notCovered + 1))
    else
      State(st.required - {row.cordUid},
            Credit(Bump(st.tally, BucketOf(row)), Presence(row, AuxPathOf(row), load)))
  }

  /** The loop over the rows, in table order. */
  function Run(st: State, rows: seq<Row>, load: AuxPath -> Parse): State {
    if rows == [] then st
    else Step(Run(st, rows[..|rows| - 1], load), rows[|rows| - 1], load)
  }

  /** The set of identifiers the rows carry. */
  function Uids(rows: seq<Row>): set<string> {
    set i | 0 <= i < |rows| :: rows[i].cordUid
  }

  // ---------------------------------------------------------------------
  // One row

  /** A row whose identifier is not (or no longer) required counts as not
      covered, and nothing else changes. */
  lemma StepUnmatched(st: State, row: Row, load: AuxPath -> Parse)
    requires row.cordUid !in st.required
    ensures Step(st, row, load) == State(st.required, st.tally.(notCovered := st.tally.notCovered + 1))
  {
  }

  /** A matched row leaves the required set, does not count as not covered,
      goes into exactly one bucket, the one its flags choose, and raises
      each presence counter by its flag. */
  lemma StepMatched(st: State, row: Row, load: AuxPath -> Parse)
    requires row.cordUid in st.required
    ensures var st' := Step(st, row, load);
      && st'.required == st.required - {row.cordUid}
      && st'.tally.notCovered == st.tally.notCovered
      && (forall b :: BucketCount(st'.tally, b) == BucketCount(st.tally, b) + (if b == BucketOf(row) then 1 else 0))
      && Matched(st'.tally) == Matched(st.tally) + 1
      && st'.tally.title == st.tally.title + (if Presence(row, AuxPathOf(row), load).title then 1 else 0)
      && st'.tally.abstractText == st.tally.abstractText + (if Presence(row, AuxPathOf(row), load).abstractText then 1 else 0)
      && st'.tally.fulltext == st.tally.fulltext + (if Presence(row, AuxPathOf(row), load).fulltext then 1 else 0)
  {
  }

  /** The bucket is chosen by the two flag cells alone, in priority order. */
  lemma BucketByFlags(row: Row)
    ensures BucketOf(row) == BothJson <==> IsTrue(row.hasPmcXmlParse) && IsTrue(row.hasPdfParse)
    ensures BucketOf(row) == PmcOnly <==> IsTrue(row.hasPmcXmlParse) && !IsTrue(row.hasPdfParse)
    ensures BucketOf(row) == PdfOnly <==> !IsTrue(row.hasPmcXmlParse) && IsTrue(row.hasPdfParse)
    ensures BucketOf(row) == NoJson <==> !IsTrue(row.hasPmcXmlParse) && !IsTrue(row.hasPdfParse)
    ensures AuxPathOf(row).None? <==> BucketOf(row) == NoJson
  {
  }

  /** In the PDF-only case the file is named by the first `;`-separated hash
      of `sha`: a prefix of `sha` that holds no `;`. */
  lemma PdfPathUsesFirstHash(row: Row)
    requires BucketOf(row) == PdfOnly
    ensures AuxPathOf(row).Some? && AuxPathOf(row).value.PdfJson?
    ensures var token := AuxPathOf(row).value.sha;
      token == Split(row.sha, ';')[0] && token <= row.sha && ';' !in token &&
      (token == row.sha || row.sha[|token|] == ';')
  {
    FirstTokenIsPrefix(row.sha, ';');
  }

  // ---------------------------------------------------------------------
  // The whole table

  /** Every row is counted once: as not covered or in one bucket. */
  lemma {:induction false} RunConserves(st: State, rows: seq<Row>, load: AuxPath -> Parse)
    ensures var t := Run(st, rows, load).tally;
      t.notCovered + Matched(t) == st.tally.notCovered + Matched(st.tally) + |rows|
  {
    if rows != [] {
      var n := |rows| - 1;
      RunConserves(st, rows[..n], load);
    }
  }

  /** Each presence counter grows by at most the number of matched rows. */
  lemma {:induction false} RunPresenceBounded(st: State, rows: seq<Row>, load: AuxPath -> Parse)
    ensures var t := Run(st, rows, load).tally;
      && t.title + Matched(st.tally) <= st.tally.title + Matched(t)
      && t.abstractText + Matched(st.tally) <= st.tally.abstractText + Matched(t)
      && t.fulltext + Matched(st.tally) <= st.tally.fulltext + Matched(t)
  {
    if rows != [] {
      var n := |rows| - 1;
      RunPresenceBounded(st, rows[..n], load);
    }
  }

  /** The identifiers of a table grow by one row's identifier per row. */
  lemma UidsSnoc(rows: seq<Row>, n: nat)
    requires n < |rows|
    ensures Uids(rows[..n + 1]) == Uids(rows[..n]) + {rows[n].cordUid}
  {
    var prefix, longer := rows[..n], rows[..n + 1];
    forall u | u in Uids(longer) ensures u in Uids(prefix) + {rows[n].cordUid} {
      var i :| 0 <= i < |longer| && longer[i].cordUid == u;
      if i < n { assert prefix[i] == longer[i]; }
    }
    forall u | u in Uids(prefix) ensures u in Uids(longer) {
      var i :| 0 <= i < n && prefix[i].cordUid == u;
      assert longer[i] == prefix[i];
    }
  }

  /** What is left of the required set is the initial set minus every
      identifier of the table. */
  lemma {:induction false} RunRequired(st: State, rows: seq<Row>, load: AuxPath -> Parse)
    ensures Run(st, rows, load).required == st.required - Uids(rows)
  {
    if rows != [] {
      var n := |rows| - 1;
      RunRequired(st, rows[..n], load);
      UidsSnoc(rows, n);
      assert rows[..n + 1] == rows;
    }
  }

  /** Each match removes one identifier: the matched rows are exactly as
      many as the identifiers the pass found. */
  lemma {:induction false} RunMatchedRemoves(st: State, rows: seq<Row>, load: AuxPath -> Parse)
    ensures var end := Run(st, rows, load);
      end.required <= st.required &&
      Matched(end.tally) + |end.required| == Matched(st.tally) + |st.required|
  {
    if rows != [] {
      var n := |rows| - 1;
      RunMatchedRemoves(st, rows[..n], load);
      var mid := Run(st, rows[..n], load);
      if rows[n].cordUid in mid.required {
        StepMatched(mid, rows[n], load);
        assert |mid.required - {rows[n].cordUid}| == |mid.required| - 1;
      }
    }
  }

  /** The buckets, the not-covered count and the required set do not depend
      on what the auxiliary files hold or whether they parse. */
  lemma {:induction false} RunBucketsIgnoreFiles(st: State, rows: seq<Row>, load1: AuxPath -> Parse, load2: AuxPath -> Parse)
    ensures var a := Run(st, rows, load1); var b := Run(st, rows, load2);
      && a.required == b.required
      && a.tally.notCovered == b.tally.notCovered
      && a.tally.bothJson == b.tally.bothJson
      && a.tally.pmcOnly == b.tally.pmcOnly
      && a.tally.pdfOnly == b.tally.pdfOnly
      && a.tally.noJson == b.tally.noJson
  {
    if rows != [] {
      var n := |rows| - 1;
      RunBucketsIgnoreFiles(st, rows[..n], load1, load2);
    }
  }

  /** A later row with an identifier an earlier row already matched counts
      as not covered, and changes nothing else. */
  lemma RunDuplicateNotCovered(st: State, rows: seq<Row>, load: AuxPath -> Parse, i: nat, j: nat)
    requires i < j < |rows| && rows[i].cordUid == rows[j].cordUid
    ensures var before := Run(st, rows[..j], load);
      Run(st, rows[..j + 1], load) ==
        State(before.required, before.tally.(notCovered := before.tally.notCovered + 1))
  {
    RunRequired(st, rows[..j], load);
    assert rows[..j][i] == rows[i];
    assert rows[..j + 1][..j] == rows[..j];
  }

  /** With nothing required every row counts as not covered, and nothing else
      changes (the empty identifier list). */
  lemma {:induction false} RunNothingRequired(t: Tally, rows: seq<Row>, load: AuxPath -> Parse)
    ensures Run(State({}, t), rows, load) == State({}, t.(notCovered := t.notCovered + |rows|))
  {
    if rows != [] {
      RunNothingRequired(t, rows[..|rows| - 1], load);
    }
  }

  /** What a whole pass, started with all counters at zero, reports. */
  lemma PassSummary(docids: set<string>, rows: seq<Row>, load: AuxPath -> Parse)
    ensures var end := Run(State(docids, Zero), rows, load);
      && end.tally.notCovered + Matched(end.tally) == |rows|
      && Matched(end.tally) + |end.required| == |docids|
      && end.tally.title <= Matched(end.tally)
      && end.tally.abstractText <= Matched(end.tally)
      && end.tally.fulltext <= Matched(end.tally)
      && end.required == docids - Uids(rows)
  {
    RunConserves(State(docids, Zero), rows, load);
    RunMatchedRemoves(State(docids, Zero), rows, load);
    RunPresenceBounded(State(docids, Zero), rows, load);
    RunRequired(State(docids, Zero), rows, load);
  }

  // ---------------------------------------------------------------------
  // The loop itself

  /** The loop of `main` over the rows of `metadata.csv`, with the required
      identifiers from `read_docids` and the file system given as `load`.
      It returns the identifiers never found and the eight counters. */
  method Classify(docids: set<string>, rows: seq<Row>, load: AuxPath -> Parse)
    returns (requiredDocids: set<string>, tally: Tally)
    ensures State(requiredDocids, tally) == Run(State(docids, Zero), rows, load)
    ensures requiredDocids == docids - Uids(rows)
    ensures tally.notCovered + Matched(tally) == |rows|
    ensures Matched(tally) + |requiredDocids| == |docids|
    ensures tally.title <= Matched(tally) && tally.abstractText <= Matched(tally) && tally.fulltext <= Matched(tally)
  {
    requiredDocids := docids;
    var notCoveredCount, pmcOnlyCount, pdfOnlyCount, bothJsonCount, noJsonCount := 0, 0, 0, 0, 0;
    var titleCount, abstractCount, fulltextCount := 0, 0, 0;

    for i := 0 to |rows|
      invariant Run(State(docids, Zero), rows[..i], load) ==
        State(requiredDocids, Tally(notCoveredCount, pmcOnlyCount, pdfOnlyCount, bothJsonCount,
                                    noJsonCount, titleCount, abstractCount, fulltextCount))
    {
      var row := rows[i];
      ghost var before := State(requiredDocids, Tally(notCoveredCount, pmcOnlyCount, pdfOnlyCount,
        bothJsonCount, noJsonCount, titleCount, abstractCount, fulltextCount));
      assert rows[..i + 1][..i] == rows[..i];
      assert Run(State(docids, Zero), rows[..i + 1], load) == Step(before, row, load);
      var cordUid := row.cordUid;
      if cordUid !in requiredDocids {
        notCoveredCount := notCoveredCount + 1;
        continue;
      }

      requiredDocids := requiredDocids - {cordUid};

      var filePath: Option<AuxPath> := None;
      if row.hasPmcXmlParse == "True" {
        filePath := Some(PmcJson(row.fullTextFile, row.pmcid));
        if row.hasPdfParse == "True" {
          bothJsonCount := bothJsonCount + 1;
        } else {
          pmcOnlyCount := pmcOnlyCount + 1;
        }
      } else if row.hasPdfParse == "True" {
        var sha := FirstToken(row.sha, ';');
        filePath := Some(PdfJson(row.fullTextFile, sha));
        pdfOnlyCount := pdfOnlyCount + 1;
      } else {
        noJsonCount := noJsonCount + 1;
      }

      assert filePath == AuxPathOf(row);
      assert Tally(notCoveredCount, pmcOnlyCount, pdfOnlyCount, bothJsonCount,
                   noJsonCount, titleCount, abstractCount, fulltextCount) == Bump(before.tally, BucketOf(row));
      var hasTitle, hasAbstract, hasFulltext := HasInfo(row, filePath, load);

      if hasTitle {
        titleCount := titleCount + 1;
      }
      if hasAbstract {
        abstractCount := abstractCount + 1;
      }
      if hasFulltext {
        fulltextCount := fulltextCount + 1;
      }
      assert State(requiredDocids, Tally(notCoveredCount, pmcOnlyCount, pdfOnlyCount, bothJsonCount,
                   noJsonCount, titleCount, abstractCount, fulltextCount)) == Step(before, row, load);
    }

    tally := Tally(notCoveredCount, pmcOnlyCount, pdfOnlyCount, bothJsonCount,
                   noJsonCount, titleCount, abstractCount, fulltextCount);
    assert rows[..|rows|] == rows;
    PassSummary(docids, rows, load);
  }

  /** `main` from line 70 on: read the identifier list, then classify the
      table. The result is the set reported as missing and the counters. */
  method GetStats(docidLines: seq<string>, rows: seq<Row>, load: AuxPath -> Parse)
    returns (missing: set<string>, tally: Tally)
    ensures missing == DocIds.DocidSet(docidLines) - Uids(rows)
    ensures State(missing, tally) == Run(State(DocIds.DocidSet(docidLines), Zero), rows, load)
    ensures tally.notCovered + Matched(tally) == |rows|
    ensures docidLines == [] ==> missing == {} && tally == Zero.(notCovered := |rows|)
  {
    var requiredDocids, count := DocIds.ReadDocids(docidLines);
    missing, tally := Classify(requiredDocids, rows, load);
    if docidLines == [] {
      RunNothingRequired(Zero, rows, load);
    }
  }
}
