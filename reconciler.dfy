/** Which local archives have a newer version in the catalog, and the torrent
    link of each of those newer versions (`find_updates` and its helpers). */
module UpdateReconciler {
  import opened Wrappers
  import opened Calendar
  import opened NameCodec
  import opened CatalogIndex
  import opened Collections

  /** `element_newer_than_file`: the local file's month is read first, then the
      entry's issued day; the entry is newer when it was issued more than 31
      days after the first of the local file's month. A malformed local name
      raises before the entry is read; the test answers exactly when both
      dates parse. */
  function ElementNewerThanFile(name: string, e: Entry): (r: Result<bool, Error>)
    ensures FileNameIssuedDate(name).Err? ==> r == Err(MalformedName(name))
    ensures FileNameIssuedDate(name).Ok? && ElementIssuedDate(e).Err? ==> r == Err(MalformedDate(e.issued))
    ensures r.Ok? <==> FileNameIssuedDate(name).Ok? && ElementIssuedDate(e).Ok?
  {
    match FileNameIssuedDate(name)
    case Err(err) => Err(err)
    case Ok(fileDate) =>
      match ElementIssuedDate(e)
      case Err(err) => Err(err)
      case Ok(issued) => Ok(Ordinal(issued) - Ordinal(fileDate) > 31)
  }

  /** The 31-day rule in calendar terms: an entry issued in the local file's
      month or earlier is never newer, one issued two or more months later
      always is, and one issued in the following month is newer exactly when
      its day is past `32 - (length of the local file's month)`. */
  lemma NewerByMonths(name: string, e: Entry)
    requires FileNameIssuedDate(name).Ok? && ElementIssuedDate(e).Ok?
    ensures var fileDate := FileNameIssuedDate(name).value;
            var issued := ElementIssuedDate(e).value;
            var gap := MonthIndex(issued) - MonthIndex(fileDate);
            ElementNewerThanFile(name, e) ==
              Ok(gap >= 2 || (gap == 1 && issued.day > 32 - DaysInMonth(fileDate.year, fileDate.month)))
  {
    var fileDate := FileNameIssuedDate(name).value;
    var issued := ElementIssuedDate(e).value;
    var gap := MonthIndex(issued) - MonthIndex(fileDate);
    if gap <= 0 {
      NotLaterMonthDays(fileDate, issued);
    } else if gap == 1 {
      NextMonthDays(fileDate, issued);
    } else {
      LaterMonthDays(fileDate, issued);
    }
  }

  /** The scenario of a `wiki_en` entry issued on 5 July 2023: newer than the
      June 2023 file (34 days), not newer than a July 2023 file (4 days). */
  lemma NewerExample(dir: string, zimHref: string)
    ensures var e := Entry("2023-07-05T00:00:00Z", dir + "/" + "wiki_en_2023-07", zimHref);
            && ElementNewerThanFile("wiki_en_2023-06", e) == Ok(true)
            && ElementNewerThanFile("wiki_en_2023-07", e) == Ok(false)
  {
    var e := Entry("2023-07-05T00:00:00Z", dir + "/" + "wiki_en_2023-07", zimHref);
    var july5, june, july := Date(2023, 7, 5), Date(2023, 6, 1), Date(2023, 7, 1);
    ExampleSpellings();
    IssuedDateOfStamp(e, july5, "00:00:00Z");
    LocalFileNameRoundTrip("wiki_en", june);
    LocalFileNameRoundTrip("wiki_en", july);
    NewerByMonths("wiki_en_2023-06", e);
    NewerByMonths("wiki_en_2023-07", e);
  }

  lemma ExampleSpellings()
    ensures "2023-07-05T00:00:00Z" == FormatDate(Date(2023, 7, 5)) + "T" + "00:00:00Z"
    ensures LocalFileName("wiki_en", Date(2023, 6, 1)) == "wiki_en_2023-06"
    ensures LocalFileName("wiki_en", Date(2023, 7, 1)) == "wiki_en_2023-07"
  {
    ExampleStamp();
    ExampleMonth(6);
    ExampleMonth(7);
  }

  lemma ExampleStamp()
    ensures "2023-07-05T00:00:00Z" == FormatDate(Date(2023, 7, 5)) + "T" + "00:00:00Z"
  {
    assert Pad4(2023) == "2023" && Pad2(7) == "07" && Pad2(5) == "05";
  }

  lemma ExampleMonth(m: int)
    requires m == 6 || m == 7
    ensures LocalFileName("wiki_en", Date(2023, m, 1)) == "wiki_en_2023-0" + [DigitChar(m)]
  {
    assert Pad4(2023) == "2023" && Pad2(m) == "0" + [DigitChar(m)];
  }

  // ---------------------------------------------------------------------
  // get_updated_elements

  /** The step of `get_updated_elements` for one local name: nothing when the
      catalog has no entry for it, the entry when it is newer, nothing when it
      is not, and the error when the comparison raises. A name no entry
      answers for is skipped; a selected entry is one that answers for it. */
  function Verdict(entries: seq<Entry>, name: string): (r: Result<Option<Entry>, Error>)
    ensures (forall i :: 0 <= i < |entries| ==> !Matches(entries[i], name)) ==> r == Ok(None)
    ensures r.Ok? && r.value.Some? ==> r.value.value in entries && Matches(r.value.value, name)
  {
    match Lookup(entries, name)
    case None => Ok(None)
    case Some(entry) =>
      match ElementNewerThanFile(name, entry)
      case Err(err) => Err(err)
      case Ok(newer) => Ok(if newer then Some(entry) else None)
  }

  function Verdicts(entries: seq<Entry>, names: seq<string>): seq<Result<Option<Entry>, Error>>
  {
    seq(|names|, i requires 0 <= i < |names| => Verdict(entries, names[i]))
  }

  /** The entries newer than their local file, in the order of `names`; names
      without an entry are skipped; the first failing comparison aborts. */
  function UpdatedElements(entries: seq<Entry>, names: seq<string>): Result<seq<Entry>, Error>
  {
    Collect(Verdicts(entries, names))
  }

  /** `get_updated_elements`: the loop over the local names. */
  method GetUpdatedElements(entries: seq<Entry>, names: seq<string>) returns (r: Result<seq<Entry>, Error>)
    ensures r == UpdatedElements(entries, names)
  {
    ghost var vs := Verdicts(entries, names);
    var elements: seq<Entry> := [];
    var i := 0;
    while i < |names|
      invariant 0 <= i <= |names|
      invariant Collect(vs[..i]) == Ok(elements)
    {
      var name := names[i];
      CollectStep(vs, i);
      var entry := FindEntry(entries, name);
      if entry.None? {
        assert vs[i] == Ok(None);
        i := i + 1;
        continue;
      }
      var newer := ElementNewerThanFile(name, entry.value);
      if newer.Err? {
        assert vs[i] == Err(newer.error);
        CollectAbortKeeps(vs, i + 1);
        assert vs[..|vs|] == vs;
        return Err(newer.error);
      }
      if newer.value {
        assert vs[i] == Ok(Some(entry.value));
        elements := elements + [entry.value];
      } else {
        assert vs[i] == Ok(None);
      }
      i := i + 1;
    }
    assert vs[..i] == vs;
    return Ok(elements);
  }

  /** The three outcomes for one local name. */
  predicate Skipped(entries: seq<Entry>, name: string)
  {
    Lookup(entries, name).None? || ElementNewerThanFile(name, Lookup(entries, name).value) == Ok(false)
  }

  predicate Selected(entries: seq<Entry>, name: string, e: Entry)
  {
    Lookup(entries, name) == Some(e) && ElementNewerThanFile(name, e) == Ok(true)
  }

  predicate Failed(entries: seq<Entry>, name: string)
  {
    Lookup(entries, name).Some? && ElementNewerThanFile(name, Lookup(entries, name).value).Err?
  }

  /** The run fails exactly when the comparison of some name with its entry fails. */
  lemma UpdatedElementsFails(entries: seq<Entry>, names: seq<string>)
    ensures UpdatedElements(entries, names).Err? <==> exists i :: 0 <= i < |names| && Failed(entries, names[i])
  {
    var vs := Verdicts(entries, names);
    CollectFails(vs);
    if exists i :: 0 <= i < |names| && Failed(entries, names[i]) {
      var i :| 0 <= i < |names| && Failed(entries, names[i]);
      assert vs[i].Err?;
    }
  }

  /** A failed run reports the error of the first name whose comparison fails. */
  lemma UpdatedElementsFirstFailure(entries: seq<Entry>, names: seq<string>) returns (i: int)
    requires UpdatedElements(entries, names).Err?
    ensures 0 <= i < |names| && Failed(entries, names[i])
    ensures ElementNewerThanFile(names[i], Lookup(entries, names[i]).value)
            == Err(UpdatedElements(entries, names).error)
    ensures forall j :: 0 <= j < i ==> !Failed(entries, names[j])
  {
    var vs := Verdicts(entries, names);
    i := CollectFirstFailure(vs);
    forall j | 0 <= j < i ensures !Failed(entries, names[j]) {
      assert vs[j].Ok?;
    }
  }

  /** A successful run selects, in the order of `names`, exactly the entries
      newer than their local names, and skips every other name: `idx` gives
      the name each selected entry came from. */
  lemma UpdatedElementsSelect(entries: seq<Entry>, names: seq<string>) returns (idx: seq<int>)
    requires UpdatedElements(entries, names).Ok?
    ensures var found := UpdatedElements(entries, names).value;
      && |idx| == |found|
      && (forall k :: 0 <= k < |idx| ==> 0 <= idx[k] < |names| && Selected(entries, names[idx[k]], found[k]))
      && (forall k, l :: 0 <= k < l < |idx| ==> idx[k] < idx[l])
      && (forall i :: 0 <= i < |names| && i !in idx ==> Skipped(entries, names[i]))
  {
    var vs := Verdicts(entries, names);
    var found := UpdatedElements(entries, names).value;
    idx := CollectOk(vs);
    forall k | 0 <= k < |idx| ensures Selected(entries, names[idx[k]], found[k]) {
      assert vs[idx[k]] == Ok(Some(found[k]));
    }
    forall i | 0 <= i < |names| && i !in idx ensures Skipped(entries, names[i]) {
      assert vs[i] == Ok(None);
    }
  }

  /** Every selected entry answers for one of the local names. */
  lemma UpdatedElementsAnswer(entries: seq<Entry>, names: seq<string>, e: Entry)
    requires UpdatedElements(entries, names).Ok? && e in UpdatedElements(entries, names).value
    ensures exists i :: 0 <= i < |names| && StripDate(names[i]) == EntryCanonicalName(e)
  {
    var found := UpdatedElements(entries, names).value;
    var idx := UpdatedElementsSelect(entries, names);
    var k :| 0 <= k < |found| && found[k] == e;
  }

  // ---------------------------------------------------------------------
  // get_torrents_from_elements

  /** `get_torrents_from_elements`: canonical name to torrent link. */
  function TorrentsFromElements(es: seq<Entry>): map<string, string>
  {
    DictFrom(es, EntryCanonicalName, TorrentLink)
  }

  /** The keys are the canonical names of the elements. */
  lemma TorrentsFromElementsKeys(es: seq<Entry>)
    ensures TorrentsFromElements(es).Keys == set e | e in es :: EntryCanonicalName(e)
  {
    forall k ensures k in TorrentsFromElements(es) <==> k in (set e | e in es :: EntryCanonicalName(e)) {
      DictFromKeys(es, EntryCanonicalName, TorrentLink, k);
    }
  }

  /** Each key holds the torrent link of the last element with that canonical name. */
  lemma TorrentsFromElementsLastWins(es: seq<Entry>, i: int)
    requires 0 <= i < |es|
    requires forall j :: i < j < |es| ==> EntryCanonicalName(es[j]) != EntryCanonicalName(es[i])
    ensures EntryCanonicalName(es[i]) in TorrentsFromElements(es)
    ensures TorrentsFromElements(es)[EntryCanonicalName(es[i])] == TorrentLink(es[i])
  {
    DictFromLastWins(es, EntryCanonicalName, TorrentLink, i);
  }

  // ---------------------------------------------------------------------
  // find_updates, lines 128-139

  /** `stripped_date_map`: canonical name to the (last) local name carrying it. */
  function StrippedDateMap(zims: seq<string>): map<string, string>
  {
    DictFrom(zims, StripDate, (z: string) => z)
  }

  /** One line of the summary printed before downloading. */
  datatype ReportLine = ReportLine(canonical: string, oldDate: string, newDate: string)

  /** The summary lines: for each updated element its canonical name, the
      version segment of the local file `stripped_date_map` gives for it, and the
      version segment of the catalog's file name. */
  function ReportLines(stripped: map<string, string>, es: seq<Entry>): (lines: seq<ReportLine>)
    requires forall e | e in es :: EntryCanonicalName(e) in stripped
    ensures |lines| == |es|
    decreases |es|
  {
    if es == [] then []
    else
      assert es[0] in es;
      var newName := ElementFileName(es[0]);
      var canonical := EntryCanonicalName(es[0]);
      [ReportLine(canonical, VersionSegment(stripped[canonical]), VersionSegment(newName))]
        + ReportLines(stripped, es[1..])
  }

  /** What `find_updates` computes from the catalog and the local names: the
      summary lines and the torrent map it returns. */
  datatype Updates = Updates(report: seq<ReportLine>, torrents: map<string, string>)

  /** The lookup `stripped_date_map[canonical_name]` cannot fail: every updated
      element was found through a local name with its canonical name. */
  lemma UpdatedInStrippedMap(entries: seq<Entry>, zims: seq<string>)
    requires UpdatedElements(entries, zims).Ok?
    ensures forall e | e in UpdatedElements(entries, zims).value :: EntryCanonicalName(e) in StrippedDateMap(zims)
  {
    forall e | e in UpdatedElements(entries, zims).value
      ensures EntryCanonicalName(e) in StrippedDateMap(zims)
    {
      UpdatedElementsAnswer(entries, zims, e);
      DictFromKeys(zims, StripDate, (z: string) => z, EntryCanonicalName(e));
    }
  }

  /** The pure part of `find_updates`. */
  function FindUpdates(entries: seq<Entry>, zims: seq<string>): Result<Updates, Error>
  {
    match UpdatedElements(entries, zims)
    case Err(err) => Err(err)
    case Ok(es) =>
      UpdatedInStrippedMap(entries, zims);
      Ok(Updates(ReportLines(StrippedDateMap(zims), es), TorrentsFromElements(es)))
  }

  lemma {:induction false} ReportLinesAt(stripped: map<string, string>, es: seq<Entry>, i: int)
    requires forall e | e in es :: EntryCanonicalName(e) in stripped
    requires 0 <= i < |es|
    ensures |ReportLines(stripped, es)| == |es|
    ensures ReportLines(stripped, es)[i] ==
              ReportLine(EntryCanonicalName(es[i]),
                         VersionSegment(stripped[EntryCanonicalName(es[i])]),
                         VersionSegment(ElementFileName(es[i])))
    decreases |es|
  {
    if |es| > 1 {
      ReportLinesAt(stripped, es[1..], if i > 0 then i - 1 else 0);
    }
  }

  /** Line `i` of the summary names the canonical name of the `i`-th updated
      element, its catalog version, and the version of the last local file with
      that canonical name. */
  ghost predicate ReportsElement(zims: seq<string>, line: ReportLine, e: Entry)
  {
    && line.canonical == EntryCanonicalName(e)
    && line.newDate == VersionSegment(ElementFileName(e))
    && exists j :: 0 <= j < |zims| && StripDate(zims[j]) == line.canonical
                   && line.oldDate == VersionSegment(zims[j])
                   && forall l :: j < l < |zims| ==> StripDate(zims[l]) != StripDate(zims[j])
  }

  /** A successful `find_updates` reports one line per updated element, in
      order, and returns a torrent link for exactly the reported canonical names. */
  lemma FindUpdatesReport(entries: seq<Entry>, zims: seq<string>)
    requires FindUpdates(entries, zims).Ok?
    ensures var es := UpdatedElements(entries, zims).value;
            var u := FindUpdates(entries, zims).value;
            && |u.report| == |es|
            && (forall i :: 0 <= i < |es| ==> ReportsElement(zims, u.report[i], es[i]))
            && u.torrents.Keys == (set l | l in u.report :: l.canonical)
  {
    var es := UpdatedElements(entries, zims).value;
    var u := FindUpdates(entries, zims).value;
    UpdatedInStrippedMap(entries, zims);
    var stripped := StrippedDateMap(zims);
    assert u.report == ReportLines(stripped, es);
    assert u.torrents == TorrentsFromElements(es);
    forall i | 0 <= i < |es| ensures ReportsElement(zims, u.report[i], es[i]) {
      ReportLineOf(entries, zims, i);
    }
    ReportedTorrents(stripped, es);
  }

  /** The torrent map's keys are the canonical names of the summary lines. */
  lemma ReportedTorrents(stripped: map<string, string>, es: seq<Entry>)
    requires forall e | e in es :: EntryCanonicalName(e) in stripped
    ensures TorrentsFromElements(es).Keys == (set l | l in ReportLines(stripped, es) :: l.canonical)
  {
    var lines := ReportLines(stripped, es);
    TorrentsFromElementsKeys(es);
    forall c ensures c in TorrentsFromElements(es).Keys <==> c in (set l | l in lines :: l.canonical) {
      if c in TorrentsFromElements(es).Keys {
        var i :| 0 <= i < |es| && EntryCanonicalName(es[i]) == c;
        ReportLinesAt(stripped, es, i);
        assert lines[i] in lines;
      }
      if c in (set l | l in lines :: l.canonical) {
        var i :| 0 <= i < |lines| && lines[i].canonical == c;
        ReportLinesAt(stripped, es, i);
        assert es[i] in es;
      }
    }
  }

  lemma ReportLineOf(entries: seq<Entry>, zims: seq<string>, i: int)
    requires UpdatedElements(entries, zims).Ok?
    requires 0 <= i < |UpdatedElements(entries, zims).value|
    ensures forall e | e in UpdatedElements(entries, zims).value :: EntryCanonicalName(e) in StrippedDateMap(zims)
    ensures ReportsElement(zims, ReportLines(StrippedDateMap(zims), UpdatedElements(entries, zims).value)[i],
                           UpdatedElements(entries, zims).value[i])
  {
    var es := UpdatedElements(entries, zims).value;
    var stripped := StrippedDateMap(zims);
    UpdatedInStrippedMap(entries, zims);
    ReportLinesAt(stripped, es, i);
    var c := EntryCanonicalName(es[i]);
    UpdatedElementsAnswer(entries, zims, es[i]);
    var j := LastWithCanonical(zims, c);
    DictFromLastWins(zims, StripDate, (z: string) => z, j);
  }

  /** The last local name with canonical name `c`, given that there is one. */
  lemma {:induction false} LastWithCanonical(zims: seq<string>, c: string) returns (j: int)
    requires exists i :: 0 <= i < |zims| && StripDate(zims[i]) == c
    ensures 0 <= j < |zims| && StripDate(zims[j]) == c
    ensures forall l :: j < l < |zims| ==> StripDate(zims[l]) != c
    decreases |zims|
  {
    var n := |zims| - 1;
    if StripDate(zims[n]) == c {
      j := n;
    } else {
      var prefix := zims[..n];
      var i :| 0 <= i < |zims| && StripDate(zims[i]) == c;
      assert prefix[i] == zims[i];
      j := LastWithCanonical(prefix, c);
      assert prefix[j] == zims[j];
    }
  }
}
