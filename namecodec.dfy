/** The local naming convention `<canonical>_<YYYY-MM>`: the canonical name of
    an archive is everything before the last `_`, its version the last
    `_`-segment read as a year and month. */
module NameCodec {
  import opened Wrappers
  import opened PyStr
  import opened Calendar

  /** The two ways parsing fails; Python raises `ValueError` for both. */
  datatype Error =
    | MalformedName(name: string)    // a file name whose last segment is not `%Y-%m`
    | MalformedDate(issued: string)  // a catalog `issued` text that is not `%Y-%m-%d...`

  /** `strip_date_from_file_name`: `"_".join(name.split("_")[:-1])`. */
  function StripDate(name: string): (r: string)
    ensures r <= name
    ensures '_' !in name ==> r == ""
  {
    var parts := Split(name, '_');
    SplitLength(name, '_');
    JoinSplit(name, '_');
    if |parts| >= 2 then JoinSnoc(parts, '_'); Join(AllButLast(parts), '_')
    else Join(AllButLast(parts), '_')
  }

  /** `name.split("_")[-1]`, the version segment of a local name: the end of
      the name, without `_`. */
  function VersionSegment(name: string): (r: string)
    ensures '_' !in r
    ensures |r| <= |name| && name[|name| - |r|..] == r
  {
    var parts := Split(name, '_');
    JoinSplit(name, '_');
    if |parts| >= 2 then JoinSnoc(parts, '_'); Last(parts)
    else Last(parts)
  }

  /** `get_file_name_issued_date`: the version segment parsed with
      `strptime(..., "%Y-%m")`, i.e. the first day of that month. */
  function FileNameIssuedDate(name: string): (r: Result<Date, Error>)
    ensures r.Ok? ==> ValidDate(r.value) && r.value.day == 1
    ensures r.Err? ==> r.error == MalformedName(name)
  {
    match ParseYearMonth(VersionSegment(name))
    case Some(d) => Ok(d)
    case None => Err(MalformedName(name))
  }

  /** The name of the local file holding version `d` of archive `canonical`. */
  function LocalFileName(canonical: string, d: Date): string
    requires ValidDate(d)
  {
    canonical + "_" + FormatYearMonth(d)
  }

  // ---------------------------------------------------------------------

  /** Appending `_` and a segment without `_` is undone by the codec: the
      canonical name and the segment come back. */
  lemma {:induction false} StripDateOfVersioned(canonical: string, version: string)
    requires '_' !in version
    ensures StripDate(canonical + "_" + version) == canonical
    ensures VersionSegment(canonical + "_" + version) == version
  {
    SplitAround(canonical, '_', version);
    SplitWithoutSep(version, '_');
    var parts := Split(canonical + "_" + version, '_');
    assert parts == Split(canonical, '_') + [version];
    assert AllButLast(parts) == Split(canonical, '_');
    JoinSplit(canonical, '_');
  }

  /** A name without `_` has the empty canonical name and is all version. */
  lemma StripDateOfUnversioned(name: string)
    requires '_' !in name
    ensures StripDate(name) == ""
    ensures VersionSegment(name) == name
  {
    SplitWithoutSep(name, '_');
  }

  /** A name with a `_` is its canonical name, `_`, and its version segment,
      and the version segment holds no `_`: the split is at the last `_`. */
  lemma {:induction false} NameSplitsAtLastUnderscore(name: string)
    requires '_' in name
    ensures name == StripDate(name) + "_" + VersionSegment(name)
    ensures '_' !in VersionSegment(name)
  {
    var parts := Split(name, '_');
    SplitLength(name, '_');
    JoinSnoc(parts, '_');
    JoinSplit(name, '_');
  }

  /** Encoding a canonical name and a month and decoding the result gives both back. */
  lemma {:induction false} LocalFileNameRoundTrip(canonical: string, d: Date)
    requires ValidDate(d) && d.day == 1
    ensures StripDate(LocalFileName(canonical, d)) == canonical
    ensures FileNameIssuedDate(LocalFileName(canonical, d)) == Ok(d)
  {
    var v := FormatYearMonth(d);
    assert '_' !in v by {
      assert v == Pad4(d.year) + "-" + Pad2(d.month);
      forall i | 0 <= i < |v| ensures v[i] != '_' {
        if i != 4 { assert IsDigit(v[i]); }
      }
    }
    StripDateOfVersioned(canonical, v);
    ParseFormatYearMonth(d);
  }

  /** Every version segment that parses spells its month: four year digits,
      `-`, and the month in two digits or, below 10, in one. Any other last
      segment is refused. */
  lemma FileNameVersionSpelled(name: string) returns (mt: string)
    requires FileNameIssuedDate(name).Ok?
    ensures var d := FileNameIssuedDate(name).value;
      VersionSegment(name) == Pad4(d.year) + "-" + mt && MonthSpelling(d.month, mt)
  {
    mt := ParseYearMonthSpelled(VersionSegment(name));
  }

  /** And every such spelling is read as the first of its month. */
  lemma FileNameIssuedDateOfSpelling(name: string, d: Date, mt: string)
    requires ValidDate(d) && d.day == 1 && MonthSpelling(d.month, mt)
    requires VersionSegment(name) == Pad4(d.year) + "-" + mt
    ensures FileNameIssuedDate(name) == Ok(d)
  {
    ParseYearMonthOfSpelling(d, mt);
  }
}
