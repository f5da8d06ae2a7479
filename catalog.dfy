/** The Kiwix catalog as a sequence of Atom entries in document order, and the
    lookups the updater makes in it. Each entry keeps the three things read
    from it: the `issued` text, the `href` of its `text/html` link and the
    `href` of its `application/x-zim` link (a Metalink `.meta4` URL). */
module CatalogIndex {
  import opened Wrappers
  import opened PyStr
  import opened Calendar
  import opened NameCodec

  datatype Entry = Entry(issued: string, htmlHref: string, zimHref: string)

  /** `get_element_file_name`: the text after the last `/` of the html link. */
  function ElementFileName(e: Entry): (r: string)
    ensures '/' !in r
  {
    Last(Split(e.htmlHref, '/'))
  }

  /** The canonical name of an entry, from its html link's file name. */
  function EntryCanonicalName(e: Entry): string
  {
    StripDate(ElementFileName(e))
  }

  /** `get_element_issued_date`: the `issued` text up to its first `T`,
      parsed with `strptime(..., "%Y-%m-%d")`. */
  function ElementIssuedDate(e: Entry): (r: Result<Date, Error>)
    ensures r.Ok? ==> ValidDate(r.value)
    ensures r.Err? ==> r.error == MalformedDate(e.issued)
  {
    match ParseDate(Split(e.issued, 'T')[0])
    case Some(d) => Ok(d)
    case None => Err(MalformedDate(e.issued))
  }

  const Meta4: string := ".meta4"
  const TorrentSuffix: string := ".torrent"

  /** `torrent_link_for_element`: the x-zim link with `.meta4` replaced by `.torrent`. */
  function TorrentLink(e: Entry): string
  {
    Replace(e.zimHref, Meta4, TorrentSuffix)
  }

  /** An entry answers for a local file when their canonical names agree. */
  predicate Matches(e: Entry, name: string)
  {
    EntryCanonicalName(e) == StripDate(name)
  }

  /** The first entry, in document order, that answers for `name`. */
  function Lookup(entries: seq<Entry>, name: string): (r: Option<Entry>)
    ensures r.Some? ==> r.value in entries && Matches(r.value, name)
    decreases |entries|
  {
    if entries == [] then None
    else if Matches(entries[0], name) then Some(entries[0])
    else Lookup(entries[1..], name)
  }

  /** `get_element_by_file_name`: a scan of the entries that returns at the
      first match, and `None` when the loop runs out. */
  method FindEntry(entries: seq<Entry>, name: string) returns (r: Option<Entry>)
    ensures r == Lookup(entries, name)
  {
    var wanted := StripDate(name);
    var i := 0;
    while i < |entries|
      invariant 0 <= i <= |entries|
      invariant Lookup(entries, name) == Lookup(entries[i..], name)
    {
      var entry := entries[i];
      if StripDate(ElementFileName(entry)) == wanted {
        return Some(entry);
      }
      assert entries[i..][1..] == entries[i + 1..];
      i := i + 1;
    }
    return None;
  }

  // ---------------------------------------------------------------------

  /** `Lookup` finds the first matching entry, and finds nothing exactly when
      no entry matches. */
  lemma {:induction false} LookupFirstMatch(entries: seq<Entry>, name: string)
    ensures Lookup(entries, name).None? <==>
              forall i :: 0 <= i < |entries| ==> !Matches(entries[i], name)
    ensures Lookup(entries, name).Some? ==>
              exists i :: 0 <= i < |entries| && entries[i] == Lookup(entries, name).value
                          && Matches(entries[i], name)
                          && forall j :: 0 <= j < i ==> !Matches(entries[j], name)
    decreases |entries|
  {
    if entries != [] && !Matches(entries[0], name) {
      var tail := entries[1..];
      LookupFirstMatch(tail, name);
      assert forall i :: 0 <= i < |tail| ==> tail[i] == entries[i + 1];
      if Lookup(tail, name).Some? {
        var i :| 0 <= i < |tail| && tail[i] == Lookup(tail, name).value && Matches(tail[i], name)
                 && forall j :: 0 <= j < i ==> !Matches(tail[j], name);
        assert entries[i + 1] == tail[i];
        assert forall j :: 0 <= j < i + 1 ==> !Matches(entries[j], name) by {
          forall j | 0 <= j < i + 1 ensures !Matches(entries[j], name) {
            if j > 0 { assert entries[j] == tail[j - 1]; }
          }
        }
      } else {
        forall i | 0 <= i < |entries| ensures !Matches(entries[i], name) {
          if i > 0 { assert entries[i] == tail[i - 1]; }
        }
      }
    }
  }

  /** The file name is what follows the last `/` of the link. */
  lemma ElementFileNameOfPath(e: Entry, dir: string, file: string)
    requires e.htmlHref == dir + "/" + file && '/' !in file
    ensures ElementFileName(e) == file
  {
    SplitAround(dir, '/', file);
    SplitWithoutSep(file, '/');
  }

  /** The first `.meta4` of a link becomes `.torrent`, and the rest of the
      link is rewritten in the same way: with `TorrentLinkWithoutMetalink`,
      every `.meta4` is replaced, from left to right. */
  lemma TorrentLinkAround(e: Entry, a: string, b: string)
    requires e.zimHref == a + Meta4 + b && !Occurs(a, Meta4)
    ensures TorrentLink(e) == a + TorrentSuffix + TorrentLink(e.(zimHref := b))
  {
    assert Meta4[0] !in Meta4[1..];
    ReplaceAround(a, Meta4, TorrentSuffix, b);
  }

  /** A Metalink link `p + ".meta4"` becomes `p + ".torrent"`. */
  lemma TorrentLinkOfMetalink(e: Entry, p: string)
    requires e.zimHref == p + Meta4 && !Occurs(p, Meta4)
    ensures TorrentLink(e) == p + TorrentSuffix
  {
    TorrentLinkAround(e, p, []);
    assert e.zimHref == p + Meta4 + [];
  }

  /** A link without `.meta4` is passed through unchanged. */
  lemma TorrentLinkWithoutMetalink(e: Entry)
    requires !Occurs(e.zimHref, Meta4)
    ensures TorrentLink(e) == e.zimHref
  {
    ReplaceAbsent(e.zimHref, Meta4, TorrentSuffix);
  }

  /** The date part before `T` of a catalog stamp is read as that calendar day. */
  lemma {:induction false} IssuedDateOfStamp(e: Entry, d: Date, time: string)
    requires ValidDate(d)
    requires e.issued == FormatDate(d) + "T" + time
    ensures ElementIssuedDate(e) == Ok(d)
  {
    var date := FormatDate(d);
    assert 'T' !in date by {
      assert date == Pad4(d.year) + "-" + Pad2(d.month) + "-" + Pad2(d.day);
      forall i | 0 <= i < |date| ensures date[i] != 'T' {
        if i != 4 && i != 7 { assert IsDigit(date[i]); }
      }
    }
    SplitAround(date, 'T', time);
    SplitWithoutSep(date, 'T');
    ParseFormatDate(d);
  }
}
