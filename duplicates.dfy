/** The `clean` command's pure core: the local `.zim` names, their grouping by
    canonical name, the choice in each group of the newest file to keep, and
    the list of files to delete. */
module DuplicateResolver {
  import opened Wrappers
  import opened PyStr
  import opened Calendar
  import opened NameCodec
  import opened StableSort
  import opened Collections

  const ZimSuffix: string := ".zim"

  /** `list_zims_in_path`'s filter: the files ending in `.zim`, without the
      suffix, in directory order. */
  function ZimNames(files: seq<string>): seq<string>
    decreases |files|
  {
    if files == [] then []
    else
      var f := files[0];
      (if EndsWith(f, ZimSuffix) then [f[..|f| - |ZimSuffix|]] else []) + ZimNames(files[1..])
  }

  /** The local names with canonical name `c`, in order: `stripped_map[c]`. */
  function WithCanonical(zims: seq<string>, c: string): seq<string>
    decreases |zims|
  {
    if zims == [] then []
    else
      var n := |zims| - 1;
      WithCanonical(zims[..n], c) + (if StripDate(zims[n]) == c then [zims[n]] else [])
  }

  /** The canonical names in order of first appearance: the key order of
      `stripped_map`. */
  function CanonicalOrder(zims: seq<string>): seq<string>
    decreases |zims|
  {
    if zims == [] then []
    else
      var n := |zims| - 1;
      var order := CanonicalOrder(zims[..n]);
      if StripDate(zims[n]) in order then order else order + [StripDate(zims[n])]
  }

  /** The sort key of a local name: its month, as the day number of its first
      day. It is only consulted for names whose version parses; the `0` of a
      malformed name is never compared, as resolving its group fails first. */
  function MonthKey(name: string): int
  {
    match FileNameIssuedDate(name)
    case Ok(d) => Ordinal(d)
    case Err(_) => 0
  }

  /** The error of the first member whose version is malformed: computing the
      sort keys in order, Python's `sorted` raises at the first key it cannot
      compute. */
  function FirstMalformed(members: seq<string>): (r: Option<Error>)
    ensures r.Some? ==> r.value.MalformedName?
    decreases |members|
  {
    if members == [] then None
    else if FileNameIssuedDate(members[0]).Err? then Some(FileNameIssuedDate(members[0]).error)
    else FirstMalformed(members[1..])
  }

  /** One entry of `olds`: the canonical name, the file kept and those to
      remove (Python's `old`, a reserved word here). */
  datatype Duplicate = Duplicate(name: string, keep: string, older: seq<string>)

  /** The error names the first member whose version is malformed: every
      member before it parses. */
  lemma {:induction false} FirstMalformedIsFirst(members: seq<string>) returns (i: int)
    requires FirstMalformed(members).Some?
    ensures 0 <= i < |members| && FileNameIssuedDate(members[i]).Err?
    ensures FirstMalformed(members).value == MalformedName(members[i])
    ensures forall j :: 0 <= j < i ==> FileNameIssuedDate(members[j]).Ok?
    decreases |members|
  {
    if FileNameIssuedDate(members[0]).Err? {
      i := 0;
    } else {
      var rest := members[1..];
      assert FirstMalformed(members) == FirstMalformed(rest);
      var t := FirstMalformedIsFirst(rest);
      i := t + 1;
      assert members[i] == rest[t];
      forall j | 0 <= j < i ensures FileNameIssuedDate(members[j]).Ok? {
        if j > 0 { assert members[j] == rest[j - 1]; }
      }
    }
  }

  /** A group of one has nothing to resolve; a larger group is sorted newest
      first, and its head is kept. */
  function Resolve(name: string, members: seq<string>): Result<Option<Duplicate>, Error>
  {
    if |members| <= 1 then Ok(None)
    else
      match FirstMalformed(members)
      case Some(e) => Err(e)
      case None =>
        var sorted := SortedBy(members, MonthKey);
        Ok(Some(Duplicate(name, sorted[0], sorted[1..])))
  }

  /** The resolution of every group named by `order`, in that order. */
  function Resolutions(zims: seq<string>, order: seq<string>): seq<Result<Option<Duplicate>, Error>>
  {
    seq(|order|, k requires 0 <= k < |order| => Resolve(order[k], WithCanonical(zims, order[k])))
  }

  /** What `list_old_zims` returns: the duplicates in key order of `stripped_map`. */
  function OldZims(zims: seq<string>): Result<seq<Duplicate>, Error>
  {
    Collect(Resolutions(zims, CanonicalOrder(zims)))
  }

  /** `list_old_zims`'s first loop: each name appended to the list of its
      canonical name, the lists kept in order of first appearance. */
  method GroupByCanonical(zims: seq<string>) returns (stripped: map<string, seq<string>>, order: seq<string>)
    ensures order == CanonicalOrder(zims)
    ensures forall c :: c in stripped <==> c in order
    ensures forall c :: c in stripped ==> stripped[c] == WithCanonical(zims, c)
  {
    stripped := map[];
    order := [];
    var i := 0;
    while i < |zims|
      invariant 0 <= i <= |zims|
      invariant order == CanonicalOrder(zims[..i])
      invariant forall c :: c in stripped <==> c in order
      invariant forall c :: c in stripped ==> stripped[c] == WithCanonical(zims[..i], c)
    {
      var zim := zims[i];
      var name := StripDate(zim);
      ghost var prefix, next := zims[..i], zims[..i + 1];
      GroupStep(zims, i);
      var grown: map<string, seq<string>>;
      if name in stripped {
        grown := stripped[name := stripped[name] + [zim]];
      } else {
        CanonicalOrderMembers(prefix, name);
        grown := stripped[name := [zim]];
        order := order + [name];
      }
      forall c | c in grown ensures grown[c] == WithCanonical(next, c) {
        assert WithCanonical(next, c)
               == WithCanonical(prefix, c) + (if name == c then [zim] else []);
      }
      stripped := grown;
      i := i + 1;
    }
    assert zims[..i] == zims;
  }

  /** One more name: it joins its own group, and its canonical name is
      appended to the key order if it is new. */
  lemma GroupStep(zims: seq<string>, i: int)
    requires 0 <= i < |zims|
    ensures forall c {:trigger WithCanonical(zims[..i + 1], c)} ::
              WithCanonical(zims[..i + 1], c)
              == WithCanonical(zims[..i], c) + (if StripDate(zims[i]) == c then [zims[i]] else [])
    ensures var order := CanonicalOrder(zims[..i]);
      CanonicalOrder(zims[..i + 1]) == if StripDate(zims[i]) in order then order else order + [StripDate(zims[i])]
  {
    assert zims[..i + 1][..i] == zims[..i];
  }

  /** `list_old_zims`: the grouping pass, then one pass over the groups
      resolving those with two or more members. */
  method ListOldZims(zims: seq<string>) returns (r: Result<seq<Duplicate>, Error>)
    ensures r == OldZims(zims)
  {
    var stripped, order := GroupByCanonical(zims);
    ghost var rs := Resolutions(zims, order);
    assert |rs| == |order|;
    var olds: seq<Duplicate> := [];
    var j := 0;
    while j < |order|
      invariant 0 <= j <= |order|
      invariant Collect(rs[..j]) == Ok(olds)
    {
      var name := order[j];
      var matches := stripped[name];
      assert rs[j] == Resolve(name, matches);
      CollectStep(rs, j);
      if |matches| > 1 {
        var bad := FirstMalformed(matches);
        if bad.Some? {
          assert rs[j] == Err(bad.value);
          CollectAbortKeeps(rs, j + 1);
          assert rs[..|rs|] == rs;
          return Err(bad.value);
        }
        var sorted := SortedBy(matches, MonthKey);
        assert rs[j] == Ok(Some(Duplicate(name, sorted[0], sorted[1..])));
        olds := olds + [Duplicate(name, sorted[0], sorted[1..])];
      } else {
        assert rs[j] == Ok(None);
      }
      j := j + 1;
    }
    assert rs[..j] == rs;
    return Ok(olds);
  }

  /** The files `clean` deletes: every group's old names with `.zim` appended. */
  function DeletionPlan(olds: seq<Duplicate>): seq<string>
    decreases |olds|
  {
    if olds == [] then []
    else
      var n := |olds| - 1;
      DeletionPlan(olds[..n]) + WithZimSuffix(olds[n].older)
  }

  function WithZimSuffix(names: seq<string>): seq<string>
  {
    seq(|names|, k requires 0 <= k < |names| => names[k] + ZimSuffix)
  }

  /** `clean`'s loop growing `to_delete` with `extend`. */
  method PlanDeletions(olds: seq<Duplicate>) returns (toDelete: seq<string>)
    ensures toDelete == DeletionPlan(olds)
  {
    toDelete := [];
    var i := 0;
    while i < |olds|
      invariant 0 <= i <= |olds|
      invariant toDelete == DeletionPlan(olds[..i])
    {
      assert olds[..i + 1][..i] == olds[..i];
      toDelete := toDelete + WithZimSuffix(olds[i].older);
      i := i + 1;
    }
    assert olds[..i] == olds;
  }

  // ---------------------------------------------------------------------
  // The `.zim` filter

  /** A name is listed exactly when the directory holds that name plus `.zim`. */
  lemma {:induction false} ZimNamesMembers(files: seq<string>, n: string)
    ensures n in ZimNames(files) <==> n + ZimSuffix in files
    decreases |files|
  {
    if files != [] {
      var f := files[0];
      ZimNamesMembers(files[1..], n);
      assert files == [f] + files[1..];
      if EndsWith(f, ZimSuffix) {
        assert f == f[..|f| - |ZimSuffix|] + ZimSuffix;
      }
      if n + ZimSuffix == f {
        assert (n + ZimSuffix)[..|n|] == n;
      }
    }
  }

  /** Distinct file names give distinct local names. */
  lemma {:induction false} ZimNamesDistinct(files: seq<string>)
    requires Distinct(files)
    ensures Distinct(ZimNames(files))
    decreases |files|
  {
    if files != [] {
      var f := files[0];
      var tail := files[1..];
      assert Distinct(tail) by {
        forall i, j | 0 <= i < j < |tail| ensures tail[i] != tail[j] {
          assert tail[i] == files[i + 1] && tail[j] == files[j + 1];
        }
      }
      ZimNamesDistinct(tail);
      if EndsWith(f, ZimSuffix) {
        var n := f[..|f| - |ZimSuffix|];
        assert f == n + ZimSuffix;
        ZimNamesMembers(tail, n);
        assert f !in tail by {
          forall i | 0 <= i < |tail| ensures tail[i] != f {
            assert tail[i] == files[i + 1];
          }
        }
        var r := ZimNames(files);
        assert r == [n] + ZimNames(tail);
        forall i, j | 0 <= i < j < |r| ensures r[i] != r[j] {
          assert r[j] == ZimNames(tail)[j - 1];
          if i > 0 { assert r[i] == ZimNames(tail)[i - 1]; }
        }
      }
    }
  }

  /** A directory listing, as an instance of the filter. */
  lemma ZimNamesExample()
    ensures ZimNames(["wiki_2023-01.zim", "notes.txt", "wiki_2023-06.zim"])
            == ["wiki_2023-01", "wiki_2023-06"]
  {
    var a, b, c := "wiki_2023-01.zim", "notes.txt", "wiki_2023-06.zim";
    assert EndsWith(a, ZimSuffix) && a[..|a| - 4] == "wiki_2023-01";
    assert !EndsWith(b, ZimSuffix) by { assert b[|b| - 4..] != ZimSuffix; }
    assert EndsWith(c, ZimSuffix) && c[..|c| - 4] == "wiki_2023-06";
    assert [a, b, c][1..] == [b, c] && [b, c][1..] == [c];
    var none: seq<string> := [];
    assert [c][1..] == none;
  }

  // ---------------------------------------------------------------------
  // Grouping

  /** A group holds exactly the names of `zims` with that canonical name. */
  lemma {:induction false} WithCanonicalMembers(zims: seq<string>, c: string, z: string)
    ensures z in WithCanonical(zims, c) <==> z in zims && StripDate(z) == c
    decreases |zims|
  {
    if zims != [] {
      var n := |zims| - 1;
      WithCanonicalMembers(zims[..n], c, z);
      assert zims == zims[..n] + [zims[n]];
    }
  }

  /** Groups of distinct names have distinct members. */
  lemma {:induction false} WithCanonicalDistinct(zims: seq<string>, c: string)
    requires Distinct(zims)
    ensures Distinct(WithCanonical(zims, c))
    decreases |zims|
  {
    if zims != [] {
      var n := |zims| - 1;
      var front := zims[..n];
      assert Distinct(front) by {
        forall i, j | 0 <= i < j < |front| ensures front[i] != front[j] {
          assert front[i] == zims[i] && front[j] == zims[j];
        }
      }
      WithCanonicalDistinct(front, c);
      if StripDate(zims[n]) == c {
        WithCanonicalMembers(front, c, zims[n]);
        assert zims[n] !in front by {
          forall i | 0 <= i < |front| ensures front[i] != zims[n] {
            assert front[i] == zims[i];
          }
        }
      }
    }
  }

  /** The key order lists each canonical name once, and lists exactly those
      whose group is not empty. */
  lemma {:induction false} CanonicalOrderMembers(zims: seq<string>, c: string)
    ensures Distinct(CanonicalOrder(zims))
    ensures c in CanonicalOrder(zims) <==> WithCanonical(zims, c) != []
    decreases |zims|
  {
    if zims != [] {
      var n := |zims| - 1;
      CanonicalOrderMembers(zims[..n], c);
      CanonicalOrderMembers(zims[..n], StripDate(zims[n]));
    }
  }

  // ---------------------------------------------------------------------
  // Resolving one group

  /** No member is reported malformed exactly when every member's version parses. */
  lemma {:induction false} FirstMalformedNone(members: seq<string>)
    ensures FirstMalformed(members).None? <==>
              forall i :: 0 <= i < |members| ==> FileNameIssuedDate(members[i]).Ok?
    decreases |members|
  {
    if members != [] {
      FirstMalformedNone(members[1..]);
      assert forall i :: 1 <= i < |members| ==> members[i] == members[1..][i - 1];
    }
  }

  /** A resolved group is named by its canonical name, has two or more
      members, all of whose versions parse, and splits them into the kept name
      and the old names: the members sorted newest first. */
  lemma ResolveGroup(name: string, members: seq<string>)
    requires Resolve(name, members).Ok? && Resolve(name, members).value.Some?
    ensures var d := Resolve(name, members).value.value;
      && d.name == name && |members| >= 2
      && (forall i :: 0 <= i < |members| ==> FileNameIssuedDate(members[i]).Ok?)
      && [d.keep] + d.older == SortedBy(members, MonthKey)
      && multiset([d.keep] + d.older) == multiset(members)
  {
    var d := Resolve(name, members).value.value;
    FirstMalformedNone(members);
    SortedByPermutes(members, MonthKey);
    assert [d.keep] + d.older == SortedBy(members, MonthKey);
  }

  /** The kept name of a group has the largest month in it. */
  lemma ResolveKeepsNewest(name: string, members: seq<string>)
    requires Resolve(name, members).Ok? && Resolve(name, members).value.Some?
    ensures var d := Resolve(name, members).value.value;
      forall i :: 0 <= i < |members| ==> MonthKey(members[i]) <= MonthKey(d.keep)
  {
    ResolveGroup(name, members);
    SortedByFirstIsMax(members, MonthKey);
  }

  /** The old names of a group follow in non-increasing month order. */
  lemma ResolveOlderOrdered(name: string, members: seq<string>)
    requires Resolve(name, members).Ok? && Resolve(name, members).value.Some?
    ensures var d := Resolve(name, members).value.value;
      forall i, j :: 0 <= i < j < |d.older| ==> MonthKey(d.older[i]) >= MonthKey(d.older[j])
  {
    var d := Resolve(name, members).value.value;
    var sorted := SortedBy(members, MonthKey);
    ResolveGroup(name, members);
    SortedByOrdered(members, MonthKey);
    forall i, j | 0 <= i < j < |d.older| ensures MonthKey(d.older[i]) >= MonthKey(d.older[j]) {
      assert d.older[i] == sorted[i + 1] && d.older[j] == sorted[j + 1];
    }
  }

  /** Within a group, names of the same month keep their order: the kept name
      and the old names, read in order, list each month's names as the group does. */
  lemma ResolveStable(name: string, members: seq<string>, v: int)
    requires Resolve(name, members).Ok? && Resolve(name, members).value.Some?
    ensures var d := Resolve(name, members).value.value;
      NamesWithKey([d.keep] + d.older, MonthKey, v) == NamesWithKey(members, MonthKey, v)
  {
    ResolveGroup(name, members);
    SortedByStable(members, MonthKey, v);
  }

  /** Resolving fails exactly for a group of two or more with a malformed member. */
  lemma ResolveFails(name: string, members: seq<string>)
    ensures Resolve(name, members).Err? <==>
              |members| >= 2 && exists i :: 0 <= i < |members| && FileNameIssuedDate(members[i]).Err?
  {
    FirstMalformedNone(members);
  }

  /** A group of two or more whose versions all parse is resolved. */
  lemma ResolveLarge(name: string, members: seq<string>)
    requires |members| >= 2 && Resolve(name, members).Ok?
    ensures Resolve(name, members).value.Some?
  {
  }

  // ---------------------------------------------------------------------
  // All groups

  /** Each entry of `list_old_zims` is the resolution of its own group, and
      comes from a position of the key order of `stripped_map`. */
  lemma OldZimsResolved(zims: seq<string>) returns (idx: seq<int>)
    requires OldZims(zims).Ok?
    ensures var olds := OldZims(zims).value;
      && |idx| == |olds|
      && (forall i :: 0 <= i < |olds| ==>
            0 <= idx[i] < |CanonicalOrder(zims)| && olds[i].name == CanonicalOrder(zims)[idx[i]]
            && Resolve(olds[i].name, WithCanonical(zims, olds[i].name)) == Ok(Some(olds[i])))
      && (forall i, j :: 0 <= i < j < |idx| ==> idx[i] < idx[j])
      && (forall k :: 0 <= k < |CanonicalOrder(zims)| && k !in idx ==>
            Resolve(CanonicalOrder(zims)[k], WithCanonical(zims, CanonicalOrder(zims)[k])) == Ok(None))
  {
    var order := CanonicalOrder(zims);
    var rs := Resolutions(zims, order);
    var olds := OldZims(zims).value;
    idx := CollectOk(rs);
    forall i | 0 <= i < |olds| ensures olds[i].name == order[idx[i]] {
      ResolveGroup(order[idx[i]], WithCanonical(zims, order[idx[i]]));
    }
  }

  /** No canonical name has two entries in `list_old_zims`. */
  lemma OldZimsNamesDistinct(zims: seq<string>)
    requires OldZims(zims).Ok?
    ensures var olds := OldZims(zims).value;
      forall i, j :: 0 <= i < j < |olds| ==> olds[i].name != olds[j].name
  {
    var idx := OldZimsResolved(zims);
    CanonicalOrderMembers(zims, "");
  }

  /** Every canonical name that occurs at least twice has an entry in `list_old_zims`. */
  lemma OldZimsCovers(zims: seq<string>, c: string) returns (i: int)
    requires OldZims(zims).Ok? && |WithCanonical(zims, c)| >= 2
    ensures 0 <= i < |OldZims(zims).value| && OldZims(zims).value[i].name == c
  {
    var order := CanonicalOrder(zims);
    var idx := OldZimsResolved(zims);
    CanonicalOrderMembers(zims, c);
    var k :| 0 <= k < |order| && order[k] == c;
    var rs := Resolutions(zims, order);
    CollectFails(rs);
    assert rs[k].Ok?;
    ResolveLarge(c, WithCanonical(zims, c));
    assert k in idx;
    i :| 0 <= i < |idx| && idx[i] == k;
  }

  /** Every entry of `list_old_zims` is for a canonical name that occurs at least twice. */
  lemma OldZimsOnlyDuplicates(zims: seq<string>, i: int)
    requires OldZims(zims).Ok? && 0 <= i < |OldZims(zims).value|
    ensures |WithCanonical(zims, OldZims(zims).value[i].name)| >= 2
  {
    var d := OldZims(zims).value[i];
    var idx := OldZimsResolved(zims);
    ResolveGroup(d.name, WithCanonical(zims, d.name));
  }

  /** The entries of `list_old_zims` are exactly the canonical names that
      occur at least twice, each once. */
  lemma OldZimsKeys(zims: seq<string>, c: string)
    requires OldZims(zims).Ok?
    ensures var olds := OldZims(zims).value;
      && (forall i, j :: 0 <= i < j < |olds| ==> olds[i].name != olds[j].name)
      && ((exists i :: 0 <= i < |olds| && olds[i].name == c) <==> |WithCanonical(zims, c)| >= 2)
  {
    var olds := OldZims(zims).value;
    OldZimsNamesDistinct(zims);
    if |WithCanonical(zims, c)| >= 2 {
      var i := OldZimsCovers(zims, c);
    }
    if exists i :: 0 <= i < |olds| && olds[i].name == c {
      var i :| 0 <= i < |olds| && olds[i].name == c;
      OldZimsOnlyDuplicates(zims, i);
    }
  }

  /** A failed `list_old_zims` reports the error of the first group, in key
      order, of two or more members with a malformed member; every earlier
      group resolves. */
  lemma OldZimsFirstFailure(zims: seq<string>) returns (k: int)
    requires OldZims(zims).Err?
    ensures var order := CanonicalOrder(zims);
      && 0 <= k < |order|
      && |WithCanonical(zims, order[k])| >= 2
      && FirstMalformed(WithCanonical(zims, order[k])) == Some(OldZims(zims).error)
      && forall j :: 0 <= j < k ==> Resolve(order[j], WithCanonical(zims, order[j])).Ok?
  {
    var order := CanonicalOrder(zims);
    var rs := Resolutions(zims, order);
    k := CollectFirstFailure(rs);
    forall j | 0 <= j < k ensures Resolve(order[j], WithCanonical(zims, order[j])).Ok? {
      assert rs[j].Ok?;
    }
  }

  /** `list_old_zims` fails exactly when a group of two or more holds a name
      whose version is malformed; a malformed name alone in its group is harmless. */
  lemma OldZimsFails(zims: seq<string>)
    ensures OldZims(zims).Err? <==>
              exists z :: z in zims && |WithCanonical(zims, StripDate(z))| >= 2
                          && FileNameIssuedDate(z).Err?
  {
    var order := CanonicalOrder(zims);
    var rs := Resolutions(zims, order);
    CollectFails(rs);
    if OldZims(zims).Err? {
      var k :| 0 <= k < |rs| && rs[k].Err?;
      var members := WithCanonical(zims, order[k]);
      ResolveFails(order[k], members);
      var i :| 0 <= i < |members| && FileNameIssuedDate(members[i]).Err?;
      WithCanonicalMembers(zims, order[k], members[i]);
    }
    if exists z :: z in zims && |WithCanonical(zims, StripDate(z))| >= 2 && FileNameIssuedDate(z).Err? {
      var z :| z in zims && |WithCanonical(zims, StripDate(z))| >= 2 && FileNameIssuedDate(z).Err?;
      var c := StripDate(z);
      var members := WithCanonical(zims, c);
      CanonicalOrderMembers(zims, c);
      var k :| 0 <= k < |order| && order[k] == c;
      WithCanonicalMembers(zims, c, z);
      var i :| 0 <= i < |members| && members[i] == z;
      ResolveFails(c, members);
      assert rs[k].Err?;
    }
  }

  // ---------------------------------------------------------------------
  // The deletion plan

  /** The plan lists `n + ".zim"` exactly for the old names `n` of some group. */
  lemma {:induction false} DeletionPlanMembers(olds: seq<Duplicate>, p: string)
    ensures p in DeletionPlan(olds) <==>
              exists i, k :: 0 <= i < |olds| && 0 <= k < |olds[i].older| && p == olds[i].older[k] + ZimSuffix
    decreases |olds|
  {
    if olds != [] {
      var n := |olds| - 1;
      var front := olds[..n];
      DeletionPlanMembers(front, p);
      var tail := WithZimSuffix(olds[n].older);
      assert DeletionPlan(olds) == DeletionPlan(front) + tail;
      if p in DeletionPlan(olds) {
        if p in tail {
          var k :| 0 <= k < |tail| && tail[k] == p;
          assert p == olds[n].older[k] + ZimSuffix;
        } else {
          var i, k :| 0 <= i < |front| && 0 <= k < |front[i].older| && p == front[i].older[k] + ZimSuffix;
          assert front[i] == olds[i];
        }
      } else {
        forall i, k | 0 <= i < |olds| && 0 <= k < |olds[i].older|
          ensures p != olds[i].older[k] + ZimSuffix
        {
          if i < n {
            assert front[i] == olds[i];
          } else {
            assert tail[k] == olds[i].older[k] + ZimSuffix;
          }
        }
      }
    }
  }

  /** Each entry of `list_old_zims` splits its own group, of two or more members. */
  lemma OldZimsEntry(zims: seq<string>, i: int)
    requires OldZims(zims).Ok? && 0 <= i < |OldZims(zims).value|
    ensures var d := OldZims(zims).value[i];
      && |WithCanonical(zims, d.name)| >= 2
      && multiset([d.keep] + d.older) == multiset(WithCanonical(zims, d.name))
  {
    var d := OldZims(zims).value[i];
    OldZimsOnlyDuplicates(zims, i);
    var idx := OldZimsResolved(zims);
    ResolveGroup(d.name, WithCanonical(zims, d.name));
  }

  /** An old name of a resolved group is a member of that group, and not its kept name. */
  lemma OlderInGroup(zims: seq<string>, i: int, k: int)
    requires Distinct(zims) && OldZims(zims).Ok?
    requires 0 <= i < |OldZims(zims).value| && 0 <= k < |OldZims(zims).value[i].older|
    ensures var d := OldZims(zims).value[i];
      && d.older[k] in zims && StripDate(d.older[k]) == d.name
      && |WithCanonical(zims, d.name)| >= 2 && d.older[k] != d.keep
  {
    var d := OldZims(zims).value[i];
    var members := WithCanonical(zims, d.name);
    var all := [d.keep] + d.older;
    OldZimsEntry(zims, i);
    assert d.older[k] == all[k + 1];
    assert d.older[k] in multiset(members);
    WithCanonicalMembers(zims, d.name, d.older[k]);
    WithCanonicalDistinct(zims, d.name);
    PermutationDistinct(all, members);
    assert all[0] != all[k + 1];
  }

  /** The kept name of a resolved group belongs to that group. */
  lemma KeepInGroup(zims: seq<string>, j: int)
    requires OldZims(zims).Ok? && 0 <= j < |OldZims(zims).value|
    ensures var d := OldZims(zims).value[j];
      d.keep in zims && StripDate(d.keep) == d.name
  {
    var d := OldZims(zims).value[j];
    OldZimsEntry(zims, j);
    assert d.keep in multiset([d.keep] + d.older);
    WithCanonicalMembers(zims, d.name, d.keep);
  }

  /** A planned file is an old name of some group with `.zim` appended. */
  lemma PlannedIsOlder(olds: seq<Duplicate>, z: string) returns (i: int, k: int)
    requires z + ZimSuffix in DeletionPlan(olds)
    ensures 0 <= i < |olds| && 0 <= k < |olds[i].older| && olds[i].older[k] == z
  {
    var p := z + ZimSuffix;
    DeletionPlanMembers(olds, p);
    i, k :| 0 <= i < |olds| && 0 <= k < |olds[i].older| && p == olds[i].older[k] + ZimSuffix;
    assert p[..|z|] == z && p[..|olds[i].older[k]|] == olds[i].older[k];
  }

  /** For a directory without repeated names, the plan deletes only files of
      the directory whose canonical name occurs at least twice, and never a
      file some group keeps. */
  lemma DeletionPlanSound(zims: seq<string>, z: string)
    requires Distinct(zims) && OldZims(zims).Ok?
    requires z + ZimSuffix in DeletionPlan(OldZims(zims).value)
    ensures z in zims && |WithCanonical(zims, StripDate(z))| >= 2
    ensures forall j :: 0 <= j < |OldZims(zims).value| ==> OldZims(zims).value[j].keep != z
  {
    var olds := OldZims(zims).value;
    var i, k := PlannedIsOlder(olds, z);
    OlderInGroup(zims, i, k);
    forall j | 0 <= j < |olds| ensures olds[j].keep != z {
      KeepNotOlder(zims, i, k, j);
    }
  }

  /** No group keeps a file another group, or its own, plans to delete. */
  lemma KeepNotOlder(zims: seq<string>, i: int, k: int, j: int)
    requires Distinct(zims) && OldZims(zims).Ok?
    requires 0 <= i < |OldZims(zims).value| && 0 <= k < |OldZims(zims).value[i].older|
    requires 0 <= j < |OldZims(zims).value|
    ensures OldZims(zims).value[j].keep != OldZims(zims).value[i].older[k]
  {
    OlderInGroup(zims, i, k);
    if j != i {
      OldZimsNamesDistinct(zims);
      KeepInGroup(zims, j);
    }
  }

  /** And it deletes every such file that no group keeps. */
  lemma DeletionPlanComplete(zims: seq<string>, z: string)
    requires OldZims(zims).Ok?
    requires z in zims && |WithCanonical(zims, StripDate(z))| >= 2
    requires forall j :: 0 <= j < |OldZims(zims).value| ==> OldZims(zims).value[j].keep != z
    ensures z + ZimSuffix in DeletionPlan(OldZims(zims).value)
  {
    var olds := OldZims(zims).value;
    var c := StripDate(z);
    var i := OldZimsCovers(zims, c);
    var d := olds[i];
    OldZimsEntry(zims, i);
    WithCanonicalMembers(zims, c, z);
    assert z in multiset([d.keep] + d.older);
    assert z in d.older;
    var k :| 0 <= k < |d.older| && d.older[k] == z;
    DeletionPlanMembers(olds, z + ZimSuffix);
  }

  // ---------------------------------------------------------------------
  // Two versions of one archive

  /** Two names with canonical name `c` form one group, in their order. */
  lemma PairGroup(c: string, z1: string, z2: string)
    requires StripDate(z1) == c && StripDate(z2) == c
    ensures CanonicalOrder([z1, z2]) == [c]
    ensures WithCanonical([z1, z2], c) == [z1, z2]
  {
    assert [z1, z2][..1] == [z1];
    assert [z1][..0] == [];
    assert CanonicalOrder([z1]) == [c];
    assert WithCanonical([z1], c) == [z1];
    assert WithCanonical([z1, z2], c) == WithCanonical([z1], c) + [z2];
  }

  /** Two names whose versions parse, the first the older: the newer one sorts first. */
  lemma PairSorted(z1: string, z2: string)
    requires FileNameIssuedDate(z1).Ok? && FileNameIssuedDate(z2).Ok?
    requires MonthKey(z1) < MonthKey(z2)
    ensures FirstMalformed([z1, z2]) == None
    ensures SortedBy([z1, z2], MonthKey) == [z2, z1]
  {
    assert [z1, z2][1..] == [z2];
    assert [z2][1..] == [];
    assert FirstMalformed([z2]) == None;
    var ks := KeyedBy([z1, z2], MonthKey);
    assert ks == [Keyed(z1, MonthKey(z1)), Keyed(z2, MonthKey(z2))];
    assert SortDesc(ks[1..]) == [ks[1]] by { assert ks[1..][1..] == []; }
    assert Insert(ks[0], [ks[1]]) == [ks[1], ks[0]] by { assert [ks[1]][1..] == []; }
  }

  /** A group of two names with parsing versions, the older first: one entry,
      keeping the newer. */
  lemma OldZimsPair(c: string, z1: string, z2: string)
    requires StripDate(z1) == c && StripDate(z2) == c
    requires FileNameIssuedDate(z1).Ok? && FileNameIssuedDate(z2).Ok?
    requires MonthKey(z1) < MonthKey(z2)
    ensures OldZims([z1, z2]) == Ok([Duplicate(c, z2, [z1])])
  {
    PairGroup(c, z1, z2);
    PairSorted(z1, z2);
    var d := Duplicate(c, z2, [z1]);
    assert [z2, z1][1..] == [z1];
    assert Resolve(c, [z1, z2]) == Ok(Some(d));
    var rs := Resolutions([z1, z2], [c]);
    assert rs == [Ok(Some(d))];
    assert rs[..0] == [] && rs[..1] == rs;
    assert Collect(rs[..0]) == Ok([]);
    CollectStep(rs, 0);
    assert rs[0] == Ok(Some(d));
    assert Collect(rs[..1]) == Ok([] + [d]);
    assert [] + [d] == [d];
    assert Collect(rs) == Ok([d]);
    assert Resolutions([z1, z2], CanonicalOrder([z1, z2])) == rs;
  }

  /** Two local versions of one archive, the older listed first: the pair is
      distinct, `list_old_zims` returns one entry for it, keeps the newer file
      and lists the older one for removal. */
  lemma OldZimsTwoVersions(c: string, d1: Date, d2: Date)
    requires ValidDate(d1) && d1.day == 1 && ValidDate(d2) && d2.day == 1
    requires MonthIndex(d1) < MonthIndex(d2)
    ensures var zims := [LocalFileName(c, d1), LocalFileName(c, d2)];
      && Distinct(zims)
      && OldZims(zims) == Ok([Duplicate(c, LocalFileName(c, d2), [LocalFileName(c, d1)])])
  {
    var z1, z2 := LocalFileName(c, d1), LocalFileName(c, d2);
    LocalFileNameRoundTrip(c, d1);
    LocalFileNameRoundTrip(c, d2);
    EarlierMonthEarlierDay(d1, d2);
    assert z1 != z2 by { assert FileNameIssuedDate(z1) != FileNameIssuedDate(z2); }
    OldZimsPair(c, z1, z2);
  }
}
