/** The handful of Python `str` operations the updater relies on:
    `split` on a one-character separator, `join`, `endswith` and `replace`. */
module PyStr {

  /** `s.split(sep)` for a one-character separator: the pieces between
      separators, never an empty list. */
  function Split(s: string, sep: char): (r: seq<string>)
    ensures |r| >= 1
    ensures forall i :: 0 <= i < |r| ==> sep !in r[i]
    decreases |s|
  {
    if s == [] then [[]]
    else
      var rest := Split(s[1..], sep);
      if s[0] == sep then [[]] + rest
      else [[s[0]] + rest[0]] + rest[1..]
  }

  /** `sep.join(parts)`; joining nothing gives the empty string. */
  function Join(parts: seq<string>, sep: char): string
    decreases |parts|
  {
    if parts == [] then []
    else if |parts| == 1 then parts[0]
    else parts[0] + [sep] + Join(parts[1..], sep)
  }

  /** `parts[-1]` */
  function Last(parts: seq<string>): string
    requires |parts| >= 1
  {
    parts[|parts| - 1]
  }

  /** `parts[:-1]` */
  function AllButLast(parts: seq<string>): seq<string>
    requires |parts| >= 1
  {
    parts[..|parts| - 1]
  }

  /** `s.endswith(suffix)` */
  predicate EndsWith(s: string, suffix: string)
  {
    |suffix| <= |s| && s[|s| - |suffix|..] == suffix
  }

  /** `pat` occurs in `s` starting at index `i`. */
  predicate OccursAt(s: string, pat: string, i: int)
  {
    0 <= i && i + |pat| <= |s| && s[i..i + |pat|] == pat
  }

  predicate Occurs(s: string, pat: string)
  {
    exists i | 0 <= i <= |s| :: OccursAt(s, pat, i)
  }

  /** `s.replace(pat, rep)`: every non-overlapping occurrence of `pat`,
      scanning left to right, replaced by `rep`. */
  function Replace(s: string, pat: string, rep: string): string
    requires pat != []
    decreases |s|
  {
    if |s| < |pat| then s
    else if s[..|pat|] == pat then rep + Replace(s[|pat|..], pat, rep)
    else [s[0]] + Replace(s[1..], pat, rep)
  }

  // ---------------------------------------------------------------------
  // split and join

  /** Splitting and joining again gives back the original string. */
  lemma {:induction false} JoinSplit(s: string, sep: char)
    ensures Join(Split(s, sep), sep) == s
    decreases |s|
  {
    if s != [] {
      var rest := Split(s[1..], sep);
      JoinSplit(s[1..], sep);
      if s[0] == sep {
        assert Split(s, sep) == [[]] + rest;
        assert ([[]] + rest)[1..] == rest;
      } else {
        var r := Split(s, sep);
        assert r == [[s[0]] + rest[0]] + rest[1..];
        if |rest| == 1 {
          assert Join(rest, sep) == rest[0];
        } else {
          assert r[1..] == rest[1..];
          assert Join(rest, sep) == rest[0] + [sep] + Join(rest[1..], sep);
        }
      }
    }
  }

  /** A string without the separator is one piece. */
  lemma {:induction false} SplitWithoutSep(s: string, sep: char)
    requires sep !in s
    ensures Split(s, sep) == [s]
    decreases |s|
  {
    if s != [] {
      assert sep !in s[1..] by {
        forall i | 0 <= i < |s[1..]| ensures s[1..][i] != sep {
          assert s[1..][i] == s[i + 1];
        }
      }
      SplitWithoutSep(s[1..], sep);
      assert [s[0]] + s[1..] == s;
    }
  }

  /** One unfolding of `Split`, for a string that starts with the separator. */
  lemma SplitConsSep(t: string, sep: char)
    ensures Split([sep] + t, sep) == [[]] + Split(t, sep)
  {
    assert ([sep] + t)[1..] == t;
  }

  /** One unfolding of `Split`, for a string that starts with another character. */
  lemma SplitConsOther(c: char, t: string, sep: char)
    requires c != sep
    ensures Split([c] + t, sep) == [[c] + Split(t, sep)[0]] + Split(t, sep)[1..]
  {
    assert ([c] + t)[1..] == t;
  }

  /** A separator in front of `a` adds an empty first piece on both sides of
      the equation of `SplitAround`. */
  lemma SplitAroundSepStep(a: string, t: string, y: seq<string>, sep: char)
    requires Split(t, sep) == Split(a, sep) + y
    ensures Split([sep] + t, sep) == Split([sep] + a, sep) + y
  {
    SplitConsSep(t, sep);
    SplitConsSep(a, sep);
    var x := Split(a, sep);
    assert [[]] + (x + y) == ([[]] + x) + y;
  }

  /** Another character in front of `a` joins the first piece on both sides
      of the equation of `SplitAround`. */
  lemma SplitAroundOtherStep(c: char, a: string, t: string, y: seq<string>, sep: char)
    requires c != sep
    requires Split(t, sep) == Split(a, sep) + y
    ensures Split([c] + t, sep) == Split([c] + a, sep) + y
  {
    SplitConsOther(c, t, sep);
    SplitConsOther(c, a, sep);
    var x := Split(a, sep);
    assert (x + y)[0] == x[0] && (x + y)[1..] == x[1..] + y;
  }

  lemma ConsTail(a: string, sep: char, b: string)
    requires a != []
    ensures [a[0]] + a[1..] == a
    ensures [a[0]] + (a[1..] + [sep] + b) == a + [sep] + b
  {
  }

  /** Splitting `a + sep + b` splits `a` and `b` independently. */
  lemma {:induction false} SplitAround(a: string, sep: char, b: string)
    ensures Split(a + [sep] + b, sep) == Split(a, sep) + Split(b, sep)
    decreases |a|
  {
    if a == [] {
      SplitConsSep(b, sep);
      assert a + [sep] + b == [sep] + b;
    } else {
      var t := a[1..] + [sep] + b;
      SplitAround(a[1..], sep, b);
      if a[0] == sep {
        SplitAroundSepStep(a[1..], t, Split(b, sep), sep);
      } else {
        SplitAroundOtherStep(a[0], a[1..], t, Split(b, sep), sep);
      }
      ConsTail(a, sep, b);
    }
  }

  /** Joining two or more pieces puts the separator before the last piece. */
  lemma {:induction false} JoinSnoc(parts: seq<string>, sep: char)
    requires |parts| >= 2
    ensures Join(parts, sep) == Join(AllButLast(parts), sep) + [sep] + Last(parts)
    decreases |parts|
  {
    if |parts| > 2 {
      JoinSnoc(parts[1..], sep);
      assert AllButLast(parts)[1..] == AllButLast(parts[1..]);
      assert Last(parts[1..]) == Last(parts);
    } else {
      assert AllButLast(parts) == [parts[0]];
    }
  }

  /** The separator occurs in `s` exactly when `s` splits into two or more pieces. */
  lemma {:induction false} SplitLength(s: string, sep: char)
    ensures sep in s <==> |Split(s, sep)| >= 2
    decreases |s|
  {
    if s != [] {
      SplitLength(s[1..], sep);
      assert sep in s <==> s[0] == sep || sep in s[1..] by {
        assert s == [s[0]] + s[1..];
      }
    }
  }

  // ---------------------------------------------------------------------
  // replace

  /** A string in which `pat` does not occur is left as it is. */
  lemma {:induction false} ReplaceAbsent(s: string, pat: string, rep: string)
    requires pat != [] && !Occurs(s, pat)
    ensures Replace(s, pat, rep) == s
    decreases |s|
  {
    if |s| >= |pat| {
      assert !OccursAt(s, pat, 0);
      assert !Occurs(s[1..], pat) by {
        forall i | OccursAt(s[1..], pat, i) ensures false {
          assert s[1..][i..i + |pat|] == s[i + 1..i + 1 + |pat|];
          assert OccursAt(s, pat, i + 1);
        }
      }
      ReplaceAbsent(s[1..], pat, rep);
      assert [s[0]] + s[1..] == s;
    }
  }

  /** A pattern absent from `a` is absent from its tail. */
  lemma AbsentFromTail(a: string, pat: string)
    requires a != [] && !Occurs(a, pat)
    ensures !Occurs(a[1..], pat)
  {
    forall i | 0 <= i <= |a[1..]| && OccursAt(a[1..], pat, i) ensures false {
      assert a[1..][i..i + |pat|] == a[i + 1..i + 1 + |pat|];
      assert OccursAt(a, pat, i + 1);
    }
  }

  /** When the first character of `pat` occurs nowhere else in it, an `a` free
      of `pat` cannot start an occurrence that runs into the `pat` after it. */
  lemma NoOccurrenceAtFront(a: string, pat: string, b: string)
    requires a != [] && pat != [] && pat[0] !in pat[1..] && !Occurs(a, pat)
    ensures (a + pat + b)[..|pat|] != pat
  {
    var s := a + pat + b;
    if |a| >= |pat| {
      assert !OccursAt(a, pat, 0);
      assert s[..|pat|] == a[..|pat|];
    } else {
      assert s[..|pat|][|a|] == pat[0];
      assert pat[1..][|a| - 1] == pat[|a|];
    }
  }

  /** When the first character of `pat` occurs nowhere else in it and `pat` does
      not occur in `a`, the first occurrence in `a + pat + b` is the `pat` after
      `a`: it is replaced, and the scan goes on in `b`. */
  lemma {:induction false} ReplaceAround(a: string, pat: string, rep: string, b: string)
    requires pat != [] && pat[0] !in pat[1..]
    requires !Occurs(a, pat)
    ensures Replace(a + pat + b, pat, rep) == a + rep + Replace(b, pat, rep)
    decreases |a|
  {
    var s := a + pat + b;
    if a == [] {
      assert s[..|pat|] == pat && s[|pat|..] == b;
    } else {
      NoOccurrenceAtFront(a, pat, b);
      AbsentFromTail(a, pat);
      ReplaceAround(a[1..], pat, rep, b);
      assert s[1..] == a[1..] + pat + b;
      assert [a[0]] + (a[1..] + rep + Replace(b, pat, rep)) == a + rep + Replace(b, pat, rep);
    }
  }
}
