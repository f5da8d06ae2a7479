/** Python's `sorted(xs, key=k, reverse=True)` over names paired with their
    keys: largest key first, and names with equal keys in their input order
    (Python's sort is stable, also when reversed). */
module StableSort {

  datatype Keyed = Keyed(name: string, key: int)

  /** The names, in order. */
  function Names(s: seq<Keyed>): seq<string>
  {
    seq(|s|, i requires 0 <= i < |s| => s[i].name)
  }

  predicate SortedDesc(s: seq<Keyed>)
  {
    forall i, j :: 0 <= i < j < |s| ==> s[i].key >= s[j].key
  }

  /** The elements with key `v`, in order. */
  function WithKey(s: seq<Keyed>, v: int): seq<Keyed>
    decreases |s|
  {
    if s == [] then []
    else (if s[0].key == v then [s[0]] else []) + WithKey(s[1..], v)
  }

  /** Puts `x`, which came before every element of the sorted `s`, in front of
      the first element whose key is not larger than its own. */
  function Insert(x: Keyed, s: seq<Keyed>): (r: seq<Keyed>)
    ensures |r| == |s| + 1
    decreases |s|
  {
    if s == [] || s[0].key <= x.key then [x] + s
    else [s[0]] + Insert(x, s[1..])
  }

  function SortDesc(s: seq<Keyed>): (r: seq<Keyed>)
    ensures |r| == |s|
    decreases |s|
  {
    if s == [] then [] else Insert(s[0], SortDesc(s[1..]))
  }

  // ---------------------------------------------------------------------

  /** Inserting keeps every element and adds `x`. */
  lemma {:induction false} InsertPermutes(x: Keyed, s: seq<Keyed>)
    ensures multiset(Insert(x, s)) == multiset([x] + s)
    decreases |s|
  {
    if s != [] && s[0].key > x.key {
      InsertPermutes(x, s[1..]);
      assert s == [s[0]] + s[1..];
    }
  }

  /** Inserting keeps every name and adds that of `x`. */
  lemma {:induction false} InsertPermutesNames(x: Keyed, s: seq<Keyed>)
    ensures multiset(Names(Insert(x, s))) == multiset([x.name] + Names(s))
    decreases |s|
  {
    if s != [] && s[0].key > x.key {
      InsertPermutesNames(x, s[1..]);
      assert Names(Insert(x, s)) == [s[0].name] + Names(Insert(x, s[1..]));
      assert Names(s) == [s[0].name] + Names(s[1..]);
    } else {
      assert Names([x] + s) == [x.name] + Names(s);
    }
  }

  /** A bound on every key survives inserting an element within it. */
  lemma {:induction false} InsertBounded(x: Keyed, s: seq<Keyed>, b: int)
    requires x.key <= b && forall i :: 0 <= i < |s| ==> s[i].key <= b
    ensures forall i :: 0 <= i < |Insert(x, s)| ==> Insert(x, s)[i].key <= b
    decreases |s|
  {
    if s != [] && s[0].key > x.key {
      InsertBounded(x, s[1..], b);
    }
  }

  lemma {:induction false} InsertSorted(x: Keyed, s: seq<Keyed>)
    requires SortedDesc(s)
    ensures SortedDesc(Insert(x, s))
    decreases |s|
  {
    if s != [] && s[0].key > x.key {
      var rest := Insert(x, s[1..]);
      InsertSorted(x, s[1..]);
      InsertBounded(x, s[1..], s[0].key);
      assert Insert(x, s) == [s[0]] + rest;
    } else {
      var r := [x] + s;
      forall i, j | 0 <= i < j < |r| ensures r[i].key >= r[j].key {
        if i > 0 { assert r[i] == s[i - 1] && r[j] == s[j - 1]; }
        else { assert r[j] == s[j - 1]; }
      }
    }
  }

  /** Inserting `x` in front of the elements of smaller key keeps, for every key,
      the order `[x] + s` gives. */
  lemma {:induction false} InsertStable(x: Keyed, s: seq<Keyed>, v: int)
    ensures WithKey(Insert(x, s), v) == WithKey([x] + s, v)
    decreases |s|
  {
    if s != [] && s[0].key > x.key {
      var rest := Insert(x, s[1..]);
      InsertStable(x, s[1..], v);
      assert Insert(x, s) == [s[0]] + rest;
      assert ([s[0]] + rest)[1..] == rest;
      assert ([x] + s)[1..] == s;
      assert ([x] + s[1..])[1..] == s[1..];
    }
  }

  lemma {:induction false} SortDescSorted(s: seq<Keyed>)
    ensures SortedDesc(SortDesc(s))
    decreases |s|
  {
    if s != [] {
      SortDescSorted(s[1..]);
      InsertSorted(s[0], SortDesc(s[1..]));
    }
  }

  lemma {:induction false} SortDescPermutes(s: seq<Keyed>)
    ensures multiset(SortDesc(s)) == multiset(s)
    decreases |s|
  {
    if s != [] {
      SortDescPermutes(s[1..]);
      InsertPermutes(s[0], SortDesc(s[1..]));
      assert s == [s[0]] + s[1..];
    }
  }

  lemma {:induction false} SortDescPermutesNames(s: seq<Keyed>)
    ensures multiset(Names(SortDesc(s))) == multiset(Names(s))
    decreases |s|
  {
    if s != [] {
      SortDescPermutesNames(s[1..]);
      InsertPermutesNames(s[0], SortDesc(s[1..]));
      assert Names(s) == [s[0].name] + Names(s[1..]);
    }
  }

  lemma {:induction false} SortDescStable(s: seq<Keyed>, v: int)
    ensures WithKey(SortDesc(s), v) == WithKey(s, v)
    decreases |s|
  {
    if s != [] {
      var rest := SortDesc(s[1..]);
      SortDescStable(s[1..], v);
      InsertStable(s[0], rest, v);
      assert ([s[0]] + rest)[1..] == rest;
    }
  }

  /** The result is in non-increasing key order, a permutation of the input,
      and for every key it holds the input's elements with that key in their
      input order: the three together pin down the stable descending sort. */
  lemma SortDescCorrect(s: seq<Keyed>)
    ensures SortedDesc(SortDesc(s))
    ensures multiset(SortDesc(s)) == multiset(s)
    ensures multiset(Names(SortDesc(s))) == multiset(Names(s))
    ensures forall v :: WithKey(SortDesc(s), v) == WithKey(s, v)
  {
    SortDescSorted(s);
    SortDescPermutes(s);
    SortDescPermutesNames(s);
    forall v ensures WithKey(SortDesc(s), v) == WithKey(s, v) {
      SortDescStable(s, v);
    }
  }

  // ---------------------------------------------------------------------
  // Sorting names by a key function

  /** Each name paired with its key under `f`. */
  function KeyedBy(names: seq<string>, f: string -> int): seq<Keyed>
  {
    seq(|names|, i requires 0 <= i < |names| => Keyed(names[i], f(names[i])))
  }

  /** `sorted(names, key=f, reverse=True)`. */
  function SortedBy(names: seq<string>, f: string -> int): (r: seq<string>)
    ensures |r| == |names|
  {
    Names(SortDesc(KeyedBy(names, f)))
  }

  /** The names whose key under `f` is `v`, in order. */
  function NamesWithKey(names: seq<string>, f: string -> int, v: int): seq<string>
    decreases |names|
  {
    if names == [] then []
    else (if f(names[0]) == v then [names[0]] else []) + NamesWithKey(names[1..], f, v)
  }

  /** For elements keyed by `f`, the names of those with key `v` are the names with key `v`. */
  lemma {:induction false} WithKeyNames(s: seq<Keyed>, f: string -> int, v: int)
    requires forall i :: 0 <= i < |s| ==> s[i].key == f(s[i].name)
    ensures Names(WithKey(s, v)) == NamesWithKey(Names(s), f, v)
    decreases |s|
  {
    if s != [] {
      var tail := s[1..];
      assert forall i :: 0 <= i < |tail| ==> tail[i] == s[i + 1];
      WithKeyNames(tail, f, v);
      assert Names(s)[1..] == Names(tail);
      if s[0].key == v {
        assert Names([s[0]] + WithKey(tail, v)) == [s[0].name] + Names(WithKey(tail, v));
      }
    }
  }

  /** A permutation of elements keyed by `f` is keyed by `f` too. */
  lemma PermutationKeyedBy(s: seq<Keyed>, names: seq<string>, f: string -> int)
    requires multiset(s) == multiset(KeyedBy(names, f))
    ensures forall i :: 0 <= i < |s| ==> s[i].key == f(s[i].name)
  {
    var ks := KeyedBy(names, f);
    forall i | 0 <= i < |s| ensures s[i].key == f(s[i].name) {
      assert s[i] in multiset(ks);
      var j :| 0 <= j < |ks| && ks[j] == s[i];
    }
  }

  /** In a descending sort of elements keyed by `f`, the first name's key
      bounds every input name's key. */
  lemma SortedFirstIsMax(s: seq<Keyed>, ks: seq<Keyed>, i: int)
    requires SortedDesc(s) && multiset(s) == multiset(ks) && 0 <= i < |ks|
    ensures |s| > 0 && ks[i].key <= s[0].key
  {
    assert ks[i] in multiset(s);
    var j :| 0 <= j < |s| && s[j] == ks[i];
  }

  /** The descending sort by `f` is a permutation of the names. */
  lemma SortedByPermutes(names: seq<string>, f: string -> int)
    ensures multiset(SortedBy(names, f)) == multiset(names)
  {
    var ks := KeyedBy(names, f);
    SortDescPermutesNames(ks);
    assert Names(ks) == names;
  }

  /** Its first name has the largest key. */
  lemma SortedByFirstIsMax(names: seq<string>, f: string -> int)
    requires names != []
    ensures forall i :: 0 <= i < |names| ==> f(names[i]) <= f(SortedBy(names, f)[0])
  {
    var ks := KeyedBy(names, f);
    var s := SortDesc(ks);
    SortDescSorted(ks);
    SortDescPermutes(ks);
    PermutationKeyedBy(s, names, f);
    forall i | 0 <= i < |names| ensures f(names[i]) <= f(s[0].name) {
      SortedFirstIsMax(s, ks, i);
    }
  }

  /** Its keys do not increase. */
  lemma SortedByOrdered(names: seq<string>, f: string -> int)
    ensures forall i, j :: 0 <= i < j < |names| ==> f(SortedBy(names, f)[i]) >= f(SortedBy(names, f)[j])
  {
    var ks := KeyedBy(names, f);
    var s := SortDesc(ks);
    SortDescSorted(ks);
    SortDescPermutes(ks);
    PermutationKeyedBy(s, names, f);
  }

  /** Names of equal key keep their input order. */
  lemma SortedByStable(names: seq<string>, f: string -> int, v: int)
    ensures NamesWithKey(SortedBy(names, f), f, v) == NamesWithKey(names, f, v)
  {
    var ks := KeyedBy(names, f);
    var s := SortDesc(ks);
    SortDescPermutes(ks);
    SortDescStable(ks, v);
    PermutationKeyedBy(s, names, f);
    WithKeyNames(s, f, v);
    WithKeyNames(ks, f, v);
    assert Names(ks) == names;
  }
}
