/** Collection idioms of the updater: a dict comprehension, sequences without
    repetitions, and a loop that gathers the values its steps find and stops
    at the first step that raises. */
module Collections {
  import opened Wrappers

  /** A Python dict comprehension `{key(x): val(x) for x in xs}`: one entry per
      distinct key, a later element overwriting an earlier one with the same key. */
  function DictFrom<T, K, V>(xs: seq<T>, key: T -> K, val: T -> V): map<K, V>
    decreases |xs|
  {
    if xs == [] then map[]
    else DictFrom(xs[..|xs| - 1], key, val)[key(xs[|xs| - 1]) := val(xs[|xs| - 1])]
  }

  /** The keys are exactly the keys of the elements. */
  lemma {:induction false} DictFromKeys<T, K, V>(xs: seq<T>, key: T -> K, val: T -> V, k: K)
    ensures k in DictFrom(xs, key, val) <==> exists i :: 0 <= i < |xs| && key(xs[i]) == k
    decreases |xs|
  {
    if xs != [] {
      var n := |xs| - 1;
      DictFromKeys(xs[..n], key, val, k);
      assert forall i :: 0 <= i < n ==> xs[..n][i] == xs[i];
    }
  }

  /** The value of a key is that of the last element carrying it. */
  lemma {:induction false} DictFromLastWins<T, K, V>(xs: seq<T>, key: T -> K, val: T -> V, i: int)
    requires 0 <= i < |xs|
    requires forall j :: i < j < |xs| ==> key(xs[j]) != key(xs[i])
    ensures key(xs[i]) in DictFrom(xs, key, val)
    ensures DictFrom(xs, key, val)[key(xs[i])] == val(xs[i])
    decreases |xs|
  {
    var n := |xs| - 1;
    if i < n {
      DictFromLastWins(xs[..n], key, val, i);
    }
  }

  predicate Distinct<T(==)>(s: seq<T>)
  {
    forall i, j :: 0 <= i < j < |s| ==> s[i] != s[j]
  }

  /** In a sequence without repetitions every value occurs at most once. */
  lemma {:induction false} DistinctOnce<T>(s: seq<T>, x: T)
    requires Distinct(s)
    ensures multiset(s)[x] <= 1
    decreases |s|
  {
    if s != [] {
      DistinctOnce(s[1..], x);
      assert s == [s[0]] + s[1..];
      if s[0] == x {
        assert x !in s[1..] by {
          forall i | 0 <= i < |s[1..]| ensures s[1..][i] != x {
            assert s[1..][i] == s[i + 1];
          }
        }
      }
    }
  }

  /** A value at two positions occurs at least twice. */
  lemma RepeatedTwice<T>(s: seq<T>, i: int, j: int)
    requires 0 <= i < j < |s| && s[i] == s[j]
    ensures multiset(s)[s[i]] >= 2
  {
    assert s == s[..i] + [s[i]] + s[i + 1..j] + [s[j]] + s[j + 1..];
  }

  /** A rearrangement of a sequence without repetitions has none either. */
  lemma PermutationDistinct<T>(a: seq<T>, b: seq<T>)
    requires multiset(a) == multiset(b) && Distinct(b)
    ensures Distinct(a)
  {
    forall i, j | 0 <= i < j < |a| ensures a[i] != a[j] {
      if a[i] == a[j] {
        RepeatedTwice(a, i, j);
        DistinctOnce(b, a[i]);
      }
    }
  }

  // ---------------------------------------------------------------------
  // Gathering the results of a run of steps

  /** A loop whose step `k` either finds a value (`Ok(Some(v))`), finds nothing
      (`Ok(None)`) or raises (`Err(e)`): the values found, in order, or the
      error of the first step that raises. */
  function Collect<T, E>(rs: seq<Result<Option<T>, E>>): Result<seq<T>, E>
    decreases |rs|
  {
    if rs == [] then Ok([])
    else
      var n := |rs| - 1;
      match Collect(rs[..n])
      case Err(e) => Err(e)
      case Ok(found) =>
        match rs[n]
        case Err(e) => Err(e)
        case Ok(None) => Ok(found)
        case Ok(Some(v)) => Ok(found + [v])
  }

  /** One more step: nothing found keeps the values, a value found is
      appended, and a step that raises fails the run. */
  lemma CollectStep<T, E>(rs: seq<Result<Option<T>, E>>, i: int)
    requires 0 <= i < |rs| && Collect(rs[..i]).Ok?
    ensures rs[i] == Ok(None) ==> Collect(rs[..i + 1]) == Collect(rs[..i])
    ensures rs[i].Ok? && rs[i].value.Some? ==>
              Collect(rs[..i + 1]) == Ok(Collect(rs[..i]).value + [rs[i].value.value])
    ensures rs[i].Err? ==> Collect(rs[..i + 1]) == Err(rs[i].error)
  {
    assert rs[..i + 1][..i] == rs[..i];
  }

  /** Once the steps up to `j` have raised, later steps change nothing. */
  lemma {:induction false} CollectAbortKeeps<T, E>(rs: seq<Result<Option<T>, E>>, j: int)
    requires 0 <= j <= |rs| && Collect(rs[..j]).Err?
    ensures Collect(rs) == Collect(rs[..j])
    decreases |rs| - j
  {
    if j < |rs| {
      assert rs[..j + 1][..j] == rs[..j];
      CollectAbortKeeps(rs, j + 1);
    } else {
      assert rs[..j] == rs;
    }
  }

  /** The run fails exactly when some step raises. */
  lemma {:induction false} CollectFails<T, E>(rs: seq<Result<Option<T>, E>>)
    ensures Collect(rs).Err? <==> exists k :: 0 <= k < |rs| && rs[k].Err?
    decreases |rs|
  {
    if rs != [] {
      var n := |rs| - 1;
      CollectFails(rs[..n]);
      assert forall k :: 0 <= k < n ==> rs[k] == rs[..n][k];
    }
  }

  /** A failed run reports the error of the first step that raises. */
  lemma {:induction false} CollectFirstFailure<T, E>(rs: seq<Result<Option<T>, E>>) returns (k: int)
    requires Collect(rs).Err?
    ensures 0 <= k < |rs| && rs[k] == Err(Collect(rs).error)
    ensures forall j :: 0 <= j < k ==> rs[j].Ok?
    decreases |rs|
  {
    var n := |rs| - 1;
    assert forall j :: 0 <= j < n ==> rs[..n][j] == rs[j];
    if Collect(rs[..n]).Err? {
      k := CollectFirstFailure(rs[..n]);
    } else {
      CollectFails(rs[..n]);
      k := n;
    }
  }

  /** A successful run holds the values found, in order: `idx` gives the step
      that found each, increasing, and every other step found nothing. */
  lemma {:induction false} CollectOk<T, E>(rs: seq<Result<Option<T>, E>>) returns (idx: seq<int>)
    requires Collect(rs).Ok?
    ensures var found := Collect(rs).value;
      && |idx| == |found|
      && (forall i :: 0 <= i < |idx| ==> 0 <= idx[i] < |rs| && rs[idx[i]] == Ok(Some(found[i])))
      && (forall i, j :: 0 <= i < j < |idx| ==> idx[i] < idx[j])
      && (forall k :: 0 <= k < |rs| && k !in idx ==> rs[k] == Ok(None))
    decreases |rs|
  {
    if rs == [] {
      idx := [];
    } else {
      var n := |rs| - 1;
      var front := rs[..n];
      var prev := CollectOk(front);
      assert forall k :: 0 <= k < n ==> rs[k] == front[k];
      if rs[n].value.Some? {
        idx := prev + [n];
        forall k | 0 <= k < |rs| && k !in idx ensures rs[k] == Ok(None) {
          assert k !in prev;
        }
      } else {
        idx := prev;
        forall k | 0 <= k < |rs| && k !in idx ensures rs[k] == Ok(None) {
          if k < n { assert k !in prev; }
        }
      }
    }
  }
}
