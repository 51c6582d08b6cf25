/** Failure-carrying values shared by every module of the include compiler, and
    the exceptions the original code raises, as values. */
module Common {

  datatype Option<+T> = None | Some(value: T)

  /** The exceptions the modelled code can raise. */
  datatype Error =
    | ValueError(msg: string)   // unresolved include, circular include
    | IndexError                // directive line without its separator
    | TypeError                 // read_info_once on a key that never occurs
    | IOError(path: string)     // a file that cannot be read

  datatype Result<+T> = Ok(value: T) | Err(error: Error)

  /** Result of an action that returns nothing unless it raises. */
  datatype Outcome = Pass | Fail(error: Error)

  /** All elements of `s` are pairwise different. */
  predicate Distinct<T(==)>(s: seq<T>) {
    forall i, j :: 0 <= i < j < |s| ==> s[i] != s[j]
  }

  /** Putting an element that does not occur in front keeps a sequence free of repeats. */
  lemma DistinctCons<T>(x: T, s: seq<T>)
    requires Distinct(s) && x !in s
    ensures Distinct([x] + s)
  {
    assert forall j :: 1 <= j < |[x] + s| ==> ([x] + s)[j] == s[j - 1];
  }

  /** Two sequences without repeats and without a common element concatenate
      into one without repeats. */
  lemma DistinctAppend<T>(s: seq<T>, t: seq<T>)
    requires Distinct(s) && Distinct(t)
    requires forall x :: x in s ==> x !in t
    ensures Distinct(s + t)
  {
    forall i, j | 0 <= i < j < |s + t|
      ensures (s + t)[i] != (s + t)[j]
    {
      if j >= |s| && i < |s| {
        assert (s + t)[i] in s && (s + t)[j] in t;
      }
    }
  }

  /** `|s|` when `s` has no repeated element. */
  lemma {:induction false} DistinctCard<T>(s: seq<T>)
    requires Distinct(s)
    ensures |set x | x in s| == |s|
  {
    if s != [] {
      var t := s[1..];
      assert Distinct(t);
      DistinctCard(t);
      assert (set x | x in s) == (set x | x in t) + {s[0]};
      assert s[0] !in (set x | x in t);
    }
  }

  /** A sequence without repeats drawn from a finite set is no longer than the set. */
  lemma DistinctBound<T>(s: seq<T>, dom: set<T>)
    requires Distinct(s)
    requires forall i :: 0 <= i < |s| ==> s[i] in dom
    ensures |s| <= |dom|
  {
    DistinctCard(s);
    SubsetCard((set x | x in s), dom);
  }

  lemma {:induction false} SubsetCard<T>(a: set<T>, b: set<T>)
    requires a <= b
    ensures |a| <= |b|
    decreases a
  {
    if a != {} {
      var x :| x in a;
      SubsetCard(a - {x}, b - {x});
    }
  }
}
