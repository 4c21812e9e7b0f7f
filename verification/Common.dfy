/** Datatypes shared by the component models. */
module Common {

  datatype Option<+T> = None | Some(value: T)

  datatype Result<+T, +E> = Ok(value: T) | Err(error: E)

  /** Least of two integers. */
  function Min(a: int, b: int): int {
    if a <= b then a else b
  }

  /** Greatest of two integers. */
  function Max(a: int, b: int): int {
    if a <= b then b else a
  }

  /** No element occurs twice. */
  ghost predicate Distinct<T>(s: seq<T>) {
    forall i, j :: 0 <= i < j < |s| ==> s[i] != s[j]
  }

  lemma {:induction false} DistinctSnoc<T>(s: seq<T>, x: T)
    requires Distinct(s) && x !in s
    ensures Distinct(s + [x])
  {
    assert forall k :: 0 <= k < |s| ==> s[k] in s;
  }

  ghost predicate StrictlyIncreasing(s: seq<nat>) {
    forall i, j :: 0 <= i < j < |s| ==> s[i] < s[j]
  }

  lemma {:induction false} IncreasingSnoc(s: seq<nat>, n: nat)
    requires StrictlyIncreasing(s) && forall k :: 0 <= k < |s| ==> s[k] < n
    ensures StrictlyIncreasing(s + [n])
  {
  }

  lemma {:induction false} ConcatAssociates<T>(a: seq<T>, b: seq<T>, c: seq<T>)
    ensures (a + b) + c == a + (b + c)
  {
  }

  /** Some element of a nonempty set. */
  lemma Witness<T>(s: set<T>) returns (x: T)
    requires s != {}
    ensures x in s
  {
    x :| x in s;
  }
}
