/** Failure-compatible results for errors that the backup programs raise as exceptions. */
module Wrappers {

  datatype Option<+T> = None | Some(value: T) {
    predicate IsFailure() {
      None?
    }

    function PropagateFailure<U>(): Option<U>
      requires None?
    {
      None
    }

    function Extract(): T
      requires Some?
    {
      value
    }
  }

  datatype Result<+T, +E> = Ok(value: T) | Err(error: E) {
    predicate IsFailure() {
      Err?
    }

    function PropagateFailure<U>(): Result<U, E>
      requires Err?
    {
      Err(error)
    }

    function Extract(): T
      requires Ok?
    {
      value
    }
  }
}

/** Facts about slices that the verifier does not always find unaided. */
module Slices {

  lemma SliceOfSuffix<T>(s: seq<T>, from: nat, lo: nat, hi: nat)
    requires from <= |s| && lo <= hi <= |s| - from
    ensures s[from..][lo..hi] == s[from + lo..from + hi]
  {
  }

  lemma SuffixOfSuffix<T>(s: seq<T>, from: nat, n: nat)
    requires from <= |s| && n <= |s| - from
    ensures s[from..][n..] == s[from + n..]
  {
  }

  lemma PrefixOfConcat<T>(a: seq<T>, b: seq<T>)
    ensures (a + b)[..|a|] == a && (a + b)[|a|..] == b
  {
  }

  lemma OneLonger<T>(longer: seq<T>, s: seq<T>, x: T)
    requires |longer| == |s| + 1 && longer[|s|] == x && forall i :: 0 <= i < |s| ==> longer[i] == s[i]
    ensures longer == s + [x]
  {
  }

  lemma ConcatAssociates<T>(a: seq<T>, b: seq<T>, c: seq<T>)
    ensures (a + b) + c == a + (b + c)
  {
  }
}
