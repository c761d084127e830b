/** The failure-carrying datatypes shared by every model in this project. */
module Wrappers {
  datatype Option<+T> = None | Some(value: T)

  datatype Result<+T, +E> = Ok(value: T) | Err(error: E)
}

/** Regrouping of concatenations, stated once so that no proof has to search for it. */
module Seqs {
  lemma Associative<T>(a: seq<T>, b: seq<T>, c: seq<T>)
    ensures (a + b) + c == a + (b + c)
  {
  }

  lemma Regroup<T>(a: seq<T>, b: seq<T>, c: seq<T>, d: seq<T>)
    ensures a + (b + c) + d == a + b + (c + d)
    ensures a + (b + c) + d == (a + b) + c + d
  {
  }

  lemma SplitAt<T>(xs: seq<T>, m: nat)
    requires m <= |xs|
    ensures xs[..m] + xs[m..] == xs
    ensures [] + xs[..m] + xs[m..] == xs
  {
  }

  lemma SkipEmpty<T>(a: seq<T>, b: seq<T>)
    ensures a + [] + b == a + b
    ensures [] + a + b == a + b
  {
  }
}
