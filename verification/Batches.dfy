/** The loop shape shared by the payout migration and the KYC purge: fetch the first
    `limit` pending items in a fixed order, handle each, and let the ones that fail stay
    pending for the next fetch. */
module Batches {
  import opened Seqs

  function Min(a: nat, b: nat): nat { if a <= b then a else b }

  /** The items that stay, in order. */
  function Kept<T>(xs: seq<T>, bad: T -> bool): (r: seq<T>)
    ensures |r| <= |xs|
  {
    if xs == [] then []
    else (if bad(xs[0]) then [xs[0]] else []) + Kept(xs[1..], bad)
  }

  /** One fetch of at most `limit` items, of which exactly the bad ones stay pending. */
  function Pass<T>(xs: seq<T>, bad: T -> bool, limit: nat): seq<T> {
    var m := Min(limit, |xs|);
    Kept(xs[..m], bad) + xs[m..]
  }

  function Passes<T>(xs: seq<T>, bad: T -> bool, limit: nat, n: nat): seq<T>
    decreases n
  {
    if n == 0 then xs else Passes(Pass(xs, bad, limit), bad, limit, n - 1)
  }

  function Repeated<S>(run: S -> S, s: S, n: nat): S
    decreases n
  {
    if n == 0 then s else Repeated(run, run(s), n - 1)
  }

  /** A program whose every run is one pass over its backlog follows the abstract loop. */
  lemma {:induction false} RepeatedPasses<S(!new), T>(
      run: S -> S, ok: S -> bool, backlog: S -> seq<T>, bad: T -> bool, limit: nat, s: S, n: nat)
    requires ok(s)
    requires forall t {:trigger run(t)} | ok(t) :: ok(run(t)) && backlog(run(t)) == Pass(backlog(t), bad, limit)
    ensures backlog(Repeated(run, s, n)) == Passes(backlog(s), bad, limit, n)
    decreases n
  {
    if n > 0 {
      RepeatedPasses(run, ok, backlog, bad, limit, run(s), n - 1);
    }
  }

  lemma {:induction false} KeptOfConcat<T>(xs: seq<T>, ys: seq<T>, bad: T -> bool)
    ensures Kept(xs + ys, bad) == Kept(xs, bad) + Kept(ys, bad)
  {
    if xs == [] {
      assert xs + ys == ys;
    } else {
      KeptOfConcat(xs[1..], ys, bad);
      var head := if bad(xs[0]) then [xs[0]] else [];
      assert (xs + ys)[1..] == xs[1..] + ys;
      assert Kept(xs + ys, bad) == head + Kept(xs[1..] + ys, bad);
      Associative(head, Kept(xs[1..], bad), Kept(ys, bad));
    }
  }

  lemma KeptNext<T>(xs: seq<T>, i: nat, bad: T -> bool)
    requires i < |xs|
    ensures Kept(xs[..i + 1], bad) == Kept(xs[..i], bad) + if bad(xs[i]) then [xs[i]] else []
  {
    assert xs[..i + 1] == xs[..i] + [xs[i]];
    KeptOfConcat(xs[..i], [xs[i]], bad);
  }

  lemma {:induction false} KeptMembers<T>(xs: seq<T>, bad: T -> bool)
    ensures forall x :: x in Kept(xs, bad) <==> x in xs && bad(x)
  {
    if xs != [] {
      KeptMembers(xs[1..], bad);
      assert xs == [xs[0]] + xs[1..];
    }
  }

  lemma {:induction false} EverythingKept<T>(xs: seq<T>, bad: T -> bool)
    requires forall x | x in xs :: bad(x)
    ensures Kept(xs, bad) == xs
  {
    if xs != [] {
      assert xs[0] in xs;
      EverythingKept(xs[1..], bad);
    }
  }

  lemma {:induction false} KeptTwice<T>(xs: seq<T>, bad: T -> bool)
    ensures Kept(Kept(xs, bad), bad) == Kept(xs, bad)
  {
    if xs != [] {
      KeptTwice(xs[1..], bad);
      if bad(xs[0]) {
        assert ([xs[0]] + Kept(xs[1..], bad))[1..] == Kept(xs[1..], bad);
      } else {
        assert Kept(xs, bad) == Kept(xs[1..], bad);
      }
    }
  }

  lemma DropGood<T>(pre: seq<T>, x: T, post: seq<T>, bad: T -> bool)
    requires !bad(x)
    ensures Kept(pre + [x] + post, bad) == Kept(pre + post, bad)
  {
    KeptOfConcat(pre + [x], post, bad);
    KeptOfConcat(pre, [x], bad);
    KeptOfConcat(pre, post, bad);
    assert Kept([x], bad) == [];
  }

  /** A filter that only `x` fails takes out `x`. */
  lemma TakesOutOne<T>(pre: seq<T>, x: T, post: seq<T>, keep: T -> bool)
    requires !keep(x) && forall y | y in pre || y in post :: keep(y)
    ensures Kept(pre + [x] + post, keep) == pre + post
  {
    DropGood(pre, x, post, keep);
    KeptOfConcat(pre, post, keep);
    EverythingKept(pre, keep);
    EverythingKept(post, keep);
  }

  lemma {:induction false} FiltersCommute<T>(xs: seq<T>, p: T -> bool, q: T -> bool)
    ensures Kept(Kept(xs, p), q) == Kept(Kept(xs, q), p)
  {
    if xs != [] {
      var x, rest := xs[0], xs[1..];
      FiltersCommute(rest, p, q);
      KeptOfConcat(if p(x) then [x] else [], Kept(rest, p), q);
      KeptOfConcat(if q(x) then [x] else [], Kept(rest, q), p);
      assert Kept([x], p) == (if p(x) then [x] else []) && Kept([x], q) == (if q(x) then [x] else []);
      assert Kept([], p) == [] && Kept([], q) == [];
    }
  }

  /** An item with a full batch before it is out of reach of this pass. */
  lemma PassSplits<T>(pre: seq<T>, x: T, post: seq<T>, bad: T -> bool, limit: nat)
    requires |pre| >= limit
    ensures Pass(pre + [x] + post, bad, limit) == Pass(pre, bad, limit) + [x] + post
  {
    var xs := pre + [x] + post;
    assert xs[..limit] == pre[..limit];
    assert xs[limit..] == pre[limit..] + [x] + post;
  }

  /** No pass changes which bad items there are. */
  lemma PassKeepsBad<T>(xs: seq<T>, bad: T -> bool, limit: nat)
    ensures Kept(Pass(xs, bad, limit), bad) == Kept(xs, bad)
  {
    var m := Min(limit, |xs|);
    KeptOfConcat(Kept(xs[..m], bad), xs[m..], bad);
    KeptTwice(xs[..m], bad);
    KeptOfConcat(xs[..m], xs[m..], bad);
    assert xs[..m] + xs[m..] == xs;
  }

  lemma {:induction false} Starved<T>(pre: seq<T>, x: T, post: seq<T>, bad: T -> bool, limit: nat, n: nat)
    requires |Kept(pre, bad)| >= limit
    ensures x in Passes(pre + [x] + post, bad, limit, n)
    decreases n
  {
    if n > 0 {
      PassSplits(pre, x, post, bad, limit);
      PassKeepsBad(pre, bad, limit);
      Starved(Pass(pre, bad, limit), x, post, bad, limit, n - 1);
    }
  }

  lemma {:induction false} Reached<T>(pre: seq<T>, x: T, post: seq<T>, bad: T -> bool, limit: nat) returns (n: nat)
    requires |Kept(pre, bad)| < limit && !bad(x) && x !in pre && x !in post
    ensures x !in Passes(pre + [x] + post, bad, limit, n)
    decreases |pre|
  {
    var xs := pre + [x] + post;
    if |pre| < limit {
      var m := Min(limit, |xs|);
      assert xs[m..] == post[m - |pre| - 1..];
      KeptMembers(xs[..m], bad);
      assert Passes(xs, bad, limit, 1) == Pass(xs, bad, limit);
      n := 1;
    } else {
      var later := Pass(pre, bad, limit);
      PassSplits(pre, x, post, bad, limit);
      PassKeepsBad(pre, bad, limit);
      KeptOfConcat(pre[..limit], pre[limit..], bad);
      assert pre[..limit] + pre[limit..] == pre;
      KeptMembers(pre[..limit], bad);
      assert x !in later;
      n := Reached(later, x, post, bad, limit);
      n := n + 1;
    }
  }

  /** A good item is handled after some number of passes exactly when fewer than `limit`
      bad items come before it; otherwise they fill every batch for ever. */
  lemma ReachedExactlyWhen<T>(pre: seq<T>, x: T, post: seq<T>, bad: T -> bool, limit: nat)
    requires !bad(x) && x !in pre && x !in post
    ensures (exists n: nat :: x !in Passes(pre + [x] + post, bad, limit, n)) <==> |Kept(pre, bad)| < limit
  {
    if |Kept(pre, bad)| < limit {
      var n := Reached(pre, x, post, bad, limit);
    } else {
      forall n: nat
        ensures x in Passes(pre + [x] + post, bad, limit, n)
      {
        Starved(pre, x, post, bad, limit, n);
      }
    }
  }

  lemma {:induction false} NothingKept<T>(xs: seq<T>, bad: T -> bool)
    requires forall x | x in xs :: !bad(x)
    ensures Kept(xs, bad) == []
  {
    if xs != [] {
      assert xs[0] in xs;
      NothingKept(xs[1..], bad);
    }
  }

  /** Without bad items, n passes handle n * limit items. */
  lemma {:induction false} HealthyPasses<T>(xs: seq<T>, bad: T -> bool, limit: nat, n: nat)
    requires forall x | x in xs :: !bad(x)
    ensures |Passes(xs, bad, limit, n)| == if n * limit <= |xs| then |xs| - n * limit else 0
    decreases n
  {
    if n > 0 {
      var m := Min(limit, |xs|);
      NothingKept(xs[..m], bad);
      assert Pass(xs, bad, limit) == xs[m..];
      HealthyPasses(xs[m..], bad, limit, n - 1);
      OneLess(n, limit);
    }
  }

  lemma OneLess(n: int, d: nat)
    ensures (n - 1) * d == n * d - d
    ensures n >= 1 ==> n * d >= d
  {
  }

  /** Hence all of them are gone after exactly ceil(|xs| / limit) passes. */
  lemma HealthyDrain<T>(xs: seq<T>, bad: T -> bool, limit: nat, n: nat)
    requires limit > 0 && forall x | x in xs :: !bad(x)
    ensures Passes(xs, bad, limit, n) == [] <==> n >= (|xs| + limit - 1) / limit
  {
    HealthyPasses(xs, bad, limit, n);
    CeilBound(|xs|, limit, n);
  }

  lemma CeilBound(size: nat, limit: nat, n: nat)
    requires limit > 0
    ensures n * limit >= size <==> n >= (size + limit - 1) / limit
  {
    var c := (size + limit - 1) / limit;
    if n >= c {
      assert n * limit >= c * limit;
    } else {
      assert n * limit <= (c - 1) * limit;
    }
  }
}
