/** List operations the chat client uses: `reversed(...)` for message
    pages and keeping the elements that pass a test, in order. */
module Seqs {

  /** The elements of `s` in the opposite order. */
  function Reverse<T>(s: seq<T>): (r: seq<T>)
    ensures |r| == |s|
    ensures forall k :: 0 <= k < |s| ==> r[k] == s[|s| - 1 - k]
  {
    if s == [] then [] else [s[|s| - 1]] + Reverse(s[..|s| - 1])
  }

  /** Reversing a prefix one element longer puts that element in front. */
  lemma ReverseSnoc<T>(s: seq<T>, i: nat)
    requires i < |s|
    ensures Reverse(s[..i + 1]) == [s[i]] + Reverse(s[..i])
  {
    assert s[..i + 1][..i] == s[..i];
  }

  /** Reversing twice gives the original order back. */
  lemma ReverseInvolution<T>(s: seq<T>)
    ensures Reverse(Reverse(s)) == s
  {
    assert forall k :: 0 <= k < |s| ==> Reverse(Reverse(s))[k] == Reverse(s)[|s| - 1 - k];
  }

  /** The elements of `xs` for which `keep` holds, in their order, built by
      appending each kept element. */
  function Keep<T>(xs: seq<T>, keep: T -> bool): seq<T>
  {
    if xs == [] then []
    else
      var init := Keep(xs[..|xs| - 1], keep);
      if keep(xs[|xs| - 1]) then init + [xs[|xs| - 1]] else init
  }

  /** One more element: the prefix of length `i + 1` keeps what the prefix
      of length `i` keeps, plus `xs[i]` when it passes. */
  lemma KeepStep<T>(xs: seq<T>, i: nat, keep: T -> bool)
    requires i < |xs|
    ensures Keep(xs[..i + 1], keep)
      == if keep(xs[i]) then Keep(xs[..i], keep) + [xs[i]] else Keep(xs[..i], keep)
  {
    assert xs[..i + 1][..i] == xs[..i];
  }

  /** `sub` is `s` with some elements left out, the rest kept in order. */
  ghost predicate IsSubsequence<T>(sub: seq<T>, s: seq<T>)
    decreases |s|
  {
    sub == [] ||
    (s != [] &&
      ((sub[|sub| - 1] == s[|s| - 1] && IsSubsequence(sub[..|sub| - 1], s[..|s| - 1]))
       || IsSubsequence(sub, s[..|s| - 1])))
  }

  /** The kept elements keep their original order. */
  lemma {:induction false} KeepIsSubsequence<T>(xs: seq<T>, keep: T -> bool)
    ensures IsSubsequence(Keep(xs, keep), xs)
  {
    if xs != [] {
      var init := xs[..|xs| - 1];
      KeepIsSubsequence(init, keep);
      var r := Keep(xs, keep);
      if keep(xs[|xs| - 1]) {
        assert r[..|r| - 1] == Keep(init, keep);
      }
    }
  }

  /** Only elements of the input that pass are kept. */
  lemma {:induction false} KeepSound<T>(xs: seq<T>, keep: T -> bool, x: T)
    requires x in Keep(xs, keep)
    ensures x in xs && keep(x)
  {
    var init := xs[..|xs| - 1];
    assert xs == init + [xs[|xs| - 1]];
    if x in Keep(init, keep) {
      KeepSound(init, keep, x);
    }
  }

  /** Every element that passes is kept. */
  lemma {:induction false} KeepComplete<T>(xs: seq<T>, keep: T -> bool, x: T)
    requires x in xs && keep(x)
    ensures x in Keep(xs, keep)
  {
    var init := xs[..|xs| - 1];
    assert xs == init + [xs[|xs| - 1]];
    if x != xs[|xs| - 1] {
      KeepComplete(init, keep, x);
    }
  }

  /** When every element passes, everything is kept in order. */
  lemma {:induction false} KeepAll<T>(xs: seq<T>, keep: T -> bool)
    requires forall x :: x in xs ==> keep(x)
    ensures Keep(xs, keep) == xs
  {
    if xs != [] {
      var init := xs[..|xs| - 1];
      assert forall x :: x in init ==> x in xs;
      KeepAll(init, keep);
      assert init + [xs[|xs| - 1]] == xs;
    }
  }

  /** Nothing is kept twice: at most as many elements as the input has. */
  lemma {:induction false} KeepLength<T>(xs: seq<T>, keep: T -> bool)
    ensures |Keep(xs, keep)| <= |xs|
  {
    if xs != [] {
      KeepLength(xs[..|xs| - 1], keep);
    }
  }

  /** Keeping again with the same test changes nothing. */
  lemma {:induction false} KeepIdempotent<T>(xs: seq<T>, keep: T -> bool)
    ensures Keep(Keep(xs, keep), keep) == Keep(xs, keep)
  {
    if xs != [] {
      var init := xs[..|xs| - 1];
      KeepIdempotent(init, keep);
      var r := Keep(xs, keep);
      if keep(xs[|xs| - 1]) {
        assert r[..|r| - 1] == Keep(init, keep);
      }
    }
  }
}
