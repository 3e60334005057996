/** Facts about sequences used to state ordering promises: no duplicates,
    the position of an element, and "lists these elements in the same
    relative order as". */
module Sequences {

  /** No element occurs twice. */
  ghost predicate NoDup<T>(s: seq<T>)
  {
    forall i, j :: 0 <= i < j < |s| ==> s[i] != s[j]
  }

  /** The position of the first occurrence of `x` in `s`. */
  function IndexOf<T(==)>(s: seq<T>, x: T): (i: nat)
    requires x in s
    ensures i < |s| && s[i] == x
    ensures x !in s[..i]
  {
    if s[0] == x then 0
    else
      var j := IndexOf(s[1..], x);
      assert s[..j + 1] == [s[0]] + s[1..][..j];
      1 + j
  }

  /** Every element of `xs` occurs in `ys`, and `xs` lists them in the order
      `ys` does: `xs` is a duplicate-free subsequence of `ys`. */
  ghost predicate InOrder<T>(xs: seq<T>, ys: seq<T>)
  {
    && (forall i :: 0 <= i < |xs| ==> xs[i] in ys)
    && (forall i, j :: 0 <= i < j < |xs| ==> IndexOf(ys, xs[i]) < IndexOf(ys, xs[j]))
  }

  /** Elements listed in order of a sequence are listed once. */
  lemma InOrderNoDup<T>(xs: seq<T>, ys: seq<T>)
    requires InOrder(xs, ys)
    ensures NoDup(xs)
  {
  }

  /** An in-order listing drawn from the tail of a duplicate-free sequence
      stays in order of the whole sequence, also with its head put in front. */
  lemma InOrderExtend<T>(xs: seq<T>, ys: seq<T>)
    requires NoDup(ys) && |ys| > 0
    requires InOrder(xs, ys[1..])
    ensures InOrder(xs, ys)
    ensures InOrder([ys[0]] + xs, ys)
  {
  }

  /** The step of `RemoveValue`'s ordering proof: what survives from the tail
      stays in order, with or without the head in front. */
  lemma RemoveValueInOrder<T>(s: seq<T>, x: T, rest: seq<T>)
    requires |s| > 0
    requires NoDup(s[1..]) ==> InOrder(rest, s[1..])
    ensures NoDup(s) ==> InOrder(rest, s) && InOrder([s[0]] + rest, s)
  {
  }

  /** `s` with every occurrence of `x` removed, the rest kept in order. */
  function RemoveValue<T(==,!new)>(s: seq<T>, x: T): (r: seq<T>)
    ensures forall y :: y in r <==> y in s && y != x
    ensures NoDup(s) ==> NoDup(r) && InOrder(r, s)
    ensures x !in s ==> r == s
  {
    if s == [] then []
    else
      var rest := RemoveValue(s[1..], x);
      RemoveValueInOrder(s, x, rest);
      if s[0] == x then rest else [s[0]] + rest
  }
}
