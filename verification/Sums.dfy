/** Totals of a weight over a list, and how they react to editing the list. */
module Sums {

  function Total<T>(s: seq<T>, weight: T -> nat): nat {
    if s == [] then 0 else Total(s[..|s| - 1], weight) + weight(s[|s| - 1])
  }

  /** The list without its `i`-th element. */
  function Without<T>(s: seq<T>, i: nat): (r: seq<T>)
    requires i < |s|
    ensures |r| == |s| - 1
  {
    s[..i] + s[i + 1..]
  }

  lemma {:induction false} TotalAppend<T>(s: seq<T>, t: seq<T>, weight: T -> nat)
    ensures Total(s + t, weight) == Total(s, weight) + Total(t, weight)
    decreases |t|
  {
    if t == [] {
      assert s + t == s;
    } else {
      assert (s + t)[..|s + t| - 1] == s + t[..|t| - 1];
      TotalAppend(s, t[..|t| - 1], weight);
    }
  }

  lemma TotalPush<T>(s: seq<T>, x: T, weight: T -> nat)
    ensures Total(s + [x], weight) == Total(s, weight) + weight(x)
  {
    assert (s + [x])[..|s|] == s;
  }

  /** Taking an element out takes its weight off the total. */
  lemma {:induction false} TotalWithout<T>(s: seq<T>, i: nat, weight: T -> nat)
    requires i < |s|
    ensures Total(s, weight) == Total(Without(s, i), weight) + weight(s[i])
    decreases |s|
  {
    var rest := s[..|s| - 1];
    if i == |s| - 1 {
      assert Without(s, i) == rest;
    } else {
      assert Without(s, i) == Without(rest, i) + [s[|s| - 1]];
      TotalPush(Without(rest, i), s[|s| - 1], weight);
      TotalWithout(rest, i, weight);
    }
  }

  /** Replacing an element exchanges its weight. */
  lemma TotalUpdate<T>(s: seq<T>, i: nat, x: T, weight: T -> nat)
    requires i < |s|
    ensures Total(s[i := x], weight) + weight(s[i]) == Total(s, weight) + weight(x)
  {
    TotalWithout(s, i, weight);
    TotalWithout(s[i := x], i, weight);
    assert Without(s[i := x], i) == Without(s, i);
  }

  lemma WithoutRemovesOne<T>(s: seq<T>, i: nat)
    requires i < |s|
    ensures multiset(Without(s, i)) == multiset(s) - multiset{s[i]}
  {
    assert s == s[..i] + [s[i]] + s[i + 1..];
  }

  /** The order of the elements does not matter. */
  lemma {:induction false} TotalPermutes<T>(s: seq<T>, t: seq<T>, weight: T -> nat)
    requires multiset(s) == multiset(t)
    ensures Total(s, weight) == Total(t, weight)
    decreases |s|
  {
    if s == [] {
      assert |multiset(t)| == 0;
    } else {
      var last, rest := s[|s| - 1], s[..|s| - 1];
      assert last in multiset(t);
      var i :| 0 <= i < |t| && t[i] == last;
      assert multiset(Without(t, i)) == multiset(rest) by {
        WithoutRemovesOne(s, |s| - 1);
        WithoutRemovesOne(t, i);
        assert Without(s, |s| - 1) == rest;
      }
      TotalPermutes(rest, Without(t, i), weight);
      TotalWithout(t, i, weight);
    }
  }

  lemma {:induction false} TotalPrefix<T>(s: seq<T>, i: nat, weight: T -> nat)
    requires i <= |s|
    ensures Total(s[..i], weight) <= Total(s, weight)
  {
    assert s == s[..i] + s[i..];
    TotalAppend(s[..i], s[i..], weight);
  }
}
