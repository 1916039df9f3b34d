/** What `len(set(xs))` says about a list `xs`. */
module Sequences {

  /** `set(xs)`. */
  function Elements<T(==)>(xs: seq<T>): set<T>
  {
    set x | x in xs
  }

  /** No value occurs twice. */
  predicate Distinct<T(==)>(xs: seq<T>)
  {
    forall i, j :: 0 <= i < j < |xs| ==> xs[i] != xs[j]
  }

  /** `len(set(xs)) <= len(xs)`, with equality exactly when nothing repeats. */
  lemma {:induction false} ElementsCount<T>(xs: seq<T>)
    ensures |Elements(xs)| <= |xs|
    ensures |Elements(xs)| == |xs| <==> Distinct(xs)
  {
    if xs != [] {
      var init, last := xs[..|xs| - 1], xs[|xs| - 1];
      ElementsCount(init);
      assert xs == init + [last];
      assert Elements(xs) == Elements(init) + {last};
      if last in init {
        assert Elements(xs) == Elements(init);
        var k :| 0 <= k < |init| && init[k] == last;
        assert xs[k] == xs[|xs| - 1];
      } else {
        assert last !in Elements(init);
        assert Distinct(xs) <==> Distinct(init) by {
          if Distinct(init) {
            forall i, j | 0 <= i < j < |xs| ensures xs[i] != xs[j] {
              if j == |xs| - 1 { assert xs[i] in init; } else { assert xs[i] == init[i] && xs[j] == init[j]; }
            }
          }
          if Distinct(xs) {
            forall i, j | 0 <= i < j < |init| ensures init[i] != init[j] {
              assert init[i] == xs[i] && init[j] == xs[j];
            }
          }
        }
      }
    }
  }

  /** For a non-empty list, `len(set(xs)) != 1` exactly when two entries differ. */
  lemma ElementsSingleton<T>(xs: seq<T>)
    requires xs != []
    ensures |Elements(xs)| != 1 <==> exists i, j :: 0 <= i < |xs| && 0 <= j < |xs| && xs[i] != xs[j]
  {
    if forall i :: 0 <= i < |xs| ==> xs[i] == xs[0] {
      assert Elements(xs) == {xs[0]};
    } else {
      var i :| 0 <= i < |xs| && xs[i] != xs[0];
      assert {xs[0], xs[i]} <= Elements(xs);
      assert |{xs[0], xs[i]}| == 2;
      SubsetCard({xs[0], xs[i]}, Elements(xs));
    }
  }

  lemma SubsetCard<T>(a: set<T>, b: set<T>)
    requires a <= b
    ensures |a| <= |b|
  {
    assert b == a + (b - a);
  }

  /** The prefix of length `i + 1` is the prefix of length `i` and one more element. */
  lemma PrefixSnoc<T>(xs: seq<T>, i: nat)
    requires i < |xs|
    ensures xs[..i + 1] == xs[..i] + [xs[i]]
  {
  }
}
