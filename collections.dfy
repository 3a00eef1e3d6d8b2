/** Python `set` and `list` as the scripts use them: a list built from a set
    with `list(s)` holds every element once, in an order Python does not fix. */
module Collections {

  /** No element occurs twice in `xs`. */
  predicate NoDuplicates<T(==)>(xs: seq<T>)
  {
    forall i, j :: 0 <= i < j < |xs| ==> xs[i] != xs[j]
  }

  /** The set of the elements of `xs`. */
  function Elems<T>(xs: seq<T>): set<T>
  {
    set x | x in xs
  }

  /** Python's `list(s)`: every element of `s` exactly once, in no particular order. */
  method ListOf<T(==)>(s: set<T>) returns (xs: seq<T>)
    ensures NoDuplicates(xs)
    ensures Elems(xs) == s
    ensures |xs| == |s|
  {
    xs := [];
    var rest := s;
    while rest != {}
      invariant rest <= s
      invariant NoDuplicates(xs)
      invariant Elems(xs) == s - rest
      invariant |xs| + |rest| == |s|
      decreases rest
    {
      var x :| x in rest;
      assert Elems(xs + [x]) == Elems(xs) + {x};
      xs := xs + [x];
      rest := rest - {x};
    }
  }

  /** A prefix one longer is the shorter prefix and the next element. */
  lemma PrefixSnoc<T>(s: seq<T>, i: int)
    requires 0 <= i < |s|
    ensures s[..i + 1] == s[..i] + [s[i]]
  {
  }

  /** `t` is `s` with position `i` replaced by `x` when they agree elsewhere. */
  lemma UpdatedAt<T>(s: seq<T>, t: seq<T>, i: int, x: T)
    requires |t| == |s| && 0 <= i < |s| && t[i] == x
    requires forall j :: 0 <= j < |s| && j != i ==> t[j] == s[j]
    ensures t == s[i := x]
  {
  }
}
