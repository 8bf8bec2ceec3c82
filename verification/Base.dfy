/** Values shared by every component: optional values, results, and small facts about sequences. */
module Base {

  datatype Option<+T> = None | Some(value: T)

  datatype Result<+T, +E> = Ok(value: T) | Err(error: E)

  /** The elements of a sequence, order and repetition forgotten. */
  function Elements<T(!new)>(s: seq<T>): (r: set<T>)
    ensures forall x :: x in r <==> x in s
  {
    set x | x in s
  }

  /** No value occurs twice. */
  ghost predicate NoDuplicates<T>(s: seq<T>) {
    forall i, j :: 0 <= i < j < |s| ==> s[i] != s[j]
  }

  lemma EmptyList<T(!new)>(s: seq<T>)
    ensures s == [] <==> Elements(s) == {}
  {
    if s != [] {
      assert s[0] in Elements(s);
    }
  }

  /** The entries of a list that are not nil, in order. */
  function Present<T(!new)>(s: seq<Option<T>>): (r: seq<T>)
    ensures forall x :: x in r <==> Some(x) in s
  {
    if s == [] then []
    else
      var last := s[|s| - 1];
      assert s == s[..|s| - 1] + [last];
      Present(s[..|s| - 1]) + (if last.Some? then [last.value] else [])
  }

  /** Reading one more entry. */
  lemma PresentGrows<T(!new)>(s: seq<Option<T>>, i: nat)
    requires i < |s|
    ensures Present(s[..i + 1]) == if s[i].Some? then Present(s[..i]) + [s[i].value] else Present(s[..i])
  {
    assert s[..i + 1][..i] == s[..i];
  }

  /** Visiting one more element of a list without repetitions. */
  lemma Visited<T(!new)>(s: seq<T>, i: nat)
    requires i < |s| && NoDuplicates(s)
    ensures s[i] in Elements(s) && s[i] !in Elements(s[..i])
    ensures Elements(s[..i + 1]) == Elements(s[..i]) + {s[i]}
    ensures i + 1 == |s| ==> Elements(s[..i + 1]) == Elements(s)
  {
  }

  /** A list that holds every element of `s` once, as ranging over a Go map yields them: in any order. */
  method Enumerate<T(==,!new)>(s: set<T>) returns (order: seq<T>)
    ensures Elements(order) == s
    ensures NoDuplicates(order)
  {
    order := [];
    var rest := s;
    while rest != {}
      invariant rest <= s
      invariant Elements(order) == s - rest
      invariant NoDuplicates(order)
      decreases rest
    {
      var x :| x in rest;
      assert x !in Elements(order);
      order := order + [x];
      rest := rest - {x};
    }
  }
}
