/** Joining sequences of sequences. */
module Sequences {
  function Flat<T>(s: seq<seq<T>>): seq<T> {
    if s == [] then [] else Flat(s[..|s| - 1]) + s[|s| - 1]
  }

  lemma FlatNone<T>()
    ensures Flat<T>([]) == []
  {
  }

  lemma {:induction false} FlatPush<T>(s: seq<seq<T>>, x: seq<T>)
    ensures Flat(s + [x]) == Flat(s) + x
  {
    assert (s + [x])[..|s|] == s;
  }
}
