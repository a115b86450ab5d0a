// Values that may be missing, and a fact about lists.

module Wrappers {
  datatype Option<+T> = None | Some(value: T)

  lemma SomeMember<T>(s: seq<T>)
    ensures s == [] || exists x :: x in s
  {
    if s != [] {
      assert s[0] in s;
    }
  }
}
