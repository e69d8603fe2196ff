/** What several modules say about lists without repetitions. */
module Sequences {

  datatype Option<+T> = None | Some(value: T)

  ghost predicate NoRepeats<T>(list: seq<T>) {
    forall i, j :: 0 <= i < j < |list| ==> list[i] != list[j]
  }

  /** `list` has every element of the set once. */
  ghost predicate Enumerates<T>(list: seq<T>, elements: set<T>) {
    if list == [] then elements == {} else list[0] in elements && Enumerates(list[1..], elements - {list[0]})
  }

  lemma {:induction false} EnumerationFacts<T>(list: seq<T>, elements: set<T>)
    requires Enumerates(list, elements)
    ensures forall x :: x in list <==> x in elements
    ensures NoRepeats(list)
    decreases |list|
  {
    if list != [] {
      var rest := list[1..];
      EnumerationFacts(rest, elements - {list[0]});
      assert forall x :: x in list <==> x == list[0] || x in rest;
      forall i, j | 0 <= i < j < |list|
        ensures list[i] != list[j]
      {
        assert list[j] == rest[j - 1] && rest[j - 1] in rest;
        assert i > 0 ==> list[i] == rest[i - 1];
      }
    }
  }

  /** list.remove(x), which takes out the first occurrence. */
  function RemoveFirst<T(==)>(list: seq<T>, x: T): (r: seq<T>)
    ensures x !in list ==> r == list
  {
    if list == [] then [] else if list[0] == x then list[1..] else [list[0]] + RemoveFirst(list[1..], x)
  }
}
