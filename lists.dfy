/** List operations the components apply to their state arrays. */
module Lists {

  /** `s.filter((_, i) => i !== index)`: every element except the one at position index. */
  function WithoutIndex<T>(s: seq<T>, index: int): (r: seq<T>)
    ensures 0 <= index < |s| ==> r == s[..index] + s[index + 1..]
    ensures !(0 <= index < |s|) ==> r == s
    decreases |s|
  {
    if s == [] then []
    else (if index == 0 then [] else [s[0]]) + WithoutIndex(s[1..], index - 1)
  }

  /** Removing a position in range shortens the list by one, and nothing else moves out of order. */
  lemma WithoutIndexShape<T>(s: seq<T>, index: int)
    requires 0 <= index < |s|
    ensures |WithoutIndex(s, index)| == |s| - 1
    ensures forall i :: 0 <= i < index ==> WithoutIndex(s, index)[i] == s[i]
    ensures forall i :: index <= i < |s| - 1 ==> WithoutIndex(s, index)[i] == s[i + 1]
  {
  }

  /** Removing the element just appended gives back the list as it was before it. */
  lemma {:induction false} WithoutAppended<T>(s: seq<T>, x: T)
    ensures WithoutIndex(s + [x], |s|) == s
  {
    assert (s + [x])[..|s|] == s;
    assert (s + [x])[|s| + 1..] == [];
  }
}
