/** The name filter of the selectors: an entry is shown when
    `~name.indexOf(filter)` is truthy, that is when the filter occurs in the
    name (the empty filter occurs in every name). */
module TextSearch {

  /** `sub` occurs in `s` at position i. */
  predicate OccursAt(s: string, sub: string, i: int)
  {
    0 <= i && i + |sub| <= |s| && s[i..i + |sub|] == sub
  }

  predicate Contains(s: string, sub: string)
  {
    exists i :: 0 <= i <= |s| && OccursAt(s, sub, i)
  }

  /** `s.indexOf(sub, i)`: the first occurrence at or after i, or -1. */
  function IndexOfFrom(s: string, sub: string, i: nat): (r: int)
    requires i <= |s|
    ensures r == -1 || (i <= r && OccursAt(s, sub, r))
    ensures r == -1 ==> forall k :: i <= k ==> !OccursAt(s, sub, k)
    ensures r >= 0 ==> forall k :: i <= k < r ==> !OccursAt(s, sub, k)
    decreases |s| - i
  {
    if OccursAt(s, sub, i) then i
    else if i == |s| then -1
    else IndexOfFrom(s, sub, i + 1)
  }

  /** `s.indexOf(sub)`. */
  function IndexOf(s: string, sub: string): (r: int)
    ensures r == -1 <==> !Contains(s, sub)
    ensures r >= 0 ==> OccursAt(s, sub, r) && forall k :: 0 <= k < r ==> !OccursAt(s, sub, k)
  {
    IndexOfFrom(s, sub, 0)
  }

  /** JavaScript's `~` on a 32-bit integer. */
  function BitNot(x: int): int
  {
    -x - 1
  }

  /** `~name.indexOf(filter)` is truthy (non-zero). */
  predicate Shown(name: string, filter: string)
  {
    BitNot(IndexOf(name, filter)) != 0
  }

  /** An entry is shown exactly when the filter occurs in its name. */
  lemma ShownIffContains(name: string, filter: string)
    ensures Shown(name, filter) <==> Contains(name, filter)
  {
  }

  /** With no filter typed, every entry is shown. */
  lemma EmptyFilterShowsAll(name: string)
    ensures Shown(name, "")
  {
    assert OccursAt(name, "", 0);
  }
}
