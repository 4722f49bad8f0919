/** The competence selector of the metier-recommendation view. Its state is
    two ordered sets of competences, `selected` and `notSelected`, each
    possibly still undefined. An ordered set is a duplicate-free sequence;
    after every `add` the set is sorted again with the competence
    comparator, so both sets are kept sorted by name. */
module CompetenceSelection {
  import opened Util
  import opened Comparators
  import opened TextSearch

  /** Strictly increasing by `lessThan`, hence duplicate-free. */
  predicate SortedByName(s: seq<Competence>)
  {
    forall i, j :: 0 <= i < j < |s| ==> LessThan(s[i], s[j]) == -1
  }

  lemma SortedNoDuplicates(s: seq<Competence>)
    requires SortedByName(s)
    ensures NoDuplicates(s)
  {
    forall i, j | 0 <= i < j < |s| ensures s[i] != s[j] {
      LessThanAntisymmetric(s[i], s[j]);
    }
  }

  /** `OrderedSet.add`: a new element goes last, a present one stays put. */
  function Add(s: seq<Competence>, c: Competence): (r: seq<Competence>)
    ensures forall x :: x in r <==> x in s || x == c
    ensures c in s ==> r == s
  {
    if c in s then s else s + [c]
  }

  /** `OrderedSet.delete`: the element is dropped, the others keep their order. */
  function Delete(s: seq<Competence>, c: Competence): (r: seq<Competence>)
    ensures forall x :: x in r <==> x in s && x != c
    ensures SortedByName(s) ==> SortedByName(r)
    ensures |r| <= |s|
  {
    if s == [] then []
    else
      var rest := Delete(s[1..], c);
      if s[0] == c then rest
      else
        assert SortedByName(s) ==> forall x :: x in rest ==> LessThan(s[0], x) == -1 by {
          if SortedByName(s) {
            forall x | x in rest ensures LessThan(s[0], x) == -1 {
              var j :| 0 <= j < |s[1..]| && s[1..][j] == x;
              assert s[j + 1] == x;
            }
          }
        }
        var r := [s[0]] + rest;
        assert SortedByName(s) ==> SortedByName(r) by {
          if SortedByName(s) {
            forall i, j | 0 <= i < j < |r| ensures LessThan(r[i], r[j]) == -1 {
              if i == 0 { assert r[j] in rest; } else { assert r[i] == rest[i - 1] && r[j] == rest[j - 1]; }
            }
          }
        }
        r
  }

  /** The head of a sorted set comes before each of its other elements. */
  lemma SortedHeadFirst(s: seq<Competence>, x: Competence)
    requires SortedByName(s) && x in s
    ensures x == s[0] || LessThan(s[0], x) == -1
  {
  }

  /** Places c among the sorted s; c already present leaves s as it is. */
  function Insert(s: seq<Competence>, c: Competence): (r: seq<Competence>)
    requires SortedByName(s)
    ensures SortedByName(r)
    ensures forall x :: x in r <==> x in s || x == c
  {
    if s == [] then [c]
    else if s[0] == c then s
    else if LessThan(c, s[0]) == -1 then
      assert forall j :: 0 <= j < |s| ==> LessThan(c, s[j]) == -1 by {
        forall j | 0 <= j < |s| ensures LessThan(c, s[j]) == -1 {
          if j > 0 { LessThanTransitive(c, s[0], s[j]); }
        }
      }
      [c] + s
    else
      LessThanAntisymmetric(c, s[0]);
      var rest := Insert(s[1..], c);
      assert forall x :: x in rest ==> LessThan(s[0], x) == -1 by {
        forall x | x in rest ensures LessThan(s[0], x) == -1 {
          if x != c {
            var j :| 0 <= j < |s[1..]| && s[1..][j] == x;
            assert s[j + 1] == x;
          }
        }
      }
      var r := [s[0]] + rest;
      assert forall i, j :: 0 <= i < j < |r| ==> LessThan(r[i], r[j]) == -1 by {
        forall i, j | 0 <= i < j < |r| ensures LessThan(r[i], r[j]) == -1 {
          if i == 0 { assert r[j] in rest; } else { assert r[i] == rest[i - 1] && r[j] == rest[j - 1]; }
        }
      }
      r
  }

  /** `.sort(lessThan)` of an ordered set: its elements in name order. */
  function SortByName(s: seq<Competence>): (r: seq<Competence>)
    ensures SortedByName(r)
    ensures forall x :: x in r <==> x in s
  {
    if s == [] then [] else Insert(SortByName(s[..|s| - 1]), s[|s| - 1])
  }

  /** Two sorted sets with the same elements are the same sequence. */
  lemma {:induction false} SortedUnique(a: seq<Competence>, b: seq<Competence>)
    requires SortedByName(a) && SortedByName(b)
    requires forall x :: x in a <==> x in b
    ensures a == b
  {
    if a != [] { assert a[0] in b; }
    if b != [] { assert b[0] in a; }
    if a != [] && b != [] {
      SortedHeadFirst(b, a[0]);
      SortedHeadFirst(a, b[0]);
      LessThanAntisymmetric(a[0], b[0]);
      assert a[0] == b[0];
      SortedNoDuplicates(a);
      SortedNoDuplicates(b);
      forall x ensures x in a[1..] <==> x in b[1..] {
        if x in a[1..] {
          var i :| 0 <= i < |a[1..]| && a[1..][i] == x;
          assert a[i + 1] != a[0];
          assert x in b;
        }
        if x in b[1..] {
          var i :| 0 <= i < |b[1..]| && b[1..][i] == x;
          assert b[i + 1] != b[0];
          assert x in a;
        }
      }
      SortedUnique(a[1..], b[1..]);
      assert a == [a[0]] + a[1..] && b == [b[0]] + b[1..];
    }
  }

  /** Sorting a sorted set changes nothing, so the second sort on load is
      harmless. */
  lemma SortIdempotent(s: seq<Competence>)
    requires SortedByName(s)
    ensures SortByName(s) == s
  {
    SortedUnique(SortByName(s), s);
  }

  /** `selected?.add(c).sort(lessThan)` is the sorted set with c placed in it. */
  lemma AddThenSort(s: seq<Competence>, c: Competence)
    requires SortedByName(s)
    ensures SortByName(Add(s, c)) == Insert(s, c)
  {
    SortedUnique(SortByName(Add(s, c)), Insert(s, c));
  }

  /** The competences as fetched: `OrderedSet(list).sort(lessThan)`. */
  function Fetched(names: seq<string>): (r: seq<Competence>)
    ensures SortedByName(r)
    ensures forall x :: x in r <==> x.name in names
  {
    var cs := seq(|names|, i requires 0 <= i < |names| => Named(names[i]));
    assert forall x :: x in cs <==> x.name in names by {
      forall x: Competence | x.name in names ensures x in cs {
        var i :| 0 <= i < |names| && names[i] == x.name;
        assert cs[i] == x;
      }
    }
    SortByName(cs)
  }

  /** The competences a set renders: those whose name contains the filter, in order. */
  function FilterByName(s: seq<Competence>, filter: string): (r: seq<Competence>)
    ensures forall x :: x in r <==> x in s && Shown(x.name, filter)
    ensures SortedByName(s) ==> SortedByName(r)
  {
    if s == [] then []
    else
      var rest := FilterByName(s[1..], filter);
      if Shown(s[0].name, filter) then [s[0]] + rest else rest
  }

  /** Both sets sorted, disjoint, and together holding exactly `all`. */
  ghost predicate Split(sel: seq<Competence>, notSel: seq<Competence>, all: set<Competence>)
  {
    && SortedByName(sel) && SortedByName(notSel)
    && (forall x :: x in sel ==> x !in notSel)
    && (forall x :: x in all <==> x in sel || x in notSel)
  }

  /** The state right after loading splits the fetched competences. */
  lemma LoadedSplit(names: seq<string>)
    ensures Split([], SortByName(Fetched(names)), set x | x in Fetched(names))
  {
  }

  /** Selecting c moves it into the selected set; the union gains only c
      (nothing, when c was listed) and the sets stay sorted and disjoint. */
  lemma SelectKeepsSplit(sel: seq<Competence>, notSel: seq<Competence>, all: set<Competence>, c: Competence)
    requires Split(sel, notSel, all)
    ensures Split(SortByName(Add(sel, c)), Delete(notSel, c), all + {c})
    ensures c in SortByName(Add(sel, c)) && c !in Delete(notSel, c)
  {
  }

  /** Deselecting c moves it into the not-selected set, symmetrically. */
  lemma DeselectKeepsSplit(sel: seq<Competence>, notSel: seq<Competence>, all: set<Competence>, c: Competence)
    requires Split(sel, notSel, all)
    ensures Split(Delete(sel, c), SortByName(Add(notSel, c)), all + {c})
    ensures c !in Delete(sel, c) && c in SortByName(Add(notSel, c))
  {
  }

  /** Selecting and then deselecting an unselected competence restores the state. */
  lemma SelectThenDeselect(sel: seq<Competence>, notSel: seq<Competence>, all: set<Competence>, c: Competence)
    requires Split(sel, notSel, all) && c in notSel
    ensures Delete(SortByName(Add(sel, c)), c) == sel
    ensures SortByName(Add(Delete(notSel, c), c)) == notSel
  {
    SortedUnique(Delete(SortByName(Add(sel, c)), c), sel);
    SortedUnique(SortByName(Add(Delete(notSel, c), c)), notSel);
  }

  class CompetenceSelector {
    var selected: Option<seq<Competence>>
    var notSelected: Option<seq<Competence>>
    var filter: string

    constructor()
      ensures selected == None && notSelected == None && filter == ""
    {
      selected := None;
      notSelected := None;
      filter := "";
    }

    /** The load effect: once the competences are fetched and neither set
        is defined, nothing is selected and all of them are not selected. */
    method Loaded(competences: Option<seq<Competence>>)
      modifies this
      ensures filter == old(filter)
      ensures if old(selected).None? && old(notSelected).None? && competences.Some?
        then selected == Some([]) && notSelected == Some(SortByName(competences.value))
        else selected == old(selected) && notSelected == old(notSelected)
    {
      if selected.None? && notSelected.None? && competences.Some? {
        selected := Some([]);
        notSelected := Some(SortByName(competences.value));
      }
    }

    /** An undefined set stays undefined. */
    method Select(c: Competence)
      modifies this
      ensures selected == if old(selected).None? then None else Some(SortByName(Add(old(selected).value, c)))
      ensures notSelected == if old(notSelected).None? then None else Some(Delete(old(notSelected).value, c))
      ensures filter == old(filter)
    {
      selected := if selected.None? then None else Some(SortByName(Add(selected.value, c)));
      notSelected := if notSelected.None? then None else Some(Delete(notSelected.value, c));
    }

    method Deselect(c: Competence)
      modifies this
      ensures selected == if old(selected).None? then None else Some(Delete(old(selected).value, c))
      ensures notSelected == if old(notSelected).None? then None else Some(SortByName(Add(old(notSelected).value, c)))
      ensures filter == old(filter)
    {
      selected := if selected.None? then None else Some(Delete(selected.value, c));
      notSelected := if notSelected.None? then None else Some(SortByName(Add(notSelected.value, c)));
    }

    method SetFilter(f: string)
      modifies this
      ensures filter == f && selected == old(selected) && notSelected == old(notSelected)
    {
      filter := f;
    }
  }
}
