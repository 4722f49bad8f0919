/** The experience selector of the job-recommendation view. Its state is
    two lists of experience ids, `selected` and `notSelected`, each possibly
    still undefined; ticking an experience moves it from one list to the
    other by appending it to the first and removing its first occurrence
    from the second (Ramda's `remove` at the `findIndex` position). */
module ExperienceSelection {
  import opened Util
  import opened TextSearch

  type ExperienceId = string

  /** An experience record as the backend lists it. */
  datatype Experience = Experience(name: string, expType: string)

  /** `R.remove(start, 1, s)`: a copy of `s` spliced at `start`, where a
      negative start counts from the end (so -1 is the last entry). */
  function Spliced<T>(s: seq<T>, start: int): (r: seq<T>)
    ensures 0 <= start < |s| ==> r == s[..start] + s[start + 1..]
    ensures start == -1 && s != [] ==> r == s[..|s| - 1]
    ensures start >= |s| ==> r == s
  {
    var k := if start < 0 then (if |s| + start < 0 then 0 else |s| + start) else start;
    if k >= |s| then s else s[..k] + s[k + 1..]
  }

  /** `R.remove(R.findIndex(R.equals(c), s), 1, s)`. */
  function RemoveFirst<T(==)>(s: seq<T>, c: T): seq<T>
  {
    Spliced(s, FindIndex(s, c))
  }

  /** An id that is listed loses its first occurrence, and nothing else. */
  lemma RemoveFirstPresent<T>(s: seq<T>, c: T)
    requires c in s
    ensures var i := FindIndex(s, c);
      && RemoveFirst(s, c) == s[..i] + s[i + 1..] && c !in s[..i]
      && multiset(RemoveFirst(s, c)) == multiset(s) - multiset{c}
  {
    var i := FindIndex(s, c);
    var before, after := s[..i], s[i + 1..];
    assert RemoveFirst(s, c) == before + after;
    assert s == before + [c] + after;
    assert multiset(s) == multiset(before) + multiset{c} + multiset(after);
    assert multiset(before + after) == multiset(before) + multiset(after);
  }

  /** An id that is not listed makes the list lose its last entry. */
  lemma RemoveFirstAbsent<T>(s: seq<T>, c: T)
    requires c !in s && s != []
    ensures RemoveFirst(s, c) == s[..|s| - 1]
  {
  }

  /** `selected === undefined ? [c] : R.append(c, selected)`. */
  function Appended(list: Option<seq<ExperienceId>>, c: ExperienceId): (r: seq<ExperienceId>)
    ensures |r| == if list.None? then 1 else |list.value| + 1
    ensures list.Some? ==> r[..|list.value|] == list.value
    ensures r[|r| - 1] == c
  {
    if list.None? then [c] else list.value + [c]
  }

  /** `list === undefined ? [] : R.remove(R.findIndex(R.equals(c), list), 1, list)`. */
  function Removed(list: Option<seq<ExperienceId>>, c: ExperienceId): (r: seq<ExperienceId>)
    ensures list.None? ==> r == []
    ensures list.Some? && c in list.value ==> multiset(r) == multiset(list.value) - multiset{c}
  {
    if list.None? then [] else
      if c in list.value then RemoveFirstPresent(list.value, c); RemoveFirst(list.value, c)
      else RemoveFirst(list.value, c)
  }

  /** Moving a listed id from one list to the other keeps the ids of both
      lists together, counted with repetition. */
  lemma MoveKeepsIds(from: seq<ExperienceId>, to: seq<ExperienceId>, c: ExperienceId)
    requires c in from
    ensures multiset(Appended(Some(to), c) + Removed(Some(from), c)) == multiset(to + from)
    ensures multiset(Removed(Some(from), c) + Appended(Some(to), c)) == multiset(from + to)
  {
    assert multiset(from) == multiset(from) - multiset{c} + multiset{c};
  }

  /** The lists partition the experience ids: each id occurs in exactly one
      list, once. */
  ghost predicate Partition(sel: seq<ExperienceId>, notSel: seq<ExperienceId>, ids: set<ExperienceId>)
  {
    forall x :: multiset(sel + notSel)[x] == if x in ids then 1 else 0
  }

  /** A list holds each of its ids once exactly when it has no duplicates. */
  lemma {:induction false} OnceEachIffNoDuplicates(s: seq<ExperienceId>)
    ensures (forall x :: multiset(s)[x] == if x in s then 1 else 0) <==> NoDuplicates(s)
  {
    if s != [] {
      var h, t := s[0], s[1..];
      assert s == [h] + t;
      OnceEachIffNoDuplicates(t);
      assert forall x :: multiset(s)[x] == (if x == h then 1 else 0) + multiset(t)[x];
      if NoDuplicates(s) {
        assert NoDuplicates(t) by {
          forall p, q | 0 <= p < q < |t| ensures t[p] != t[q] {
            assert t[p] == s[p + 1] && t[q] == s[q + 1];
          }
        }
        assert h !in t by {
          forall k | 0 <= k < |t| ensures t[k] != h {
            assert t[k] == s[k + 1];
          }
        }
      } else {
        var p, q :| 0 <= p < q < |s| && s[p] == s[q];
        var x := s[p];
        if p == 0 {
          assert x in t by { assert t[q - 1] == x; }
          assert multiset(s)[x] >= 2;
        } else {
          assert !NoDuplicates(t) by { assert t[p - 1] == t[q - 1]; }
        }
      }
    }
  }

  /** The load effect partitions the ids exactly when the record lists each
      id once. */
  lemma LoadedPartition(ids: seq<ExperienceId>)
    ensures Partition([], ids, set x | x in ids) <==> NoDuplicates(ids)
  {
    assert [] + ids == ids;
    OnceEachIffNoDuplicates(ids);
  }

  /** Selecting an unselected id keeps the partition; the id changes sides. */
  lemma SelectKeepsPartition(sel: seq<ExperienceId>, notSel: seq<ExperienceId>, c: ExperienceId, ids: set<ExperienceId>)
    requires Partition(sel, notSel, ids) && c in notSel
    ensures Partition(Appended(Some(sel), c), Removed(Some(notSel), c), ids)
    ensures c in Appended(Some(sel), c) && c !in Removed(Some(notSel), c)
  {
    MoveKeepsIds(notSel, sel, c);
    assert multiset(sel + notSel)[c] == multiset(sel)[c] + multiset(notSel)[c];
    assert multiset(Removed(Some(notSel), c))[c] == 0;
    assert Appended(Some(sel), c)[|sel|] == c;
  }

  /** Deselecting a selected id keeps the partition; the id changes sides. */
  lemma DeselectKeepsPartition(sel: seq<ExperienceId>, notSel: seq<ExperienceId>, c: ExperienceId, ids: set<ExperienceId>)
    requires Partition(sel, notSel, ids) && c in sel
    ensures Partition(Removed(Some(sel), c), Appended(Some(notSel), c), ids)
    ensures c !in Removed(Some(sel), c) && c in Appended(Some(notSel), c)
  {
    MoveKeepsIds(sel, notSel, c);
    assert multiset(sel + notSel)[c] == multiset(sel)[c] + multiset(notSel)[c];
    assert multiset(Removed(Some(sel), c))[c] == 0;
    assert Appended(Some(notSel), c)[|notSel|] == c;
  }

  /** Deselecting just after selecting gives back the selected list. */
  lemma SelectThenDeselect(sel: seq<ExperienceId>, c: ExperienceId)
    requires c !in sel
    ensures Removed(Some(Appended(Some(sel), c)), c) == sel
  {
    assert FindIndex(sel + [c], c) == |sel|;
  }

  datatype RenderError = ReferenceError(id: ExperienceId)

  /** ids[k] is the first id without a record; with no records at all it is
      the first id. */
  predicate FirstMissing(ids: seq<ExperienceId>, experiences: Option<map<ExperienceId, Experience>>, k: int)
  {
    && 0 <= k < |ids|
    && if experiences.None? then k == 0
       else ids[k] !in experiences.value && forall j :: 0 <= j < k ==> ids[j] in experiences.value
  }

  /** The records of the listed ids, in order; the first id without a
      record (all of them while the records are not loaded) is a
      ReferenceError. */
  function Lookup(ids: seq<ExperienceId>, experiences: Option<map<ExperienceId, Experience>>)
    : (r: Result<seq<(ExperienceId, Experience)>, RenderError>)
    ensures r.Ok? <==> forall x :: x in ids ==> experiences.Some? && x in experiences.value
    ensures r.Ok? ==> (|r.value| == |ids| && forall k :: 0 <= k < |ids| ==>
      experiences.Some? && r.value[k] == (ids[k], experiences.value[ids[k]]))
    ensures r.Err? ==> exists k :: FirstMissing(ids, experiences, k) && ids[k] == r.error.id
  {
    if ids == [] then Ok([])
    else if experiences.None? || ids[0] !in experiences.value then
      assert FirstMissing(ids, experiences, 0) && ids[0] in ids;
      Err(ReferenceError(ids[0]))
    else
      match Lookup(ids[1..], experiences)
      case Err(e) =>
        var k :| FirstMissing(ids[1..], experiences, k) && ids[1..][k] == e.id;
        assert FirstMissing(ids, experiences, k + 1);
        Err(e)
      case Ok(rest) => Ok([(ids[0], experiences.value[ids[0]])] + rest)
  }

  /** The entries whose name contains the filter, in order. */
  function FilterByName(entries: seq<(ExperienceId, Experience)>, filter: string)
    : (r: seq<(ExperienceId, Experience)>)
    ensures forall e :: e in r <==> e in entries && Shown(e.1.name, filter)
    ensures |r| <= |entries|
  {
    if entries == [] then []
    else (if Shown(entries[0].1.name, filter) then [entries[0]] else []) + FilterByName(entries[1..], filter)
  }

  /** Filtering goes entry by entry: it distributes over concatenation and
      keeps a single entry exactly when its name passes. */
  lemma {:induction false} FilterByNameAppend(a: seq<(ExperienceId, Experience)>, b: seq<(ExperienceId, Experience)>, filter: string)
    ensures FilterByName(a + b, filter) == FilterByName(a, filter) + FilterByName(b, filter)
    ensures forall e :: FilterByName([e], filter) == if Shown(e.1.name, filter) then [e] else []
  {
    if a == [] {
      assert a + b == b;
    } else {
      assert (a + b)[1..] == a[1..] + b;
      FilterByNameAppend(a[1..], b, filter);
    }
    forall e ensures FilterByName([e], filter) == if Shown(e.1.name, filter) then [e] else [] {
      assert [e][1..] == [];
    }
  }

  /** Each entry is kept with its multiplicity when its name passes, and
      dropped otherwise. */
  lemma {:induction false} FilterByNameMultiset(entries: seq<(ExperienceId, Experience)>, filter: string)
    ensures forall e :: (multiset(FilterByName(entries, filter))[e] ==
      if Shown(e.1.name, filter) then multiset(entries)[e] else 0)
  {
    if entries != [] {
      FilterByNameMultiset(entries[1..], filter);
      assert entries == [entries[0]] + entries[1..];
    }
  }

  /** The entries a list renders: nothing while it is undefined, otherwise
      its looked-up records filtered by name. */
  function Rendered(list: Option<seq<ExperienceId>>, experiences: Option<map<ExperienceId, Experience>>, filter: string)
    : (r: Option<Result<seq<(ExperienceId, Experience)>, RenderError>>)
    ensures r.None? <==> list.None?
    ensures r.Some? ==> (r.value.Ok? <==> Lookup(list.value, experiences).Ok?)
    ensures r.Some? && r.value.Ok? ==> r.value.value == FilterByName(Lookup(list.value, experiences).value, filter)
    ensures r.Some? && r.value.Ok? ==> forall id, e :: (id, e) in r.value.value <==>
      (id in list.value && experiences.Some? && id in experiences.value && e == experiences.value[id] && Shown(e.name, filter))
  {
    if list.None? then None
    else
      var looked := Lookup(list.value, experiences);
      if looked.Err? then Some(Err(looked.error))
      else
        assert forall id, e :: (id, e) in looked.value <==>
          (id in list.value && e == experiences.value[id]) by {
          forall id, e | id in list.value && e == experiences.value[id] ensures (id, e) in looked.value {
            var k :| 0 <= k < |list.value| && list.value[k] == id;
            assert looked.value[k] == (id, e);
          }
        }
        Some(Ok(FilterByName(looked.value, filter)))
  }

  class ExperienceSelector {
    var selected: Option<seq<ExperienceId>>
    var notSelected: Option<seq<ExperienceId>>
    var filter: string

    constructor()
      ensures selected == None && notSelected == None && filter == ""
    {
      selected := None;
      notSelected := None;
      filter := "";
    }

    /** The load effect: once the records are there and neither list is
        defined, nothing is selected and every id, in record order, is
        not selected. */
    method Loaded(experienceIds: Option<seq<ExperienceId>>)
      modifies this
      ensures filter == old(filter)
      ensures if old(selected).None? && old(notSelected).None? && experienceIds.Some?
        then selected == Some([]) && notSelected == experienceIds
        else selected == old(selected) && notSelected == old(notSelected)
    {
      if selected.None? && notSelected.None? && experienceIds.Some? {
        selected := Some([]);
        notSelected := experienceIds;
      }
    }

    method Select(c: ExperienceId)
      modifies this
      ensures selected == Some(Appended(old(selected), c))
      ensures notSelected == Some(Removed(old(notSelected), c))
      ensures filter == old(filter)
    {
      selected := Some(Appended(selected, c));
      notSelected := Some(Removed(notSelected, c));
    }

    method Deselect(c: ExperienceId)
      modifies this
      ensures selected == Some(Removed(old(selected), c))
      ensures notSelected == Some(Appended(old(notSelected), c))
      ensures filter == old(filter)
    {
      selected := Some(Removed(selected, c));
      notSelected := Some(Appended(notSelected, c));
    }

    method SetFilter(f: string)
      modifies this
      ensures filter == f && selected == old(selected) && notSelected == old(notSelected)
    {
      filter := f;
    }
  }
}
