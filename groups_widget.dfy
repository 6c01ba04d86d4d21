/** The bookkeeping of `groups_widget.py`: the pool of mice not yet placed
    in a group, the samples a loaded groups sheet takes out of that pool, and
    the guard in front of `add_group`. */
module GroupsWidget {
  import opened Tables
  import opened Averages
  import opened Groups

  /** Whether mouse `x` is a member of some group of the registry. */
  predicate InSomeGroup(groups: seq<Group>, x: int)
  {
    exists i | 0 <= i < |groups| :: x in groups[i].members
  }

  predicate StrictlyIncreasing(s: seq<int>)
  {
    forall i, j | 0 <= i < j < |s| :: s[i] < s[j]
  }

  /** Some element of a non-empty set. */
  ghost function PickOne(s: set<int>): (x: int)
    requires s != {}
    ensures x in s
  {
    assert exists y :: y in s by {
      if forall y :: y !in s { assert false; }
    }
    var x :| x in s; x
  }

  /** The least element of a finite non-empty set of integers. */
  lemma {:induction false} LeastOf(s: set<int>) returns (m: int)
    requires s != {}
    ensures m in s && forall y | y in s :: m <= y
    decreases |s|
  {
    var x := PickOne(s);
    var rest := s - {x};
    if rest == {} {
      assert s == {x};
      m := x;
    } else {
      var least := LeastOf(rest);
      m := if x < least then x else least;
      assert forall y | y in s :: y == x || y in rest;
    }
  }

  /** `sorted(s)` of a set: its elements in ascending order. */
  method SortedSet(s: set<int>) returns (r: seq<int>)
    ensures StrictlyIncreasing(r)
    ensures forall x :: x in r <==> x in s
  {
    r := [];
    var rest := s;
    while rest != {}
      invariant StrictlyIncreasing(r)
      invariant forall x :: x in s <==> x in r || x in rest
      invariant forall x | x in r :: x !in rest
      invariant forall i, y | 0 <= i < |r| && y in rest :: r[i] < y
      decreases |rest|
    {
      ghost var least := LeastOf(rest);
      var m :| m in rest && forall y | y in rest :: m <= y;
      r := r + [m];
      rest := rest - {m};
    }
  }

  /** The pool computed in `on_set_groups_model`: the given mice with every
      member of every group taken out, each once, in ascending order. */
  method AvailableMice(mice: seq<int>, groups: seq<Group>) returns (pool: seq<int>)
    ensures StrictlyIncreasing(pool)
    ensures forall x :: x in pool <==> x in mice && !InSomeGroup(groups, x)
  {
    var available := set x | x in mice;
    var alreadyUsed: seq<int> := [];
    var r := 0;
    while r < |groups|
      invariant 0 <= r <= |groups|
      invariant forall x :: x in alreadyUsed <==> exists i | 0 <= i < r :: x in groups[i].members
    {
      var members := groups[r].members;
      var rr := 0;
      while rr < |members|
        invariant 0 <= rr <= |members|
        invariant forall x :: x in alreadyUsed <==>
          (exists i | 0 <= i < r :: x in groups[i].members) || x in members[..rr]
      {
        alreadyUsed := alreadyUsed + [members[rr]];
        assert members[..rr + 1] == members[..rr] + [members[rr]];
        rr := rr + 1;
      }
      assert members[..rr] == members;
      r := r + 1;
    }
    available := available - set x | x in alreadyUsed;
    pool := SortedSet(available);
  }

  /** Whether `x` equals some cell of the groups sheet, numpy's
      `x in groups.values`. */
  predicate InSheet(t: Grid<string>, x: int)
  {
    exists c, k | 0 <= c < |t.columns| && 0 <= k < |t.columns[c].cells| :: EqualsInt(t.columns[c].cells[k], x)
  }

  /** The comprehension at line 210: the samples that occur in the loaded
      sheet, in their order. */
  function FilteredSamples(samples: seq<int>, t: Grid<string>): (r: seq<int>)
    ensures |r| <= |samples|
    ensures forall x :: x in r <==> x in samples && InSheet(t, x)
  {
    if |samples| == 0 then []
    else
      var n := |samples| - 1;
      var r := FilteredSamples(samples[..n], t) + (if InSheet(t, samples[n]) then [samples[n]] else []);
      assert samples == samples[..n] + [samples[n]];
      r
  }

  /** Each sample found in the sheet is kept as many times as it is given,
      every other sample is dropped: taking the filtered samples out of the
      pool takes out exactly the samples the loaded groups hold. */
  lemma {:induction false} FilteredCounts(samples: seq<int>, t: Grid<string>, x: int)
    ensures Count(FilteredSamples(samples, t), x) == if InSheet(t, x) then Count(samples, x) else 0
  {
    if |samples| > 0 {
      var n := |samples| - 1;
      var prefix, last := samples[..n], samples[n];
      var tail := if InSheet(t, last) then [last] else [];
      FilteredCounts(prefix, t, x);
      assert samples == prefix + [last];
      CountConcat(FilteredSamples(prefix, t), tail, x);
      CountConcat(prefix, [last], x);
      assert [last][..0] == [];
    }
  }

  /** A cell of a groups sheet: a gap, an integer id, or an id read as a
      float because its column has gaps. */
  predicate IdCell(cell: Cell)
  {
    cell.Empty? || cell.Int? || (cell.Num? && cell.r.Floor as real == cell.r)
  }

  predicate IntegralSheet(t: Grid<string>)
  {
    forall c, k | 0 <= c < |t.columns| && 0 <= k < |t.columns[c].cells| :: IdCell(t.columns[c].cells[k])
  }

  /** On an id cell, pandas' equality with an integer is equality of the id. */
  lemma IdCellEquals(cell: Cell, x: int)
    requires IdCell(cell) && !cell.Empty?
    ensures EqualsInt(cell, x) <==> IntOf(cell) == x
  {
    if cell.Num? {
      TruncIntegral(cell.r);
    }
  }

  /** On a sheet of ids with gaps (integers, or integral floats in a column
      with gaps), a sample is filtered out of the pool exactly when it is a
      member of one of the groups `load_groups` builds from that sheet. */
  lemma FilteredAreLoadedMembers(samples: seq<int>, t: Grid<string>, x: int)
    requires IntegralSheet(t)
    ensures NumericIds(t)
    ensures x in FilteredSamples(samples, t) <==> x in samples && InSomeGroup(Loaded(t), x)
  {
    var gs := Loaded(t);
    if InSheet(t, x) {
      var c, k :| 0 <= c < |t.columns| && 0 <= k < |t.columns[c].cells| && EqualsInt(t.columns[c].cells[k], x);
      IdCellEquals(t.columns[c].cells[k], x);
      LoadedGroups(t, c, x);
      assert x in gs[c].members;
    }
    if InSomeGroup(gs, x) {
      var c :| 0 <= c < |gs| && x in gs[c].members;
      LoadedGroups(t, c, x);
      var k :| 0 <= k < |t.columns[c].cells| && !t.columns[c].cells[k].Empty? && IntOf(t.columns[c].cells[k]) == x;
      IdCellEquals(t.columns[c].cells[k], x);
      assert EqualsInt(t.columns[c].cells[k], x);
    }
  }

  /** `on_create_new_group`: the registry gains the group only when the
      dialog was accepted with a non-empty name; without a registry nothing
      happens. */
  method OnCreateNewGroup(model: GroupsModel?, name: string, ok: bool)
    modifies model
    ensures model != null && ok && name != "" ==>
      model.groups == Added(old(model.groups), name) && model.control == old(model.control)
    ensures model != null && !(ok && name != "") ==> model.groups == old(model.groups) && model.control == old(model.control)
  {
    if model == null {
      return;
    }
    if ok && name != "" {
      model.AddGroup(name);
    }
  }
}
