/** The group registry of `groups_model.py`: the ordered list of
    `[name, members, selected]` entries with its control index, the
    operations that change it in place, the imperative `compute_averages`
    proved against `Averages.AveragesOf`, and `extract_property_filter`. */
module Groups {
  import opened Tables
  import opened Averages

  // ---------------------------------------------------------------------
  // The registry as a value

  function Names(gs: seq<Group>): (ns: seq<string>)
    ensures |ns| == |gs| && forall i | 0 <= i < |gs| :: ns[i] == gs[i].name
  {
    seq(|gs|, i requires 0 <= i < |gs| => gs[i].name)
  }

  /** `add_group(name)` on the list: nothing happens when the name is taken,
      otherwise one empty, selected group goes at the end. */
  function Added(gs: seq<Group>, name: string): (r: seq<Group>)
    ensures |gs| <= |r| <= |gs| + 1 && r[..|gs|] == gs
    ensures |r| == |gs| + 1 <==> name !in Names(gs)
    ensures |r| == |gs| + 1 ==> r[|gs|] == Group(name, [], true)
    ensures name in Names(r)
  {
    if name in Names(gs) then gs else gs + [Group(name, [], true)]
  }

  /** Adding keeps the names pairwise distinct. */
  lemma AddedKeepsNamesDistinct(gs: seq<Group>, name: string)
    requires DistinctNames(gs)
    ensures DistinctNames(Added(gs, name))
  {
    var r := Added(gs, name);
    if |r| == |gs| + 1 {
      forall i, j | 0 <= i < j < |r| ensures r[i].name != r[j].name {
        if j == |gs| {
          assert r[i] == gs[i] && Names(gs)[i] == gs[i].name;
        } else {
          assert r[i] == gs[i] && r[j] == gs[j];
        }
      }
    }
  }

  /** The indexes `remove_groups` collects: for each requested name in turn,
      the position of the first group so named; absent names are skipped. */
  function Positions(gs: seq<Group>, names: seq<string>): (ps: seq<nat>)
    ensures forall k | 0 <= k < |ps| :: ps[k] < |gs|
  {
    if |names| == 0 then []
    else
      Positions(gs, names[..|names| - 1])
        + match IndexOf(Names(gs), names[|names| - 1]) case Some(i) => [i] case None => []
  }

  /** `list.reverse()`. */
  function Reverse<T>(s: seq<T>): (r: seq<T>)
    ensures |r| == |s| && forall k | 0 <= k < |s| :: r[k] == s[|s| - 1 - k]
  {
    seq(|s|, k requires 0 <= k < |s| => s[|s| - 1 - k])
  }

  /** `del gs[idx]` for each index in turn. The flag is false when an index
      is out of range: Python raises IndexError there, and the deletions
      already made stay done. */
  function DeleteEach(gs: seq<Group>, idxs: seq<nat>): (r: (seq<Group>, bool))
    ensures |r.0| <= |gs|
  {
    if |idxs| == 0 then (gs, true)
    else if idxs[0] >= |gs| then (gs, false)
    else DeleteEach(gs[..idxs[0]] + gs[idxs[0] + 1..], idxs[1..])
  }

  /** The list and the completion flag after `remove_groups(names)`. */
  function Removed(gs: seq<Group>, names: seq<string>): (seq<Group>, bool)
  {
    DeleteEach(gs, Reverse(Positions(gs, names)))
  }

  /** The groups whose names are not in `names`, in their original order:
      what removing those names is meant to leave. */
  function FilterOut(gs: seq<Group>, names: seq<string>): (r: seq<Group>)
    ensures |r| <= |gs|
  {
    if |gs| == 0 then []
    else
      var g := gs[|gs| - 1];
      FilterOut(gs[..|gs| - 1], names) + (if g.name in names then [] else [g])
  }

  /** A group survives the filtering exactly when it was there and its name
      is not among `names`. */
  lemma {:induction false} FilterOutMembership(gs: seq<Group>, names: seq<string>, g: Group)
    ensures g in FilterOut(gs, names) <==> g in gs && g.name !in names
  {
    if |gs| > 0 {
      var n := |gs| - 1;
      FilterOutMembership(gs[..n], names, g);
      assert gs == gs[..n] + [gs[n]];
    }
  }

  /** Filtering works piece by piece, so the surviving groups keep their
      relative order. */
  lemma {:induction false} FilterOutConcat(a: seq<Group>, b: seq<Group>, names: seq<string>)
    ensures FilterOut(a + b, names) == FilterOut(a, names) + FilterOut(b, names)
    decreases |b|
  {
    if |b| == 0 {
      assert a + b == a;
    } else {
      var n := |b| - 1;
      var g := b[n];
      var tail := if g.name in names then [] else [g];
      FilterOutConcat(a, b[..n], names);
      assert (a + b)[..|a + b| - 1] == a + b[..n] && (a + b)[|a + b| - 1] == g;
      assert FilterOut(a + b, names) == FilterOut(a + b[..n], names) + tail;
      assert FilterOut(b, names) == FilterOut(b[..n], names) + tail;
    }
  }

  /** Filtering keeps the names pairwise distinct. */
  lemma {:induction false} FilterOutKeepsNamesDistinct(gs: seq<Group>, names: seq<string>)
    requires DistinctNames(gs)
    ensures DistinctNames(FilterOut(gs, names))
  {
    if |gs| > 0 {
      var n := |gs| - 1;
      var prev := FilterOut(gs[..n], names);
      FilterOutKeepsNamesDistinct(gs[..n], names);
      var r := FilterOut(gs, names);
      forall i, j | 0 <= i < j < |r| ensures r[i].name != r[j].name {
        if j == |prev| {
          assert r[i] in prev;
          FilterOutMembership(gs[..n], names, r[i]);
          var k :| 0 <= k < n && gs[..n][k] == r[i];
          assert r[j] == gs[n];
        } else {
          assert r[i] == prev[i] && r[j] == prev[j];
        }
      }
    }
  }

  /** The groups at the positions not listed in `ds`, in order. */
  function KeepIdx(gs: seq<Group>, ds: seq<nat>): seq<Group>
  {
    if |gs| == 0 then []
    else KeepIdx(gs[..|gs| - 1], ds) + (if |gs| - 1 in ds then [] else [gs[|gs| - 1]])
  }

  predicate Increasing(s: seq<nat>)
  {
    forall k, k' | 0 <= k < k' < |s| :: s[k] < s[k']
  }

  predicate Decreasing(s: seq<nat>)
  {
    forall k, k' | 0 <= k < k' < |s| :: s[k] > s[k']
  }

  /** Positions below the length of `a` ignore what follows `a`. */
  lemma {:induction false} KeepIdxAppend(a: seq<Group>, b: seq<Group>, ds: seq<nat>)
    requires forall k | 0 <= k < |ds| :: ds[k] < |a|
    ensures KeepIdx(a + b, ds) == KeepIdx(a, ds) + b
    decreases |b|
  {
    if |b| == 0 {
      assert a + b == a;
    } else {
      var n := |b| - 1;
      var ab := a + b;
      KeepIdxAppend(a, b[..n], ds);
      assert ab[..|ab| - 1] == a + b[..n] && ab[|ab| - 1] == b[n];
      assert |ab| - 1 !in ds;
      calc {
        KeepIdx(ab, ds);
        KeepIdx(a + b[..n], ds) + [b[n]];
        KeepIdx(a, ds) + b[..n] + [b[n]];
        { assert b[..n] + [b[n]] == b; }
        KeepIdx(a, ds) + b;
      }
    }
  }

  /** A position at or past the end changes nothing. */
  lemma {:induction false} KeepIdxIgnoresLarge(a: seq<Group>, ds: seq<nat>, d: nat)
    requires d >= |a|
    ensures KeepIdx(a, [d] + ds) == KeepIdx(a, ds)
  {
    if |a| > 0 {
      KeepIdxIgnoresLarge(a[..|a| - 1], ds, d);
      assert (|a| - 1 in [d] + ds) == (|a| - 1 in ds);
    }
  }

  /** Deleting at strictly decreasing in-range positions never shifts a
      position still to be deleted, so it removes exactly those positions. */
  lemma {:induction false} DeleteDecreasing(gs: seq<Group>, ds: seq<nat>)
    requires Decreasing(ds)
    requires forall k | 0 <= k < |ds| :: ds[k] < |gs|
    ensures DeleteEach(gs, ds) == (KeepIdx(gs, ds), true)
    decreases |ds|
  {
    if |ds| == 0 {
      KeepIdxAppend([], gs, []);
      assert [] + gs == gs;
    } else {
      var d, rest := ds[0], ds[1..];
      var gs' := gs[..d] + gs[d + 1..];
      assert forall k | 0 <= k < |rest| :: rest[k] < d;
      DeleteDecreasing(gs', rest);
      KeepIdxAppend(gs[..d], gs[d + 1..], rest);
      assert ds == [d] + rest;
      KeepIdxAppend(gs[..d + 1], gs[d + 1..], ds);
      assert gs[..d + 1] + gs[d + 1..] == gs;
      assert gs[..d + 1][..d] == gs[..d];
      assert KeepIdx(gs[..d + 1], ds) == KeepIdx(gs[..d], ds);
      KeepIdxIgnoresLarge(gs[..d], rest, d);
    }
  }

  /** Keeping by position agrees with keeping by name when the positions
      listed are exactly those of the named groups. */
  lemma {:induction false} KeepIdxByName(gs: seq<Group>, ds: seq<nat>, names: seq<string>)
    requires forall i | 0 <= i < |gs| :: i in ds <==> gs[i].name in names
    ensures KeepIdx(gs, ds) == FilterOut(gs, names)
  {
    if |gs| > 0 {
      var n := |gs| - 1;
      assert forall i | 0 <= i < n :: gs[..n][i] == gs[i];
      KeepIdxByName(gs[..n], ds, names);
      assert n in ds <==> gs[n].name in names;
      assert FilterOut(gs, names) == FilterOut(gs[..n], names) + (if gs[n].name in names then [] else [gs[n]]);
    }
  }

  lemma PositionsMembership(gs: seq<Group>, names: seq<string>, i: nat)
    requires DistinctNames(gs) && i < |gs|
    ensures i in Positions(gs, names) <==> gs[i].name in names
  {
    PositionsMembershipPrefix(gs, names, i);
  }

  lemma {:induction false} PositionsMembershipPrefix(gs: seq<Group>, names: seq<string>, i: nat)
    requires DistinctNames(gs) && i < |gs|
    ensures i in Positions(gs, names) <==> gs[i].name in names
  {
    if |names| > 0 {
      var n := |names| - 1;
      PositionsMembershipPrefix(gs, names[..n], i);
      assert names == names[..n] + [names[n]];
      var ns := Names(gs);
      match IndexOf(ns, names[n])
      case Some(j) =>
        assert ns[j] == gs[j].name == names[n];
        assert i < j ==> gs[i].name != gs[j].name;
        assert j < i ==> gs[j].name != gs[i].name;
      case None =>
        assert gs[i].name != names[n] by { assert ns[i] == gs[i].name; }
    }
  }

  lemma ReverseIncreasing(s: seq<nat>)
    requires Increasing(s)
    ensures Decreasing(Reverse(s))
  {
  }

  /** When the registry's names are distinct and the requested names that
      are present come in registry order, `remove_groups` removes exactly the
      named groups and keeps the rest in order. */
  lemma RemoveInOrder(gs: seq<Group>, names: seq<string>)
    requires DistinctNames(gs)
    requires Increasing(Positions(gs, names))
    ensures Removed(gs, names) == (FilterOut(gs, names), true)
  {
    var ps := Positions(gs, names);
    var ds := Reverse(ps);
    ReverseIncreasing(ps);
    DeleteDecreasing(gs, ds);
    forall i | 0 <= i < |gs| ensures i in ds <==> gs[i].name in names {
      PositionsMembership(gs, names, i);
      assert i in ps <==> i in ds by {
        if i in ps {
          var k :| 0 <= k < |ps| && ps[k] == i;
          assert ds[|ps| - 1 - k] == i;
        }
      }
    }
    KeepIdxByName(gs, ds, names);
  }

  /** The requested names that are in the registry, in request order. */
  function PresentNames(gs: seq<Group>, names: seq<string>): (r: seq<string>)
    ensures forall x :: x in r <==> x in names && x in Names(gs)
  {
    if |names| == 0 then []
    else
      var n := |names| - 1;
      assert names == names[..n] + [names[n]];
      PresentNames(gs, names[..n]) + (if names[n] in Names(gs) then [names[n]] else [])
  }

  /** Absent names contribute no position. */
  lemma {:induction false} PositionsIgnoreAbsent(gs: seq<Group>, names: seq<string>)
    ensures Positions(gs, names) == Positions(gs, PresentNames(gs, names))
  {
    if |names| > 0 {
      var n := |names| - 1;
      var last, p := names[n], PresentNames(gs, names[..n]);
      PositionsIgnoreAbsent(gs, names[..n]);
      var tail := match IndexOf(Names(gs), last) case Some(i) => [i] case None => [];
      assert Positions(gs, names) == Positions(gs, names[..n]) + tail;
      if last in Names(gs) {
        var q := p + [last];
        assert PresentNames(gs, names) == q;
        assert q[..|q| - 1] == p && q[|q| - 1] == last;
        assert Positions(gs, q) == Positions(gs, p) + tail;
      } else {
        assert tail == [];
        assert PresentNames(gs, names) == p;
      }
    }
  }

  /** `remove_groups` ignores the requested names that are absent, wherever
      they come in the request: the outcome is that of the present names
      alone, so a request of absent names only changes nothing. */
  lemma RemoveAbsent(gs: seq<Group>, names: seq<string>)
    ensures Removed(gs, names) == Removed(gs, PresentNames(gs, names))
    ensures (forall k | 0 <= k < |names| :: names[k] !in Names(gs)) ==> Removed(gs, names) == (gs, true)
  {
    PositionsIgnoreAbsent(gs, names);
    if forall k | 0 <= k < |names| :: names[k] !in Names(gs) {
      assert Positions(gs, names) == [] by { PositionsOfAbsent(gs, names); }
    }
  }

  lemma {:induction false} PositionsOfAbsent(gs: seq<Group>, names: seq<string>)
    requires forall k | 0 <= k < |names| :: names[k] !in Names(gs)
    ensures Positions(gs, names) == []
  {
    if |names| > 0 {
      PositionsOfAbsent(gs, names[..|names| - 1]);
    }
  }

  lemma OutOfOrderPositions(gs: seq<Group>)
    requires |gs| == 3 && gs[0].name == "a" && gs[1].name == "b"
    ensures Positions(gs, ["b", "a"]) == [1, 0]
  {
    var ns := Names(gs);
    assert ns[0] == "a" && ns[1] == "b";
    assert IndexOf(ns, "a") == Some(0);
    assert IndexOf(ns, "b") == Some(1) by { assert ns[1..][0] == "b"; }
    assert ["b", "a"][..1] == ["b"] && ["b"][..0] == [];
    var one: seq<nat> := [1];
    assert Positions(gs, ["b"]) == one;
  }

  lemma DeleteFirstThenSecond(gs: seq<Group>)
    requires |gs| == 3
    ensures DeleteEach(gs, [0, 1]) == ([gs[1]], true)
  {
    var left := [gs[1], gs[2]];
    var ds: seq<nat> := [0, 1];
    assert gs[..0] + gs[1..] == left;
    assert left[..1] + left[2..] == [gs[1]];
    var d1: seq<nat> := [1];
    assert ds[1..] == d1 && d1[1..] == [];
    assert DeleteEach(gs, ds) == DeleteEach(left, d1);
    assert DeleteEach(left, d1) == DeleteEach([gs[1]], []);
  }

  lemma OutOfOrderIntended(gs: seq<Group>)
    requires |gs| == 3 && gs[0].name == "a" && gs[1].name == "b" && gs[2].name == "c"
    ensures FilterOut(gs, ["b", "a"]) == [gs[2]]
  {
    assert gs[..2] == [gs[0], gs[1]] && gs[..2][..1] == [gs[0]] && [gs[0]][..0] == [];
    assert FilterOut([gs[0]], ["b", "a"]) == [];
    assert FilterOut([gs[0], gs[1]], ["b", "a"]) == [];
  }

  /** Names given against registry order delete the wrong groups: asking to
      remove b then a from [a, b, c] deletes position 0 and then position 1 of
      what is left, so b survives and c goes. */
  lemma RemoveOutOfOrder()
    ensures var gs := [Group("a", [], true), Group("b", [], true), Group("c", [], true)];
      && Removed(gs, ["b", "a"]) == ([gs[1]], true)
      && FilterOut(gs, ["b", "a"]) == [gs[2]]
  {
    var gs := [Group("a", [], true), Group("b", [], true), Group("c", [], true)];
    OutOfOrderPositions(gs);
    var ps: seq<nat> := [1, 0];
    assert Reverse(ps) == [0, 1];
    DeleteFirstThenSecond(gs);
    OutOfOrderIntended(gs);
  }

  /** A name requested twice deletes a second group, or raises IndexError
      once the list has become too short: from [a, b], removing b twice
      deletes b and then fails, leaving [a]. */
  lemma RemoveTwice()
    ensures var gs := [Group("a", [], true), Group("b", [], true)];
      Removed(gs, ["b", "b"]) == ([gs[0]], false)
  {
    var gs := [Group("a", [], true), Group("b", [], true)];
    var ns := Names(gs);
    assert ns == ["a", "b"];
    assert IndexOf(ns, "b") == Some(1) by { assert ns[1..] == ["b"]; }
    assert ["b", "b"][..1] == ["b"] && ["b"][..0] == [];
    var ps: seq<nat> := [1, 1];
    assert Positions(gs, ["b", "b"]) == ps;
    assert Reverse(ps) == ps;
    assert gs[..1] + gs[2..] == [gs[0]];
    assert [1, 1][1..] == [1];
  }

  predicate NumericIds(t: Grid<string>)
  {
    forall c, k | 0 <= c < |t.columns| && 0 <= k < |t.columns[c].cells| :: !t.columns[c].cells[k].Text?
  }

  /** The ids of a column after `dropna()`, in row order. */
  function IdsOf(cs: seq<Cell>): seq<int>
    requires forall k | 0 <= k < |cs| :: !cs[k].Text?
  {
    if |cs| == 0 then []
    else
      var c := cs[|cs| - 1];
      IdsOf(cs[..|cs| - 1]) + (if c.Empty? then [] else [IntOf(c)])
  }

  /** An id is a member exactly when some non-missing cell holds it. */
  lemma {:induction false} IdsOfMembership(cs: seq<Cell>, x: int)
    requires forall k | 0 <= k < |cs| :: !cs[k].Text?
    ensures x in IdsOf(cs) <==> exists k | 0 <= k < |cs| :: !cs[k].Empty? && IntOf(cs[k]) == x
  {
    if |cs| > 0 {
      var n := |cs| - 1;
      IdsOfMembership(cs[..n], x);
      assert forall k | 0 <= k < n :: cs[..n][k] == cs[k];
    }
  }

  /** The registry `load_groups` builds from a groups sheet: one selected
      group per column, named after it. */
  function Loaded(t: Grid<string>): (gs: seq<Group>)
    requires NumericIds(t)
    ensures |gs| == |t.columns|
  {
    seq(|t.columns|, c requires 0 <= c < |t.columns| => Group(t.columns[c].key, IdsOf(t.columns[c].cells), true))
  }

  /** Each loaded group is named after its column, is selected, and has as
      members exactly the ids of that column's non-missing cells. */
  lemma LoadedGroups(t: Grid<string>, c: nat, x: int)
    requires NumericIds(t) && c < |t.columns|
    ensures var g := Loaded(t)[c];
      && g.name == t.columns[c].key && g.selected
      && (x in g.members <==> exists k | 0 <= k < |t.columns[c].cells| :: !t.columns[c].cells[k].Empty? && IntOf(t.columns[c].cells[k]) == x)
  {
    IdsOfMembership(t.columns[c].cells, x);
  }

  /** `extract_property_filter` when both header levels are read. */
  const MouseKey: (string, string) := ("Unnamed: 0_level_0", "Souris")

  /** `df[mouse column].isin(mouses)`. */
  function MouseMask(cells: seq<Cell>, mice: seq<int>): (f: seq<bool>)
    ensures |f| == |cells| && forall row | 0 <= row < |cells| :: f[row] == IsInInts(cells[row], mice)
  {
    seq(|cells|, row requires 0 <= row < |cells| => IsInInts(cells[row], mice))
  }

  /** `fylter & df[zone column].isin(zones)`. */
  function Narrowed(f: seq<bool>, cells: seq<Cell>, zones: seq<string>): (g: seq<bool>)
    requires |cells| == |f|
    ensures |g| == |f| && forall row | 0 <= row < |f| :: g[row] == (f[row] && IsInTexts(cells[row], zones))
  {
    seq(|f|, row requires 0 <= row < |f| => f[row] && IsInTexts(cells[row], zones))
  }

  /** The filter `extract_property_filter` returns, or the KeyError of a
      missing column, defined day by day as the source narrows the mask. */
  function PropertyFilter(df: Grid<(string, string)>, mice: seq<int>, zones: seq<string>, days: seq<string>): (r: Result<seq<bool>, AveragesError>)
    requires df.Valid()
    ensures r.Failure? ==> r.error == MissingColumn
    ensures r.Success? ==> |r.value| == df.height
  {
    if |days| == 0 then
      match FindKey(df.columns, MouseKey)
      case None => Failure(MissingColumn)
      case Some(m) => Success(MouseMask(df.columns[m].cells, mice))
    else
      var prev :- PropertyFilter(df, mice, zones, days[..|days| - 1]);
      match FindKey(df.columns, (days[|days| - 1], "Zone"))
      case None => Failure(MissingColumn)
      case Some(z) => Success(Narrowed(prev, df.columns[z].cells, zones))
  }

  /** The filter exists exactly when the mouse column and every day's zone
      column do. */
  lemma {:induction false} PropertyFilterExists(df: Grid<(string, string)>, mice: seq<int>, zones: seq<string>, days: seq<string>)
    requires df.Valid()
    ensures PropertyFilter(df, mice, zones, days).Success?
      <==> FindKey(df.columns, MouseKey).Some? && forall d | 0 <= d < |days| :: FindKey(df.columns, (days[d], "Zone")).Some?
  {
    if |days| > 0 {
      var n := |days| - 1;
      PropertyFilterExists(df, mice, zones, days[..n]);
      assert forall d | 0 <= d < n :: days[..n][d] == days[d];
    }
  }

  /** Whether the zone of `row` on `day` is one of `zones`. */
  predicate ZoneIn(df: Grid<(string, string)>, day: string, zones: seq<string>, row: nat)
    requires df.Valid() && row < df.height
  {
    match FindKey(df.columns, (day, "Zone"))
    case None => false
    case Some(z) => IsInTexts(df.columns[z].cells[row], zones)
  }

  /** A row passes the filter when its mouse is one of `mice` and its zone
      lies in `zones` on every one of `days`. */
  lemma {:induction false} PropertyFilterRow(df: Grid<(string, string)>, mice: seq<int>, zones: seq<string>, days: seq<string>, row: nat)
    requires df.Valid() && row < df.height
    requires PropertyFilter(df, mice, zones, days).Success?
    ensures FindKey(df.columns, MouseKey).Some?
    ensures PropertyFilter(df, mice, zones, days).value[row]
      == (IsInInts(df.columns[FindKey(df.columns, MouseKey).value].cells[row], mice)
          && forall d | 0 <= d < |days| :: ZoneIn(df, days[d], zones, row))
  {
    if |days| > 0 {
      var n := |days| - 1;
      PropertyFilterRow(df, mice, zones, days[..n], row);
      var prev := PropertyFilter(df, mice, zones, days[..n]).value;
      var cells := df.columns[FindKey(df.columns, (days[n], "Zone")).value].cells;
      assert PropertyFilter(df, mice, zones, days).value[row] == (prev[row] && IsInTexts(cells[row], zones));
      assert forall d | 0 <= d < n :: days[..n][d] == days[d];
    }
  }

  /** `extract_property_filter(df, prop, mouses, zones, days)`: the mouse
      test, then one `&=` per day. The property is not used. */
  method ExtractPropertyFilter(df: Grid<(string, string)>, prop: string, mice: seq<int>, zones: seq<string>, days: seq<string>)
    returns (r: Result<seq<bool>, AveragesError>)
    requires df.Valid()
    ensures r == PropertyFilter(df, mice, zones, days)
  {
    var m := FindKey(df.columns, MouseKey);
    if m.None? {
      PropertyFilterExists(df, mice, zones, days);
      return Failure(MissingColumn);
    }
    var mouseCells := df.columns[m.value].cells;
    var fylter := MouseMask(mouseCells, mice);
    assert days[..0] == [];
    var d := 0;
    while d < |days|
      invariant 0 <= d <= |days|
      invariant PropertyFilter(df, mice, zones, days[..d]) == Success(fylter)
    {
      assert days[..d + 1][..d] == days[..d];
      var z := FindKey(df.columns, (days[d], "Zone"));
      if z.None? {
        PropertyFilterExists(df, mice, zones, days);
        return Failure(MissingColumn);
      }
      var cells := df.columns[z.value].cells;
      fylter := Narrowed(fylter, cells, zones);
      d := d + 1;
    }
    assert days[..d] == days;
    r := Success(fylter);
  }

  // ---------------------------------------------------------------------
  // compute_averages, step by step

  /** The averaged columns of one group, built zone set by zone set; at
      lines 117-125 the zone sets are `TargetZones`. */
  method TargetColumns(inp: Inputs, members: seq<int>, zss: seq<seq<string>>) returns (r: Result<seq<Averaged>, AveragesError>)
    requires inp.Valid()
    ensures r == ZoneColumns(inp, members, zss)
  {
    ghost var ms := ZoneMeans(inp, members, zss);
    var cols: seq<Averaged> := [];
    var z := 0;
    while z < |zss|
      invariant 0 <= z <= |zss|
      invariant Gathered(zss[..z], ms[..z]) == Success(cols)
    {
      var zs := zss[z];
      var f := ZoneFilter(inp.mice, inp.zones, members, zs);
      var means := Means(inp, Rows(f));
      assert ms[z] == means;
      assert zss[..z + 1][..z] == zss[..z] && ms[..z + 1][..z] == ms[..z];
      if means.Failure? {
        GatheredSucceeds(zss, ms);
        return Failure(NotNumeric);
      }
      cols := cols + [Averaged(ZonesName(zs), means.value)];
      z := z + 1;
    }
    assert zss[..z] == zss && ms[..z] == ms;
    return Success(cols);
  }

  /** The loop at lines 89-99: the all-E rows of every selected group,
      concatenated in registry order. */
  method FoldedRows(inp: Inputs, groups: seq<Group>) returns (rows: seq<nat>)
    requires inp.Valid()
    ensures rows == Folded(inp, groups)
  {
    rows := [];
    var i := 0;
    while i < |groups|
      invariant 0 <= i <= |groups|
      invariant rows == Folded(inp, groups[..i])
    {
      if groups[i].selected {
        var f := ZoneFilter(inp.mice, inp.zones, groups[i].members, ZoneE);
        rows := rows + Rows(f);
      }
      assert groups[..i + 1][..i] == groups[..i];
      i := i + 1;
    }
    assert groups[..i] == groups;
  }

  /** The loop at lines 108-127: one entry per selected group other than
      the control, added to the dictionary that holds the control's. */
  method TargetEntries(inp: Inputs, groups: seq<Group>, control: nat, first: Averages) returns (r: Result<Averages, AveragesError>)
    requires inp.Valid()
    ensures r == Targets(inp, groups, control, |groups|, first)
  {
    r := Success(first);
    var i := 0;
    while i < |groups|
      invariant 0 <= i <= |groups|
      invariant Targets(inp, groups, control, i, first) == r
    {
      var g := groups[i];
      if r.Success? && i != control && g.selected {
        var cols := TargetColumns(inp, g.members, TargetZones);
        if cols.Failure? {
          r := Failure(NotNumeric);
        } else {
          r := Success(Put(r.value, g.name, Frame(DayLabels(|inp.values|), cols.value)));
        }
      } else if r.Success? {
        assert Targets(inp, groups, control, i + 1, first) == r;
      }
      i := i + 1;
    }
  }

  // ---------------------------------------------------------------------
  // The model object

  /** One checkbox state, as Qt passes it to `setData`. */
  datatype CheckState = Unchecked | PartiallyChecked | Checked

  /** What `setData` returns: an empty QVariant for an invalid index, the
      boolean of a handled or refused role, or the IndexError of a row past
      the end of the list. */
  datatype SetDataResult = NoVariant | Handled(accepted: bool) | RowOutOfRange

  class GroupsModel {
    /** The normalised data frame of the spreadsheet the groups belong to. */
    const frame: Grid<string>
    var groups: seq<Group>
    /** The control group's position; -1 until one is chosen. */
    var control: int

    predicate Valid()
    {
      frame.Valid()
    }

    constructor (frame: Grid<string>)
      requires frame.Valid()
      ensures Valid() && this.frame == frame && groups == [] && control == -1
    {
      this.frame := frame;
      groups := [];
      control := -1;
    }

    method AddGroup(name: string)
      modifies this
      ensures groups == Added(old(groups), name) && control == old(control)
    {
      var groupNames := Names(groups);
      if name in groupNames {
        return;
      }
      groups := groups + [Group(name, [], true)];
    }

    /** `remove_groups(names)`; the result is false when the deletion loop
        stopped on an IndexError. The control index is never adjusted. */
    method RemoveGroups(names: seq<string>) returns (completed: bool)
      modifies this
      ensures (groups, completed) == Removed(old(groups), names)
      ensures control == old(control)
    {
      var indexes: seq<nat> := [];
      var groupNames := Names(groups);
      var k := 0;
      while k < |names|
        invariant 0 <= k <= |names|
        invariant indexes == Positions(groups, names[..k])
      {
        match IndexOf(groupNames, names[k]) {
          case Some(i) => indexes := indexes + [i];
          case None =>
        }
        assert names[..k + 1][..k] == names[..k];
        k := k + 1;
      }
      assert names[..k] == names;
      indexes := Reverse(indexes);
      var j := 0;
      while j < |indexes|
        invariant 0 <= j <= |indexes|
        invariant DeleteEach(groups, indexes[j..]) == Removed(old(groups), names)
        invariant control == old(control)
      {
        var idx := indexes[j];
        assert indexes[j..][1..] == indexes[j + 1..];
        if idx >= |groups| {
          return false;
        }
        groups := groups[..idx] + groups[idx + 1..];
        j := j + 1;
      }
      return true;
    }

    /** Removal as `remove_groups` is meant to behave: every group whose name
        is requested goes, whatever the order or repetition of the names,
        and the others keep their order. */
    method RemoveNamed(names: seq<string>)
      modifies this
      ensures groups == FilterOut(old(groups), names)
      ensures control == old(control)
    {
      var kept: seq<Group> := [];
      var i := 0;
      while i < |groups|
        invariant 0 <= i <= |groups|
        invariant kept == FilterOut(groups[..i], names)
      {
        if groups[i].name !in names {
          kept := kept + [groups[i]];
        }
        assert groups[..i + 1][..i] == groups[..i];
        i := i + 1;
      }
      assert groups[..i] == groups;
      groups := kept;
    }

    method Reset()
      modifies this
      ensures groups == [] && control == old(control)
    {
      groups := [];
    }

    method Clear()
      modifies this
      ensures groups == [] && control == old(control)
    {
      Reset();
    }

    /** `load_groups(t)`: one group per column of the groups sheet. */
    method LoadGroups(t: Grid<string>)
      requires NumericIds(t)
      modifies this
      ensures groups == Loaded(t) && control == old(control)
    {
      groups := [];
      var c := 0;
      while c < |t.columns|
        invariant 0 <= c <= |t.columns|
        invariant groups == Loaded(t)[..c]
        invariant control == old(control)
      {
        var cells := t.columns[c].cells;
        var samples: seq<int> := [];
        var k := 0;
        while k < |cells|
          invariant 0 <= k <= |cells|
          invariant samples == IdsOf(cells[..k])
        {
          if !cells[k].Empty? {
            samples := samples + [IntOf(cells[k])];
          }
          assert cells[..k + 1][..k] == cells[..k];
          k := k + 1;
        }
        assert cells[..k] == cells;
        groups := groups + [Group(t.columns[c].key, samples, true)];
        c := c + 1;
      }
    }

    /** The `group_control` setter: out-of-range positions are ignored. */
    method SetControl(index: int)
      modifies this
      ensures 0 <= index < |old(groups)| ==> control == index
      ensures !(0 <= index < |old(groups)|) ==> control == old(control)
      ensures groups == old(groups)
    {
      if index < 0 || index >= |groups| {
        return;
      }
      control := index;
    }

    /** `is_selected(index)`: false out of range, the group's flag in range. */
    function IsSelected(index: int): (b: bool)
      reads this
      ensures !(0 <= index < |groups|) ==> !b
      ensures 0 <= index < |groups| ==> b == groups[index].selected
    {
      if index < 0 || index >= |groups| then false else groups[index].selected
    }

    /** `setData` with the check-state role sets that row's flag to whether
        the box is checked; other roles go to the base class, which refuses. */
    method SetData(index: ModelIndex, value: CheckState, role: Role) returns (r: SetDataResult)
      modifies this
      ensures control == old(control)
      ensures index.InvalidIndex? ==> r == NoVariant && groups == old(groups)
      ensures index.At? && role != CheckStateRole ==> r == Handled(false) && groups == old(groups)
      ensures index.At? && role == CheckStateRole && index.row >= |old(groups)| ==> r == RowOutOfRange && groups == old(groups)
      ensures index.At? && role == CheckStateRole && index.row < |old(groups)| ==>
        && r == Handled(true)
        && |groups| == |old(groups)|
        && IsSelected(index.row) == (value == Checked)
        && groups[index.row].name == old(groups)[index.row].name
        && groups[index.row].members == old(groups)[index.row].members
        && forall i | 0 <= i < |groups| && i != index.row :: groups[i] == old(groups)[i]
    {
      if index.InvalidIndex? {
        return NoVariant;
      }
      var row := index.row;
      if role == CheckStateRole {
        if row >= |groups| {
          return RowOutOfRange;
        }
        groups := groups[row := groups[row].(selected := value == Checked)];
        return Handled(true);
      }
      return Handled(false);
    }

    /** `compute_averages(prop)`: the control's baseline, the fold over the
        selected groups' zone-E rows, then one entry per target group. */
    method ComputeAverages(prop: string) returns (r: Result<Averages, AveragesError>)
      requires Valid()
      ensures r == AveragesOf(frame, groups, control, prop)
    {
      if control < 0 || control >= |groups| {
        return Failure(InvalidControl);
      }
      var resolved := Resolve(frame, prop);
      if resolved.Failure? {
        return Failure(MissingColumn);
      }
      var inp := resolved.value;
      var ctrl := groups[control];
      var fylter := ZoneFilter(inp.mice, inp.zones, ctrl.members, AllZones);
      var witnessRows := FoldedRows(inp, groups);
      witnessRows := Rows(fylter) + witnessRows;
      var means := Means(inp, witnessRows);
      if means.Failure? {
        return Failure(NotNumeric);
      }
      var first := [(ctrl.name, Frame(DayLabels(NDays(frame)), [Averaged("ABCDE", means.value)]))];
      r := TargetEntries(inp, groups, control, first);
    }
  }
}
