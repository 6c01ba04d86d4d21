/** The row selection and averaging of `groups_model.py`: which rows of the
    data frame `compute_averages` keeps for each group, and the per-day means
    it reports, as functions of the table, the groups and the control index. */
module Averages {
  import opened Tables

  /** One entry of the group registry, the source's `[name, model, selected]`
      triple, with the group's mouse ids in place of its list model. */
  datatype Group = Group(name: string, members: seq<int>, selected: bool)

  /** Why `compute_averages` produces no result: an out-of-range control
      index (the source logs it and returns None), a column the table lacks
      (KeyError) or a string reaching a mean (TypeError). */
  datatype AveragesError = InvalidControl | MissingColumn | NotNumeric

  /** One averaged column: its zone-set name and one mean per day, `None`
      standing for NaN. */
  datatype Averaged = Averaged(name: string, means: seq<Option<real>>)

  /** A data frame of averages indexed by day label. */
  datatype Frame = Frame(index: seq<string>, columns: seq<Averaged>)

  /** The ordered dictionary `compute_averages` returns. */
  type Averages = seq<(string, Frame)>

  const AllZones: seq<string> := ["A", "B", "C", "D", "E"]
  const ZoneE: seq<string> := ["E"]
  const TargetZones: seq<seq<string>> := [["A", "B", "C", "D"], ["A", "B"], ["C", "D"]]

  /** `''.join(zones)`: the name of the column averaged over those zones. */
  function ZonesName(zs: seq<string>): string
  {
    if |zs| == 0 then "" else ZonesName(zs[..|zs| - 1]) + zs[|zs| - 1]
  }

  // ---------------------------------------------------------------------
  // The columns compute_averages reads

  /** n_days: every day takes seven columns after the mouse column. */
  function NDays(t: Grid<string>): nat
  {
    if |t.columns| == 0 then 0 else (|t.columns| - 1) / 7
  }

  function DayLabel(d: nat): string
  {
    "J" + NatToString(d)
  }

  function DayLabels(n: nat): seq<string>
  {
    seq(n, d requires 0 <= d < n => DayLabel(d))
  }

  function ZoneColumnName(d: nat): string
  {
    DayLabel(d) + "-Zone"
  }

  function PropertyColumnName(d: nat, prop: string): string
  {
    DayLabel(d) + "-" + prop
  }

  /** The columns a computation reads: the mouse ids, and per day the zone
      labels and the values of the selected property. */
  datatype Inputs = Inputs(mice: seq<Cell>, zones: seq<seq<Cell>>, values: seq<seq<Cell>>) {
    predicate Valid()
    {
      && |zones| == |values|
      && (forall d | 0 <= d < |zones| :: |zones[d]| == |mice|)
      && (forall d | 0 <= d < |values| :: |values[d]| == |mice|)
    }
  }

  predicate HasColumns(t: Grid<string>, prop: string)
  {
    && FindKey(t.columns, "Souris").Some?
    && forall d | 0 <= d < NDays(t) ::
         FindKey(t.columns, ZoneColumnName(d)).Some? && FindKey(t.columns, PropertyColumnName(d, prop)).Some?
  }

  /** Looks up the columns `Souris`, `J<d>-Zone` and `J<d>-<prop>`. */
  function Resolve(t: Grid<string>, prop: string): (r: Result<Inputs, AveragesError>)
    requires t.Valid()
    ensures r.Success? <==> HasColumns(t, prop)
    ensures r.Failure? ==> r.error == MissingColumn
    ensures r.Success? ==> r.value.Valid() && |r.value.mice| == t.height && |r.value.zones| == NDays(t)
  {
    if !HasColumns(t, prop) then Failure(MissingColumn)
    else
      var n := NDays(t);
      Success(Inputs(
        t.columns[FindKey(t.columns, "Souris").value].cells,
        seq(n, d requires 0 <= d < n => t.columns[FindKey(t.columns, ZoneColumnName(d)).value].cells),
        seq(n, d requires 0 <= d < n => t.columns[FindKey(t.columns, PropertyColumnName(d, prop)).value].cells)))
  }

  // ---------------------------------------------------------------------
  // Row filters

  /** A row is kept when its mouse is one of `members` and its zone label
      lies in `zs` on every day. */
  predicate Keeps(mice: seq<Cell>, zones: seq<seq<Cell>>, members: seq<int>, zs: seq<string>, r: nat)
    requires r < |mice|
    requires forall d | 0 <= d < |zones| :: |zones[d]| == |mice|
  {
    IsInInts(mice[r], members) && forall d | 0 <= d < |zones| :: IsInTexts(zones[d][r], zs)
  }

  /** The boolean mask `fylter`, one flag per row. */
  function RowFilter(mice: seq<Cell>, zones: seq<seq<Cell>>, members: seq<int>, zs: seq<string>): (f: seq<bool>)
    requires forall d | 0 <= d < |zones| :: |zones[d]| == |mice|
    ensures |f| == |mice|
  {
    seq(|mice|, r requires 0 <= r < |mice| => Keeps(mice, zones, members, zs, r))
  }

  /** Builds the mask the way the source does: membership first, then one
      conjunction per day (`fylter &= df[zone].isin(zones)`). */
  method ZoneFilter(mice: seq<Cell>, zones: seq<seq<Cell>>, members: seq<int>, zs: seq<string>) returns (f: seq<bool>)
    requires forall d | 0 <= d < |zones| :: |zones[d]| == |mice|
    ensures f == RowFilter(mice, zones, members, zs)
  {
    f := seq(|mice|, r requires 0 <= r < |mice| => IsInInts(mice[r], members));
    var d := 0;
    while d < |zones|
      invariant 0 <= d <= |zones|
      invariant |f| == |mice|
      invariant forall r | 0 <= r < |mice| ::
        f[r] == (IsInInts(mice[r], members) && forall e | 0 <= e < d :: IsInTexts(zones[e][r], zs))
    {
      f := seq(|mice|, r requires 0 <= r < |mice| => f[r] && IsInTexts(zones[d][r], zs));
      d := d + 1;
    }
  }

  /** A row kept for a zone set is kept for every larger zone set. */
  lemma KeepsMonotone(mice: seq<Cell>, zones: seq<seq<Cell>>, members: seq<int>, zs: seq<string>, zs': seq<string>, r: nat)
    requires r < |mice|
    requires forall d | 0 <= d < |zones| :: |zones[d]| == |mice|
    requires forall z | z in zs :: z in zs'
    requires Keeps(mice, zones, members, zs, r)
    ensures Keeps(mice, zones, members, zs', r)
  {
  }

  /** The positions of the rows a mask keeps, in order (`df[fylter]`). */
  function Rows(f: seq<bool>): (rows: seq<nat>)
    ensures forall k | 0 <= k < |rows| :: rows[k] < |f|
  {
    if |f| == 0 then [] else Rows(f[..|f| - 1]) + (if f[|f| - 1] then [|f| - 1] else [])
  }

  /** Each row the mask keeps appears exactly once, every other row never. */
  lemma {:induction false} RowsCount(f: seq<bool>, r: nat)
    ensures Count(Rows(f), r) == if r < |f| && f[r] then 1 else 0
  {
    if |f| > 0 {
      var n := |f| - 1;
      var tail: seq<nat> := if f[n] then [n] else [];
      RowsCount(f[..n], r);
      CountConcat(Rows(f[..n]), tail, r);
      assert Rows(f) == Rows(f[..n]) + tail;
      assert [n][..0] == [];
      assert Count(tail, r) == if f[n] && r == n then 1 else 0;
      assert |f[..n]| == n;
      if r < n {
        assert f[..n][r] == f[r];
      }
    }
  }

  /** The cells of one column at the given rows. */
  function CellsAt(col: seq<Cell>, rows: seq<nat>): (cs: seq<Cell>)
    requires forall k | 0 <= k < |rows| :: rows[k] < |col|
    ensures |cs| == |rows|
  {
    seq(|rows|, k requires 0 <= k < |rows| => col[rows[k]])
  }

  // ---------------------------------------------------------------------
  // Means

  /** `df[rows][properties].apply(np.nanmean, axis=0)`: one mean per day. */
  function Means(inp: Inputs, rows: seq<nat>): (r: Result<seq<Option<real>>, AveragesError>)
    requires inp.Valid()
    requires forall k | 0 <= k < |rows| :: rows[k] < |inp.mice|
    ensures r.Failure? <==> exists d | 0 <= d < |inp.values| :: NanMean(CellsAt(inp.values[d], rows)).TypeError?
    ensures r.Failure? ==> r.error == NotNumeric
    ensures r.Success? ==> |r.value| == |inp.values|
  {
    var n := |inp.values|;
    if exists d | 0 <= d < n :: NanMean(CellsAt(inp.values[d], rows)).TypeError? then Failure(NotNumeric)
    else Success(seq(n, d requires 0 <= d < n => NanMean(CellsAt(inp.values[d], rows)).value))
  }

  /** The rows of every selected group whose zone is E on every day, in
      registry order (the loop at lines 89-99 of the source). */
  function Folded(inp: Inputs, groups: seq<Group>): (rows: seq<nat>)
    requires inp.Valid()
    ensures forall k | 0 <= k < |rows| :: rows[k] < |inp.mice|
  {
    if |groups| == 0 then []
    else
      var g := groups[|groups| - 1];
      Folded(inp, groups[..|groups| - 1])
        + (if g.selected then Rows(RowFilter(inp.mice, inp.zones, g.members, ZoneE)) else [])
  }

  /** The rows behind the control's `ABCDE` column. */
  function Witness(inp: Inputs, groups: seq<Group>, control: nat): (rows: seq<nat>)
    requires inp.Valid() && control < |groups|
    ensures forall k | 0 <= k < |rows| :: rows[k] < |inp.mice|
  {
    Rows(RowFilter(inp.mice, inp.zones, groups[control].members, AllZones)) + Folded(inp, groups)
  }

  /** `OrderedDict.__setitem__`: a new key goes last, an existing key keeps
      its place and takes the new value. */
  function Put(d: Averages, k: string, v: Frame): (r: Averages)
    ensures |r| == if k in KeysOfDict(d) then |d| else |d| + 1
  {
    match IndexOf(KeysOfDict(d), k)
    case Some(i) => d[i := (k, v)]
    case None => d + [(k, v)]
  }

  function KeysOfDict(d: Averages): (ks: seq<string>)
    ensures |ks| == |d| && forall i | 0 <= i < |d| :: ks[i] == d[i].0
  {
    seq(|d|, i requires 0 <= i < |d| => d[i].0)
  }

  /** The per-day means of a group's rows whose zone lies in `zs` on every
      day (lines 119-125 of the source). */
  function ColumnMeans(inp: Inputs, members: seq<int>, zs: seq<string>): (r: Result<seq<Option<real>>, AveragesError>)
    requires inp.Valid()
  {
    Means(inp, Rows(RowFilter(inp.mice, inp.zones, members, zs)))
  }

  /** The means of each zone set, in order. */
  function ZoneMeans(inp: Inputs, members: seq<int>, zss: seq<seq<string>>): (ms: seq<Result<seq<Option<real>>, AveragesError>>)
    requires inp.Valid()
  {
    seq(|zss|, z requires 0 <= z < |zss| => ColumnMeans(inp, members, zss[z]))
  }

  /** The loop over the zone sets: one column per zone set, named after it
      and holding its means, until a zone set whose means fail. */
  function Gathered(zss: seq<seq<string>>, ms: seq<Result<seq<Option<real>>, AveragesError>>): (r: Result<seq<Averaged>, AveragesError>)
    requires |ms| == |zss|
    ensures r.Failure? ==> r.error == NotNumeric
    ensures r.Success? ==> |r.value| == |zss|
  {
    if |zss| == 0 then Success([])
    else
      var n := |zss| - 1;
      var prev :- Gathered(zss[..n], ms[..n]);
      if ms[n].Failure? then Failure(NotNumeric)
      else Success(prev + [Averaged(ZonesName(zss[n]), ms[n].value)])
  }

  /** The averaged columns of a target group, one per zone set. */
  function ZoneColumns(inp: Inputs, members: seq<int>, zss: seq<seq<string>>): (r: Result<seq<Averaged>, AveragesError>)
    requires inp.Valid()
  {
    Gathered(zss, ZoneMeans(inp, members, zss))
  }

  /** The loop succeeds exactly when every zone set's means do. */
  lemma {:induction false} GatheredSucceeds(zss: seq<seq<string>>, ms: seq<Result<seq<Option<real>>, AveragesError>>)
    requires |ms| == |zss|
    ensures Gathered(zss, ms).Success? <==> forall z | 0 <= z < |ms| :: ms[z].Success?
  {
    if |zss| > 0 {
      var n := |zss| - 1;
      GatheredSucceeds(zss[..n], ms[..n]);
      assert forall z | 0 <= z < n :: ms[..n][z] == ms[z];
    }
  }

  /** The z-th column is named after the z-th zone set and holds its means. */
  lemma {:induction false} GatheredValue(zss: seq<seq<string>>, ms: seq<Result<seq<Option<real>>, AveragesError>>, z: nat)
    requires |ms| == |zss| && z < |zss|
    requires Gathered(zss, ms).Success?
    ensures ms[z].Success?
    ensures Gathered(zss, ms).value[z] == Averaged(ZonesName(zss[z]), ms[z].value)
  {
    var n := |zss| - 1;
    if z < n {
      GatheredValue(zss[..n], ms[..n], z);
      assert zss[..n][z] == zss[z] && ms[..n][z] == ms[z];
    }
  }

  /** The columns succeed exactly when every zone set's means do. */
  lemma ZoneColumnsSucceed(inp: Inputs, members: seq<int>, zss: seq<seq<string>>)
    requires inp.Valid()
    ensures ZoneColumns(inp, members, zss).Failure? ==> ZoneColumns(inp, members, zss).error == NotNumeric
    ensures ZoneColumns(inp, members, zss).Success? <==> forall z | 0 <= z < |zss| :: ColumnMeans(inp, members, zss[z]).Success?
  {
    var ms := ZoneMeans(inp, members, zss);
    GatheredSucceeds(zss, ms);
    assert forall z | 0 <= z < |zss| :: ms[z] == ColumnMeans(inp, members, zss[z]);
  }

  /** The z-th column is named after the z-th zone set and holds its means. */
  lemma ZoneColumnsValues(inp: Inputs, members: seq<int>, zss: seq<seq<string>>, z: nat)
    requires inp.Valid() && z < |zss|
    requires ZoneColumns(inp, members, zss).Success?
    ensures |ZoneColumns(inp, members, zss).value| == |zss|
    ensures ColumnMeans(inp, members, zss[z]).Success?
    ensures ZoneColumns(inp, members, zss).value[z] == Averaged(ZonesName(zss[z]), ColumnMeans(inp, members, zss[z]).value)
  {
    GatheredValue(zss, ZoneMeans(inp, members, zss), z);
  }

  /** Both halves together: success exactly when every zone set's means
      succeed, and then the z-th column belongs to the z-th zone set. */
  lemma ZoneColumnsMeaning(inp: Inputs, members: seq<int>, zss: seq<seq<string>>)
    requires inp.Valid()
    ensures var r := ZoneColumns(inp, members, zss);
      && (r.Success? <==> forall z | 0 <= z < |zss| :: ColumnMeans(inp, members, zss[z]).Success?)
      && (r.Success? ==> forall z | 0 <= z < |zss| :: r.value[z] == Averaged(ZonesName(zss[z]), ColumnMeans(inp, members, zss[z]).value))
  {
    ZoneColumnsSucceed(inp, members, zss);
    if ZoneColumns(inp, members, zss).Success? {
      forall z | 0 <= z < |zss|
        ensures ZoneColumns(inp, members, zss).value[z] == Averaged(ZonesName(zss[z]), ColumnMeans(inp, members, zss[z]).value)
      {
        ZoneColumnsValues(inp, members, zss, z);
      }
    }
  }

  /** The dictionary after the loop over the first `k` groups at lines
      108-127 of the source, starting from `d`. */
  function Targets(inp: Inputs, groups: seq<Group>, control: nat, k: nat, d: Averages): (r: Result<Averages, AveragesError>)
    requires inp.Valid() && k <= |groups|
    ensures r.Failure? ==> r.error == NotNumeric
  {
    if k == 0 then Success(d)
    else
      var prev :- Targets(inp, groups, control, k - 1, d);
      var g := groups[k - 1];
      if k - 1 == control || !g.selected then Success(prev)
      else
        var cols :- ZoneColumns(inp, g.members, TargetZones);
        Success(Put(prev, g.name, Frame(DayLabels(|inp.values|), cols)))
  }

  /** The whole of `compute_averages(prop)` on a table, a registry and a
      control index. */
  function AveragesOf(t: Grid<string>, groups: seq<Group>, control: int, prop: string): (r: Result<Averages, AveragesError>)
    requires t.Valid()
    ensures (r.Failure? && r.error == InvalidControl) <==> control < 0 || control >= |groups|
  {
    if control < 0 || control >= |groups| then Failure(InvalidControl)
    else
      var inp :- Resolve(t, prop);
      var means :- Means(inp, Witness(inp, groups, control));
      var first := [(groups[control].name, Frame(DayLabels(NDays(t)), [Averaged("ABCDE", means)]))];
      Targets(inp, groups, control, |groups|, first)
  }

  // ---------------------------------------------------------------------
  // What compute_averages promises

  /** Group names are pairwise distinct, as `add_group` keeps them. */
  predicate DistinctNames(groups: seq<Group>)
  {
    forall i, j | 0 <= i < j < |groups| :: groups[i].name != groups[j].name
  }

  /** The registry positions below `k` that get a target entry: selected
      groups other than the control, in registry order. */
  function TargetIndices(groups: seq<Group>, control: nat, k: nat): (ti: seq<nat>)
    requires k <= |groups|
    ensures forall j | 0 <= j < |ti| :: ti[j] < k
    ensures forall j, j' | 0 <= j < j' < |ti| :: ti[j] < ti[j']
    ensures forall i :: i in ti <==> 0 <= i < k && i != control && groups[i].selected
  {
    if k == 0 then []
    else
      var prev := TargetIndices(groups, control, k - 1);
      var ti := prev + (if k - 1 != control && groups[k - 1].selected then [k - 1] else []);
      assert forall j | 0 <= j < |prev| :: ti[j] == prev[j];
      ti
  }

  /** The entry `compute_averages` makes for a target group. */
  function TargetEntry(inp: Inputs, g: Group): (string, Frame)
    requires inp.Valid()
    requires ZoneColumns(inp, g.members, TargetZones).Success?
  {
    (g.name, Frame(DayLabels(|inp.values|), ZoneColumns(inp, g.members, TargetZones).value))
  }

  /** `r` holds, after its first entry, one target entry per position in `ti`. */
  predicate EntriesMatch(inp: Inputs, groups: seq<Group>, ti: seq<nat>, r: Averages)
    requires inp.Valid() && forall j | 0 <= j < |ti| :: ti[j] < |groups|
  {
    && |r| == 1 + |ti|
    && forall j | 0 <= j < |ti| ::
         ZoneColumns(inp, groups[ti[j]].members, TargetZones).Success?
         && r[j + 1] == TargetEntry(inp, groups[ti[j]])
  }

  lemma EntriesMatchAppend(inp: Inputs, groups: seq<Group>, ti: seq<nat>, r: Averages, i: nat)
    requires inp.Valid() && i < |groups| && forall j | 0 <= j < |ti| :: ti[j] < |groups|
    requires EntriesMatch(inp, groups, ti, r)
    requires ZoneColumns(inp, groups[i].members, TargetZones).Success?
    ensures EntriesMatch(inp, groups, ti + [i], r + [TargetEntry(inp, groups[i])])
  {
    var ti', r' := ti + [i], r + [TargetEntry(inp, groups[i])];
    forall j | 0 <= j < |ti'|
      ensures ZoneColumns(inp, groups[ti'[j]].members, TargetZones).Success? && r'[j + 1] == TargetEntry(inp, groups[ti'[j]])
    {
      if j < |ti| {
        assert ti'[j] == ti[j] && r'[j + 1] == r[j + 1];
      }
    }
  }

  /** `OrderedDict.__setitem__` with a key not yet present appends. */
  lemma PutNewKey(d: Averages, k: string, v: Frame)
    requires forall j | 0 <= j < |d| :: d[j].0 != k
    ensures Put(d, k, v) == d + [(k, v)]
  {
    assert k !in KeysOfDict(d);
  }

  /** One pass of the target loop: a skipped group leaves the dictionary
      alone, any other group is put under its name. */
  lemma TargetsStep(inp: Inputs, groups: seq<Group>, control: nat, k: nat, d: Averages)
    requires inp.Valid() && 0 < k <= |groups|
    requires Targets(inp, groups, control, k, d).Success?
    ensures Targets(inp, groups, control, k - 1, d).Success?
    ensures var prev, g := Targets(inp, groups, control, k - 1, d).value, groups[k - 1];
      if k - 1 == control || !g.selected then Targets(inp, groups, control, k, d).value == prev
      else
        && ZoneColumns(inp, g.members, TargetZones).Success?
        && Targets(inp, groups, control, k, d).value == Put(prev, g.name, TargetEntry(inp, g).1)
  {
  }

  /** With distinct names, the target loop appends one entry per selected
      non-control group, in registry order, after the control's entry. */
  lemma {:induction false} TargetsShape(inp: Inputs, groups: seq<Group>, control: nat, k: nat, first: Averages)
    requires inp.Valid() && k <= |groups| && control < |groups|
    requires DistinctNames(groups)
    requires |first| == 1 && first[0].0 == groups[control].name
    requires Targets(inp, groups, control, k, first).Success?
    ensures var r := Targets(inp, groups, control, k, first).value;
      EntriesMatch(inp, groups, TargetIndices(groups, control, k), r) && r[0] == first[0]
  {
    if k > 0 {
      TargetsStep(inp, groups, control, k, first);
      TargetsShape(inp, groups, control, k - 1, first);
      var d := Targets(inp, groups, control, k - 1, first).value;
      var g := groups[k - 1];
      var ti := TargetIndices(groups, control, k - 1);
      if k - 1 != control && g.selected {
        forall j | 0 <= j < |d| ensures d[j].0 != g.name {
          if j == 0 {
            assert d[0].0 == groups[control].name;
          } else {
            assert d[j].0 == groups[ti[j - 1]].name;
            assert ti[j - 1] < k - 1;
          }
        }
        PutNewKey(d, g.name, TargetEntry(inp, g).1);
        EntriesMatchAppend(inp, groups, ti, d, k - 1);
        assert TargetIndices(groups, control, k) == ti + [k - 1];
      } else {
        assert TargetIndices(groups, control, k) == ti;
      }
    }
  }

  /** Entries that match the target positions carry the names of the groups
      at those positions. */
  lemma EntriesKeys(inp: Inputs, groups: seq<Group>, ti: seq<nat>, r: Averages, name: string)
    requires inp.Valid() && forall j | 0 <= j < |ti| :: ti[j] < |groups|
    requires EntriesMatch(inp, groups, ti, r) && r[0].0 == name
    ensures KeysOfDict(r) == [name] + seq(|ti|, j requires 0 <= j < |ti| => groups[ti[j]].name)
  {
    var expected := [name] + seq(|ti|, j requires 0 <= j < |ti| => groups[ti[j]].name);
    forall i | 0 <= i < |r| ensures KeysOfDict(r)[i] == expected[i] {
      if i > 0 {
        assert r[i] == TargetEntry(inp, groups[ti[i - 1]]);
      }
    }
  }

  /** When the registry's names are distinct and the call succeeds, the keys
      are the control's name followed by the names of the selected
      non-control groups in registry order; the control's entry has the single
      column ABCDE averaged over the witness rows, and every target entry
      holds the columns ABCD, AB and CD averaged over that group's own rows. */
  lemma AveragesShape(t: Grid<string>, groups: seq<Group>, control: int, prop: string)
    requires t.Valid() && DistinctNames(groups)
    requires AveragesOf(t, groups, control, prop).Success?
    ensures 0 <= control < |groups| && Resolve(t, prop).Success?
    ensures var r, inp, ti := AveragesOf(t, groups, control, prop).value, Resolve(t, prop).value, TargetIndices(groups, control, |groups|);
      && Means(inp, Witness(inp, groups, control)).Success?
      && KeysOfDict(r) == [groups[control].name] + seq(|ti|, j requires 0 <= j < |ti| => groups[ti[j]].name)
      && EntriesMatch(inp, groups, ti, r)
      && r[0] == (groups[control].name, Frame(DayLabels(NDays(t)), [Averaged("ABCDE", Means(inp, Witness(inp, groups, control)).value)]))
  {
    assert 0 <= control < |groups|;
    var inp := Resolve(t, prop).value;
    var means := Means(inp, Witness(inp, groups, control)).value;
    var first := [(groups[control].name, Frame(DayLabels(NDays(t)), [Averaged("ABCDE", means)]))];
    AveragesOfSteps(t, groups, control, prop, inp, means);
    TargetsShape(inp, groups, control, |groups|, first);
    var r, ti := Targets(inp, groups, control, |groups|, first).value, TargetIndices(groups, control, |groups|);
    EntriesKeys(inp, groups, ti, r, groups[control].name);
  }

  /** A mask keeps exactly the rows it flags. */
  lemma RowsMembership(f: seq<bool>, r: nat)
    ensures r in Rows(f) <==> r < |f| && f[r]
  {
    RowsCount(f, r);
    CountPositive(Rows(f), r);
  }

  /** Whether the fold at lines 89-99 takes row `r` from group `g`. */
  predicate FoldsRow(inp: Inputs, g: Group, r: nat)
    requires inp.Valid() && r < |inp.mice|
  {
    g.selected && Keeps(inp.mice, inp.zones, g.members, ZoneE, r)
  }

  function FoldFlags(inp: Inputs, groups: seq<Group>, r: nat): (flags: seq<bool>)
    requires inp.Valid() && r < |inp.mice|
    ensures |flags| == |groups| && forall i | 0 <= i < |groups| :: flags[i] == FoldsRow(inp, groups[i], r)
  {
    seq(|groups|, i requires 0 <= i < |groups| => FoldsRow(inp, groups[i], r))
  }

  /** How many times row `r` enters the folded rows: once per selected group
      whose member it is and whose zone is E on every day. */
  lemma {:induction false} FoldedCount(inp: Inputs, groups: seq<Group>, r: nat)
    requires inp.Valid() && r < |inp.mice|
    ensures Count(Folded(inp, groups), r) == Count(FoldFlags(inp, groups, r), true)
  {
    if |groups| > 0 {
      var n := |groups| - 1;
      var g := groups[n];
      var flags := FoldFlags(inp, groups, r);
      var tail := if g.selected then Rows(RowFilter(inp.mice, inp.zones, g.members, ZoneE)) else [];
      FoldedCount(inp, groups[..n], r);
      CountConcat(Folded(inp, groups[..n]), tail, r);
      assert Folded(inp, groups) == Folded(inp, groups[..n]) + tail;
      assert flags[..n] == FoldFlags(inp, groups[..n], r);
      RowsCount(RowFilter(inp.mice, inp.zones, g.members, ZoneE), r);
      assert Count(tail, r) == if flags[n] then 1 else 0;
    }
  }

  /** Row `r` feeds the control's average when the control's filter keeps it
      or some selected group, the control included, has it in zone E on every
      day. */
  lemma WitnessMembership(inp: Inputs, groups: seq<Group>, control: nat, r: nat)
    requires inp.Valid() && control < |groups| && r < |inp.mice|
    ensures r in Witness(inp, groups, control) <==>
      || Keeps(inp.mice, inp.zones, groups[control].members, AllZones, r)
      || exists i | 0 <= i < |groups| :: groups[i].selected && Keeps(inp.mice, inp.zones, groups[i].members, ZoneE, r)
  {
    var flags := FoldFlags(inp, groups, r);
    var own := Rows(RowFilter(inp.mice, inp.zones, groups[control].members, AllZones));
    RowsMembership(RowFilter(inp.mice, inp.zones, groups[control].members, AllZones), r);
    FoldedCount(inp, groups, r);
    CountPositive(Folded(inp, groups), r);
    CountPositive(flags, true);
    if true in flags {
      var i :| 0 <= i < |flags| && flags[i];
      assert groups[i].selected && Keeps(inp.mice, inp.zones, groups[i].members, ZoneE, r);
    }
    if exists i | 0 <= i < |groups| :: groups[i].selected && Keeps(inp.mice, inp.zones, groups[i].members, ZoneE, r) {
      var i :| 0 <= i < |groups| && groups[i].selected && Keeps(inp.mice, inp.zones, groups[i].members, ZoneE, r);
      assert flags[i];
    }
  }

  /** A selected control's own zone-E rows enter its average twice: once
      through its ABCDE filter and once more through the fold. */
  lemma ControlRowsCountedTwice(inp: Inputs, groups: seq<Group>, control: nat, r: nat)
    requires inp.Valid() && control < |groups| && r < |inp.mice|
    requires groups[control].selected && Keeps(inp.mice, inp.zones, groups[control].members, ZoneE, r)
    ensures Count(Witness(inp, groups, control), r) >= 2
  {
    var g := groups[control];
    KeepsMonotone(inp.mice, inp.zones, g.members, ZoneE, AllZones, r);
    var own := RowFilter(inp.mice, inp.zones, g.members, AllZones);
    RowsCount(own, r);
    CountConcat(Rows(own), Folded(inp, groups), r);
    var flags := FoldFlags(inp, groups, r);
    FoldedCount(inp, groups, r);
    assert flags[control];
    CountPositive(flags, true);
  }

  // ---------------------------------------------------------------------
  // A worked example: three mice over one day

  const ExampleTable: Grid<string> := Grid([
    Column("Souris", [Int(1), Int(2), Int(3)]),
    Column("J0-Zone", [Text("A"), Text("B"), Text("E")]),
    Column("J0-Weight", [Num(10.0), Num(20.0), Num(30.0)]),
    Column("J0-Other1", [Empty, Empty, Empty]),
    Column("J0-Other2", [Empty, Empty, Empty]),
    Column("J0-Other3", [Empty, Empty, Empty]),
    Column("J0-Other4", [Empty, Empty, Empty]),
    Column("J0-Other5", [Empty, Empty, Empty])], 3)

  const ExampleGroups: seq<Group> := [Group("Control", [1, 2], true), Group("Treated", [3], true)]

  const ExampleInputs: Inputs := Inputs(
    [Int(1), Int(2), Int(3)], [[Text("A"), Text("B"), Text("E")]], [[Num(10.0), Num(20.0), Num(30.0)]])

  lemma ExampleShape(t: Grid<string>)
    requires t == ExampleTable
    ensures t.Valid() && NDays(t) == 1
  {
  }

  lemma ExampleDayLabels()
    ensures DayLabel(0) == "J0" && DayLabels(1) == ["J0"]
  {
    assert NatToString(0) == "0";
  }

  lemma ExampleLookups(t: Grid<string>)
    requires t == ExampleTable
    ensures FindKey(t.columns, "Souris") == Some(0)
    ensures FindKey(t.columns, "J0-Zone") == Some(1)
    ensures FindKey(t.columns, "J0-Weight") == Some(2)
  {
    var cols := t.columns;
    FindKeyAt(cols, "Souris", 0);
    FindKeyAt(cols, "J0-Zone", 1);
    assert cols[1].key != "J0-Weight" by { assert cols[1].key[3] != 'W'; }
    FindKeyAt(cols, "J0-Weight", 2);
  }

  /** Resolution of a one-day table from the positions of its three columns. */
  lemma ResolveOneDay(t: Grid<string>, prop: string, a: nat, b: nat, c: nat)
    requires t.Valid() && NDays(t) == 1
    requires FindKey(t.columns, "Souris") == Some(a)
    requires FindKey(t.columns, ZoneColumnName(0)) == Some(b)
    requires FindKey(t.columns, PropertyColumnName(0, prop)) == Some(c)
    ensures Resolve(t, prop) == Success(Inputs(t.columns[a].cells, [t.columns[b].cells], [t.columns[c].cells]))
  {
    var r := Resolve(t, prop);
    assert r.Success?;
    assert r.value.zones == [t.columns[b].cells];
    assert r.value.values == [t.columns[c].cells];
  }

  lemma ExampleResolves(t: Grid<string>, inp: Inputs)
    requires t == ExampleTable && inp == ExampleInputs
    ensures t.Valid()
    ensures Resolve(t, "Weight") == Success(inp)
  {
    ExampleShape(t);
    ExampleLookups(t);
    var cols := t.columns;
    assert ZoneColumnName(0) == "J0-Zone" && PropertyColumnName(0, "Weight") == "J0-Weight";
    ResolveOneDay(t, "Weight", 0, 1, 2);
    assert inp == Inputs(cols[0].cells, [cols[1].cells], [cols[2].cells]);
  }

  lemma ExampleRows()
    ensures Rows([true, true, false]) == [0, 1]
    ensures Rows([false, false, true]) == [2]
    ensures Rows([false, false, false]) == []
  {
    assert [true, true, false][..2] == [true, true] && [true, true][..1] == [true];
    assert [false, false, true][..2] == [false, false] && [false, false][..1] == [false];
    assert [false, false, false][..2] == [false, false];
    assert [true][..0] == [] && [false][..0] == [];
  }

  lemma ExampleFilters(inp: Inputs)
    requires inp == ExampleInputs
    ensures inp.Valid()
    ensures RowFilter(inp.mice, inp.zones, [1, 2], AllZones) == [true, true, false]
    ensures RowFilter(inp.mice, inp.zones, [1, 2], ZoneE) == [false, false, false]
    ensures RowFilter(inp.mice, inp.zones, [3], ZoneE) == [false, false, true]
    ensures forall zs | zs in TargetZones :: RowFilter(inp.mice, inp.zones, [3], zs) == [false, false, false]
  {
    assert inp.zones[0] == [Text("A"), Text("B"), Text("E")];
    assert !IsInTexts(Text("A"), ZoneE) && !IsInTexts(Text("B"), ZoneE);
    assert !IsInTexts(Text("E"), ["A", "B", "C", "D"]) && !IsInTexts(Text("E"), ["A", "B"]) && !IsInTexts(Text("E"), ["C", "D"]);
    assert !IsInInts(Int(1), [3]) && !IsInInts(Int(2), [3]) && !IsInInts(Int(3), [1, 2]);
    assert !Keeps(inp.mice, inp.zones, [1, 2], ZoneE, 0) && !Keeps(inp.mice, inp.zones, [1, 2], ZoneE, 1);
  }

  /** The fold over a registry of two selected groups. */
  lemma FoldedTwo(inp: Inputs, groups: seq<Group>)
    requires inp.Valid() && |groups| == 2 && groups[0].selected && groups[1].selected
    ensures Folded(inp, groups) == Rows(RowFilter(inp.mice, inp.zones, groups[0].members, ZoneE))
      + Rows(RowFilter(inp.mice, inp.zones, groups[1].members, ZoneE))
  {
    var pre := groups[..1];
    assert pre[..0] == [] && pre[0] == groups[0];
    assert Folded(inp, pre) == Rows(RowFilter(inp.mice, inp.zones, groups[0].members, ZoneE));
  }

  lemma ExampleWitness(inp: Inputs, groups: seq<Group>)
    requires inp == ExampleInputs && groups == ExampleGroups
    ensures inp.Valid() && Witness(inp, groups, 0) == [0, 1, 2]
  {
    ExampleRows();
    ExampleFilters(inp);
    assert groups[0].members == [1, 2] && groups[1].members == [3];
    FoldedTwo(inp, groups);
  }

  /** The means over one day's column. */
  lemma MeansOneDay(inp: Inputs, rows: seq<nat>, v: Option<real>)
    requires inp.Valid() && |inp.values| == 1
    requires forall k | 0 <= k < |rows| :: rows[k] < |inp.mice|
    requires NanMean(CellsAt(inp.values[0], rows)) == Mean(v)
    ensures Means(inp, rows) == Success([v])
  {
    assert forall d | 0 <= d < 1 :: NanMean(CellsAt(inp.values[d], rows)) == Mean(v);
    var r := Means(inp, rows);
    assert r.Success?;
    assert |r.value| == 1 && r.value[0] == v;
    assert r.value == [v];
  }

  lemma ExampleControlMean(inp: Inputs)
    requires inp == ExampleInputs
    ensures inp.Valid() && Means(inp, [0, 1, 2]) == Success([Some(20.0)])
  {
    var cs := [Num(10.0), Num(20.0), Num(30.0)];
    assert CellsAt(inp.values[0], [0, 1, 2]) == cs;
    assert cs[1..] == [Num(20.0), Num(30.0)];
    assert cs[1..][1..] == [Num(30.0)];
    assert cs[1..][1..][1..] == [];
    assert PresentCount(cs) == 3 && PresentSum(cs) == 60.0;
    MeansOneDay(inp, [0, 1, 2], Some(20.0));
  }

  lemma ExampleZoneNames()
    ensures ZonesName(TargetZones[0]) == "ABCD" && ZonesName(TargetZones[1]) == "AB" && ZonesName(TargetZones[2]) == "CD"
  {
    assert ["A", "B", "C", "D"][..3] == ["A", "B", "C"];
    assert ["A", "B", "C"][..2] == ["A", "B"];
    assert ["A", "B"][..1] == ["A"] && ["C", "D"][..1] == ["C"] && ["A"][..0] == [] && ["C"][..0] == [];
  }

  /** Zone columns whose rows all average to the same means. */
  lemma ZoneColumnsUniform(inp: Inputs, members: seq<int>, zss: seq<seq<string>>, v: seq<Option<real>>)
    requires inp.Valid()
    requires forall z | 0 <= z < |zss| :: ColumnMeans(inp, members, zss[z]) == Success(v)
    ensures ZoneColumns(inp, members, zss) == Success(seq(|zss|, z requires 0 <= z < |zss| => Averaged(ZonesName(zss[z]), v)))
  {
    ZoneColumnsMeaning(inp, members, zss);
    var r := ZoneColumns(inp, members, zss);
    var expected := seq(|zss|, z requires 0 <= z < |zss| => Averaged(ZonesName(zss[z]), v));
    assert r.value == expected;
  }

  lemma ExampleTreatedMeans(inp: Inputs)
    requires inp == ExampleInputs
    ensures inp.Valid()
    ensures forall z | 0 <= z < |TargetZones| :: ColumnMeans(inp, [3], TargetZones[z]) == Success([None])
  {
    ExampleRows();
    ExampleFilters(inp);
    assert CellsAt(inp.values[0], []) == [];
    MeansOneDay(inp, [], None);
    forall z | 0 <= z < |TargetZones| ensures ColumnMeans(inp, [3], TargetZones[z]) == Success([None]) {
      assert TargetZones[z] in TargetZones;
    }
  }

  lemma ExampleTreatedColumns(inp: Inputs)
    requires inp == ExampleInputs
    ensures inp.Valid()
    ensures ZoneColumns(inp, [3], TargetZones) == Success([Averaged("ABCD", [None]), Averaged("AB", [None]), Averaged("CD", [None])])
  {
    ExampleTreatedMeans(inp);
    ExampleZoneNames();
    ZoneColumnsUniform(inp, [3], TargetZones, [None]);
    var cols := seq(|TargetZones|, z requires 0 <= z < |TargetZones| => Averaged(ZonesName(TargetZones[z]), [None]));
    assert cols == [Averaged("ABCD", [None]), Averaged("AB", [None]), Averaged("CD", [None])];
  }

  const ExampleTreatedFrame: Frame := Frame(["J0"], [Averaged("ABCD", [None]), Averaged("AB", [None]), Averaged("CD", [None])])

  /** The target loop over the example registry skips the control and adds
      the treated group's entry after it. */
  lemma ExampleTargets(inp: Inputs, groups: seq<Group>, first: Averages)
    requires inp == ExampleInputs && groups == ExampleGroups
    requires |first| == 1 && first[0].0 == "Control"
    ensures inp.Valid()
    ensures Targets(inp, groups, 0, 2, first) == Success(first + [("Treated", ExampleTreatedFrame)])
  {
    ExampleTreatedColumns(inp);
    ExampleDayLabels();
    assert |inp.values| == 1 && |groups| == 2;
    var treated := groups[1];
    assert treated.name == "Treated" && treated.members == [3] && treated.selected;
    assert Targets(inp, groups, 0, 0, first) == Success(first);
    assert Targets(inp, groups, 0, 1, first) == Success(first);
    var cols := ZoneColumns(inp, treated.members, TargetZones);
    assert cols == Success(ExampleTreatedFrame.columns);
    assert Targets(inp, groups, 0, 2, first) == Success(Put(first, "Treated", Frame(DayLabels(1), cols.value)));
    PutNewKey(first, "Treated", ExampleTreatedFrame);
  }

  /** The steps of `AveragesOf` once the columns are found and the control's
      means computed. */
  lemma AveragesOfSteps(t: Grid<string>, groups: seq<Group>, control: nat, prop: string, inp: Inputs, means: seq<Option<real>>)
    requires t.Valid() && control < |groups|
    requires Resolve(t, prop) == Success(inp)
    requires Means(inp, Witness(inp, groups, control)) == Success(means)
    ensures AveragesOf(t, groups, control, prop)
      == Targets(inp, groups, control, |groups|, [(groups[control].name, Frame(DayLabels(NDays(t)), [Averaged("ABCDE", means)]))])
  {
  }

  /** The control {1, 2} averages its own A and B rows together with the
      treated mouse's zone-E row, (10 + 20 + 30) / 3; the treated group has no
      row in A-D, so its averages are NaN. */
  lemma ExampleAverages(t: Grid<string>, groups: seq<Group>)
    requires t == ExampleTable && groups == ExampleGroups
    ensures t.Valid()
    ensures AveragesOf(t, groups, 0, "Weight") == Success([
      ("Control", Frame(["J0"], [Averaged("ABCDE", [Some(20.0)])])),
      ("Treated", Frame(["J0"], [Averaged("ABCD", [None]), Averaged("AB", [None]), Averaged("CD", [None])]))])
  {
    var inp := ExampleInputs;
    ExampleResolves(t, inp);
    ExampleWitness(inp, groups);
    ExampleControlMean(inp);
    ExampleShape(t);
    ExampleDayLabels();
    var first := [("Control", Frame(["J0"], [Averaged("ABCDE", [Some(20.0)])]))];
    assert first[0].0 == groups[0].name && DayLabels(NDays(t)) == ["J0"];
    AveragesOfSteps(t, groups, 0, "Weight", inp, [Some(20.0)]);
    ExampleTargets(inp, groups, first);
    assert first + [("Treated", ExampleTreatedFrame)] == [first[0], ("Treated", ExampleTreatedFrame)];
  }
}
