/** The spreadsheet registry of `excel_files_model.py`: importing a sheet
    (filling the mouse ids and weights down their five-row blocks, merging
    the paired measurement columns, renaming repeated mice, flattening the
    two-level header) and keeping the imported frames with their group
    registries. */
module ExcelFiles {
  import opened Tables
  import opened Averages
  import opened Groups

  /** A sheet as `read_excel(..., header=(0, 1))` returns it: columns keyed
      by the two header levels. */
  type Sheet = Grid<(string, string)>

  /** Why an import fails; the source turns each into ExcelFileModelError. */
  datatype ImportError =
    | KeyError(key: (string, string))  // a label is missing
    | CastError                         // astype(int) meets NaN or text
    | MeanError                         // nanmean meets text
    | NoColumns                         // columns[0] of an empty header
    | UnexpectedLayout                  // column 0 does not hold the integer ids

  /** The measurements taken twice per day, as X and X.1. */
  const PairedNames: seq<string> := ["Erythème", "ITA", "Vapometer", "Moister Meter"]

  /** Each day spans eleven columns of the sheet after the mouse column. */
  function NDaysIn(s: Sheet): (n: nat)
    ensures |s.columns| == 0 ==> n == 0
    ensures |s.columns| > 0 ==> 11 * n + 1 <= |s.columns| < 11 * (n + 1) + 1
  {
    if |s.columns| == 0 then 0 else (|s.columns| - 1) / 11
  }

  // ---------------------------------------------------------------------
  // Column edits

  /** `df[key] = cells` on the column at position `c`. */
  function Replaced<K>(s: Grid<K>, c: nat, cells: seq<Cell>): (r: Grid<K>)
    requires s.Valid() && c < |s.columns| && |cells| == s.height
    ensures r.Valid() && r.height == s.height && |r.columns| == |s.columns|
    ensures r.columns[c] == Column(s.columns[c].key, cells)
    ensures forall c' | 0 <= c' < |s.columns| && c' != c :: r.columns[c'] == s.columns[c']
  {
    Grid(s.columns[c := Column(s.columns[c].key, cells)], s.height)
  }

  /** The columns other than those labelled `key`, in order. */
  function Without(cols: seq<Column<(string, string)>>, key: (string, string)): (r: seq<Column<(string, string)>>)
    ensures |r| <= |cols|
    ensures forall col :: col in r <==> col in cols && col.key != key
  {
    if |cols| == 0 then []
    else
      var n := |cols| - 1;
      assert cols == cols[..n] + [cols[n]];
      Without(cols[..n], key) + (if cols[n].key == key then [] else [cols[n]])
  }

  /** `df.drop(key, axis=1)`; this removes every column with that label. */
  function Dropped(s: Sheet, key: (string, string)): (r: Sheet)
    requires s.Valid()
    ensures r.Valid() && r.height == s.height
  {
    var cols := Without(s.columns, key);
    assert forall c | 0 <= c < |cols| :: cols[c] in s.columns;
    Grid(cols, s.height)
  }

  /** A column that does not carry the dropped label keeps its place in
      front of every other column. */
  lemma {:induction false} WithoutKeepsFirst(cols: seq<Column<(string, string)>>, key: (string, string))
    requires |cols| > 0 && cols[0].key != key
    ensures |Without(cols, key)| > 0 && Without(cols, key)[0] == cols[0]
  {
    var n := |cols| - 1;
    if n > 0 {
      WithoutKeepsFirst(cols[..n], key);
    }
  }

  // ---------------------------------------------------------------------
  // Filling a column down its five-row blocks (lines 49-50 and 58-59)

  /** The column after `.loc[5i+1:5i+4, col] = .loc[5i, col]` for every
      block `i < n`: rows of a block take the value of its first row, the
      rows after the last full block keep theirs. */
  function FillDown(cells: seq<Cell>, n: nat): (r: seq<Cell>)
    requires 5 * n <= |cells|
    ensures |r| == |cells|
  {
    seq(|cells|, k requires 0 <= k < |cells| => if k < 5 * n then cells[5 * (k / 5)] else cells[k])
  }

  lemma BlockOf(k: nat, i: nat)
    requires 5 * i <= k < 5 * i + 5
    ensures k / 5 == i
  {
  }

  /** All five rows of a block hold the block's first value. */
  lemma FillDownBlocks(cells: seq<Cell>, n: nat, i: nat, j: nat)
    requires 5 * n <= |cells| && i < n && j < 5
    ensures FillDown(cells, n)[5 * i + j] == cells[5 * i]
  {
    BlockOf(5 * i + j, i);
  }

  /** Filling a filled column again changes nothing. */
  lemma FillDownIdempotent(cells: seq<Cell>, n: nat)
    requires 5 * n <= |cells|
    ensures FillDown(FillDown(cells, n), n) == FillDown(cells, n)
  {
    var f := FillDown(cells, n);
    forall k | 0 <= k < |cells| ensures FillDown(f, n)[k] == f[k] {
      if k < 5 * n {
        BlockOf(k, k / 5);
        BlockOf(5 * (k / 5), k / 5);
      }
    }
  }

  /** The fill loop: for each block, its four last rows take the first's
      value. */
  method FillColumn(cells: seq<Cell>, n: nat) returns (r: seq<Cell>)
    requires 5 * n <= |cells|
    ensures r == FillDown(cells, n)
  {
    r := cells;
    var i := 0;
    while i < n
      invariant 0 <= i <= n && |r| == |cells|
      invariant forall k | 0 <= k < |r| :: r[k] == if k < 5 * i then cells[5 * (k / 5)] else cells[k]
    {
      var head := r[5 * i];
      var r' := r[..5 * i + 1] + [head, head, head, head] + r[5 * i + 5..];
      forall k | 5 * i <= k < 5 * i + 5 ensures r'[k] == cells[5 * (k / 5)] {
        BlockOf(k, i);
      }
      r := r';
      i := i + 1;
    }
  }

  // ---------------------------------------------------------------------
  // The mouse column (lines 49-51)

  /** `astype(int)` on the column: it succeeds when every cell converts,
      a NaN or a string that spells no integer makes it raise. */
  function AsInts(cells: seq<Cell>): (r: Option<seq<Cell>>)
    ensures r.Some? <==> forall k | 0 <= k < |cells| :: CastInt(cells[k]).Some?
    ensures r.None? ==> exists k | 0 <= k < |cells| :: cells[k].Empty? || cells[k].Text?
    ensures r.Some? ==> |r.value| == |cells| && forall k | 0 <= k < |cells| :: r.value[k] == Int(CastInt(cells[k]).value)
  {
    if exists k | 0 <= k < |cells| :: CastInt(cells[k]).None? then None
    else Some(seq(|cells|, k requires 0 <= k < |cells| => Int(CastInt(cells[k]).value)))
  }

  /** The sheet after the mouse ids are filled down and made integers. */
  function FilledMice(s: Sheet): (r: Result<Sheet, ImportError>)
    requires s.Valid()
    ensures r.Success? ==> r.value.Valid() && r.value.height == s.height && |r.value.columns| == |s.columns|
  {
    match FindKey(s.columns, MouseKey)
    case None => Failure(KeyError(MouseKey))
    case Some(m) =>
      match AsInts(FillDown(s.columns[m].cells, s.height / 5))
      case None => Failure(CastError)
      case Some(ids) => Success(Replaced(s, m, ids))
  }

  // ---------------------------------------------------------------------
  // One day (lines 55-68)

  /** The merged cell of a pair: the mean of the numbers among the two, NaN
      when both are missing. */
  function MeanCell(m: Mean): Cell
    requires m.Mean?
  {
    if m.value.Some? then Num(m.value.value) else Empty
  }

  /** `df[[X, X.1]].agg(np.nanmean, axis=1)`: one mean per row. */
  function MergedCells(a: seq<Cell>, b: seq<Cell>): (r: Result<seq<Cell>, ImportError>)
    requires |a| == |b|
    ensures r.Success? <==> AllNumeric(a) && AllNumeric(b)
    ensures r.Failure? ==> r.error == MeanError
    ensures r.Success? ==> |r.value| == |a|
  {
    if !(AllNumeric(a) && AllNumeric(b)) then Failure(MeanError)
    else Success(seq(|a|, k requires 0 <= k < |a| => MeanCell(NanMean([a[k], b[k]]))))
  }

  /** Each merged cell is the mean of the two readings when both are
      present, the one present reading otherwise, and NaN without any. */
  lemma MergedMeaning(a: seq<Cell>, b: seq<Cell>, k: nat)
    requires |a| == |b| && k < |a| && MergedCells(a, b).Success?
    ensures var c := MergedCells(a, b).value[k];
      match (ValueOf(a[k]), ValueOf(b[k]))
      case (Some(u), Some(v)) => c == Num((u + v) / 2.0)
      case (Some(u), None) => c == Num(u)
      case (None, Some(v)) => c == Num(v)
      case (None, None) => c == Empty
  {
    NanMeanOfTwo(a[k], b[k]);
  }

  /** Replace X by the merge of X and X.1, then drop X.1. */
  function MergeStep(s: Sheet, day: string, x: string): (r: Result<Sheet, ImportError>)
    requires s.Valid()
    ensures r.Success? ==> r.value.Valid() && r.value.height == s.height
  {
    match FindKey(s.columns, (day, x))
    case None => Failure(KeyError((day, x)))
    case Some(a) =>
      match FindKey(s.columns, (day, x + ".1"))
      case None => Failure(KeyError((day, x + ".1")))
      case Some(b) =>
        match MergedCells(s.columns[a].cells, s.columns[b].cells)
        case Failure(e) => Failure(e)
        case Success(merged) => Success(Dropped(Replaced(s, a, merged), (day, x + ".1")))
  }

  /** The day's weight column filled down its blocks; nothing is looked up
      when there is no full block. */
  function WeightStep(s: Sheet, day: string): (r: Result<Sheet, ImportError>)
    requires s.Valid()
    ensures r.Success? ==> r.value.Valid() && r.value.height == s.height
  {
    if s.height / 5 == 0 then Success(s)
    else
      match FindKey(s.columns, (day, "Poids"))
      case None => Failure(KeyError((day, "Poids")))
      case Some(p) => Success(Replaced(s, p, FillDown(s.columns[p].cells, s.height / 5)))
  }

  function DayStep(s: Sheet, day: string): (r: Result<Sheet, ImportError>)
    requires s.Valid()
    ensures r.Success? ==> r.value.Valid() && r.value.height == s.height
  {
    var s0 :- WeightStep(s, day);
    var s1 :- MergeStep(s0, day, PairedNames[0]);
    var s2 :- MergeStep(s1, day, PairedNames[1]);
    var s3 :- MergeStep(s2, day, PairedNames[2]);
    MergeStep(s3, day, PairedNames[3])
  }

  /** Days `i` to `d - 1` processed in order. */
  function Days(s: Sheet, i: nat, d: nat): (r: Result<Sheet, ImportError>)
    requires s.Valid()
    ensures r.Success? ==> r.value.Valid() && r.value.height == s.height
    decreases d - i
  {
    if i >= d then Success(s)
    else
      var s' :- DayStep(s, DayLabel(i));
      Days(s', i + 1, d)
  }

  // ---------------------------------------------------------------------
  // Mouse names (lines 70-74)

  /** `str(v) + '_' + str(k)`. */
  function Suffixed(v: int, k: nat): string
  {
    IntToString(v) + "_" + NatToString(k)
  }

  /** The comprehension at line 72: a mouse id met once keeps its decimal
      form; the k-th occurrence of a repeated id is suffixed with `_k`. */
  function Renamed(ids: seq<int>): (names: seq<string>)
    ensures |names| == |ids|
  {
    seq(|ids|, i requires 0 <= i < |ids| =>
      if Count(ids, ids[i]) > 1 then Suffixed(ids[i], Count(ids[..i], ids[i]) + 1) else IntToString(ids[i]))
  }

  lemma NoUnderscoreInNumbers(v: int)
    ensures '_' !in IntToString(v)
  {
  }

  /** The first separator of `a + [sep] + x` is the one after `a` when `a`
      has none of its own. */
  lemma {:induction false} SeparatorPosition(sep: char, a: string, x: string)
    requires sep !in a
    ensures IndexOf(a + [sep] + x, sep) == Some(|a|)
  {
    if |a| > 0 {
      assert (a + [sep] + x)[1..] == a[1..] + [sep] + x;
      SeparatorPosition(sep, a[1..], x);
    }
  }

  /** Joining two strings none of whose first parts hold the separator can
      be undone. */
  lemma SplitAtSeparator(sep: char, a: string, x: string, b: string, y: string)
    requires sep !in a && sep !in b && a + [sep] + x == b + [sep] + y
    ensures a == b && x == y
  {
    var l := a + [sep] + x;
    SeparatorPosition(sep, a, x);
    SeparatorPosition(sep, b, y);
    assert a == l[..|a|] && x == l[|a| + 1..];
    assert b == l[..|b|] && y == l[|b| + 1..];
  }

  /** A later occurrence has seen more copies of the id before it. */
  lemma CountGrowsPast<T>(s: seq<T>, i: nat, j: nat)
    requires i < j <= |s|
    ensures Count(s[..j], s[i]) > Count(s[..i], s[i])
  {
    assert s[..j] == s[..i] + s[i..j];
    CountConcat(s[..i], s[i..j], s[i]);
    assert s[i..j][0] == s[i];
    CountPositive(s[i..j], s[i]);
  }

  /** A name is an occurrence number between 1 and the id's count. */
  lemma SuffixInRange<T>(s: seq<T>, i: nat)
    requires i < |s|
    ensures 1 <= Count(s[..i], s[i]) + 1 <= Count(s, s[i])
  {
    CountGrowsPast(s, i, |s|);
    assert s[..|s|] == s;
  }

  /** Renaming makes the mouse names pairwise distinct. */
  lemma RenamedDistinct(ids: seq<int>, i: nat, j: nat)
    requires i < j < |ids|
    ensures Renamed(ids)[i] != Renamed(ids)[j]
  {
    var names := Renamed(ids);
    var a, b := IntToString(ids[i]), IntToString(ids[j]);
    NoUnderscoreInNumbers(ids[i]);
    NoUnderscoreInNumbers(ids[j]);
    var ci, cj := Count(ids[..i], ids[i]) + 1, Count(ids[..j], ids[j]) + 1;
    if Count(ids, ids[i]) > 1 && Count(ids, ids[j]) > 1 {
      if names[i] == names[j] {
        SplitAtSeparator('_', a, NatToString(ci), b, NatToString(cj));
        IntToStringInjective(ids[i], ids[j]);
        NatToStringInjective(ci, cj);
        CountGrowsPast(ids, i, j);
      }
    } else if Count(ids, ids[i]) > 1 {
      assert names[i][|a|] == '_';
      assert '_' !in names[j];
    } else if Count(ids, ids[j]) > 1 {
      assert names[j][|b|] == '_';
      assert '_' !in names[i];
    } else if ids[i] == ids[j] {
      CountGrowsPast(ids, i, j);
      SuffixInRange(ids, j);
    } else if a == b {
      IntToStringInjective(ids[i], ids[j]);
    }
  }

  /** An id met once keeps its plain decimal name; the k-th occurrence of a
      repeated id is suffixed with `_k`, k between 1 and the id's count. */
  lemma RenamedForms(ids: seq<int>, i: nat)
    requires i < |ids|
    ensures Count(ids, ids[i]) == 1 ==> Renamed(ids)[i] == IntToString(ids[i])
    ensures Count(ids, ids[i]) > 1 ==> Renamed(ids)[i] == Suffixed(ids[i], Count(ids[..i], ids[i]) + 1)
    ensures Count(ids, ids[i]) > 1 ==> exists k: nat | 1 <= k <= Count(ids, ids[i]) :: Renamed(ids)[i] == Suffixed(ids[i], k)
  {
    SuffixInRange(ids, i);
    if Count(ids, ids[i]) > 1 {
      var k: nat := Count(ids[..i], ids[i]) + 1;
      assert Renamed(ids)[i] == Suffixed(ids[i], k);
    }
  }

  /** Column 0 after `iloc[5i:5i+5, 0] = names[i]`. */
  function NamedCells(cells: seq<Cell>, names: seq<string>): (r: seq<Cell>)
    requires 5 * |names| <= |cells|
    ensures |r| == |cells|
  {
    seq(|cells|, k requires 0 <= k < |cells| => if k < 5 * |names| then Text(names[k / 5]) else cells[k])
  }

  /** All five rows of a block carry the block's name. */
  lemma NamedCellsBlocks(cells: seq<Cell>, names: seq<string>, i: nat, j: nat)
    requires 5 * |names| <= |cells| && i < |names| && j < 5
    ensures NamedCells(cells, names)[5 * i + j] == Text(names[i])
  {
    BlockOf(5 * i + j, i);
  }

  /** The assignment loop at lines 73-74. */
  method AssignNames(cells: seq<Cell>, names: seq<string>) returns (r: seq<Cell>)
    requires 5 * |names| <= |cells|
    ensures r == NamedCells(cells, names)
  {
    r := cells;
    var i := 0;
    while i < |names|
      invariant 0 <= i <= |names| && |r| == |cells|
      invariant forall k | 0 <= k < |r| :: r[k] == if k < 5 * i then Text(names[k / 5]) else cells[k]
    {
      var t := Text(names[i]);
      var r' := r[..5 * i] + [t, t, t, t, t] + r[5 * i + 5..];
      forall k | 5 * i <= k < 5 * i + 5 ensures r'[k] == Text(names[k / 5]) {
        BlockOf(k, i);
      }
      r := r';
      i := i + 1;
    }
  }

  /** The ids at the head of each block of column 0 (line 71); only integer
      cells are rendered. */
  function BlockHeads(s: Sheet): (r: Option<seq<int>>)
    requires s.Valid()
    ensures r.Some? ==> |s.columns| > 0 && |r.value| == s.height / 5
  {
    var n := s.height / 5;
    if |s.columns| == 0 || exists i | 0 <= i < n :: !s.columns[0].cells[5 * i].Int? then None
    else Some(seq(n, i requires 0 <= i < n => s.columns[0].cells[5 * i].i))
  }

  function Named(s: Sheet): (r: Result<Sheet, ImportError>)
    requires s.Valid()
    ensures r.Success? ==> r.value.Valid() && r.value.height == s.height
  {
    match BlockHeads(s)
    case None => Failure(UnexpectedLayout)
    case Some(ids) => Success(Replaced(s, 0, NamedCells(s.columns[0].cells, Renamed(ids))))
  }

  // ---------------------------------------------------------------------
  // Flattening the header (lines 76-79)

  function Joined(key: (string, string)): string
  {
    key.0 + "-" + key.1
  }

  /** `'-'.join(col)` for each column, then `columns[0] = 'Souris'`. */
  function Flattened(s: Sheet): (r: Result<Grid<string>, ImportError>)
    requires s.Valid()
    ensures r.Success? <==> |s.columns| > 0
    ensures r.Failure? ==> r.error == NoColumns
    ensures r.Success? ==> r.value.Valid() && r.value.height == s.height && |r.value.columns| == |s.columns|
    ensures r.Success? ==> r.value.columns[0] == Column("Souris", s.columns[0].cells)
    ensures r.Success? ==> forall c | 0 < c < |s.columns| :: r.value.columns[c] == Column(Joined(s.columns[c].key), s.columns[c].cells)
  {
    if |s.columns| == 0 then Failure(NoColumns)
    else
      Success(Grid(seq(|s.columns|, c requires 0 <= c < |s.columns| =>
        Column(if c == 0 then "Souris" else Joined(s.columns[c].key), s.columns[c].cells)), s.height))
  }

  /** Flattening loses no label: two labels whose first level has no '-'
      stay apart, as the day labels `J<d>` do. */
  lemma JoinedInjective(k1: (string, string), k2: (string, string))
    requires '-' !in k1.0 && '-' !in k2.0 && Joined(k1) == Joined(k2)
    ensures k1 == k2
  {
    SplitAtSeparator('-', k1.0, k1.1, k2.0, k2.1);
  }

  /** The flattened label of a day's zone column is the one the averages
      look up. */
  lemma ZoneLabelFlattens(d: nat)
    ensures Joined((DayLabel(d), "Zone")) == ZoneColumnName(d)
  {
  }

  // ---------------------------------------------------------------------
  // The whole import

  /** The frame `add_excel_file` stores for a sheet, or why the import
      fails; `round(1)` is not applied. */
  function Normalized(s: Sheet): (r: Result<Grid<string>, ImportError>)
    requires s.Valid()
    ensures r.Success? ==> r.value.Valid() && r.value.height == s.height
  {
    var s1 :- FilledMice(s);
    var s2 :- Days(s1, 0, NDaysIn(s));
    var s3 :- Named(s2);
    Flattened(s3)
  }

  /** One day of the import: the weights filled down the blocks, then the
      four paired measures merged. */
  method ProcessDay(s: Sheet, day: string) returns (r: Result<Sheet, ImportError>)
    requires s.Valid()
    ensures r == DayStep(s, day)
  {
    var df := s;
    var nMice := df.height / 5;
    if nMice > 0 {
      var p := FindKey(df.columns, (day, "Poids"));
      if p.None? {
        return Failure(KeyError((day, "Poids")));
      }
      var weights := FillColumn(df.columns[p.value].cells, nMice);
      df := Replaced(df, p.value, weights);
    }
    assert WeightStep(s, day) == Success(df);
    var s1 :- MergeStep(df, day, "Erythème");
    var s2 :- MergeStep(s1, day, "ITA");
    var s3 :- MergeStep(s2, day, "Vapometer");
    r := MergeStep(s3, day, "Moister Meter");
  }

  /** The loop over the days, stopping at the first day that fails. */
  method ProcessDays(s: Sheet, nDays: nat) returns (r: Result<Sheet, ImportError>)
    requires s.Valid()
    ensures r == Days(s, 0, nDays)
  {
    var df := s;
    var i := 0;
    while i < nDays
      invariant 0 <= i <= nDays && df.Valid() && df.height == s.height
      invariant Days(s, 0, nDays) == Days(df, i, nDays)
    {
      var next := ProcessDay(df, DayLabel(i));
      if next.Failure? {
        return Failure(next.error);
      }
      df := next.value;
      i := i + 1;
    }
    r := Success(df);
  }

  /** The import, step by step, on a working copy of the sheet. */
  method Normalize(sheet: Sheet) returns (r: Result<Grid<string>, ImportError>)
    requires sheet.Valid()
    ensures r == Normalized(sheet)
  {
    var df := sheet;
    var nMice := df.height / 5;
    var m := FindKey(df.columns, MouseKey);
    if m.None? {
      return Failure(KeyError(MouseKey));
    }
    var mice := FillColumn(df.columns[m.value].cells, nMice);
    var ids := AsInts(mice);
    if ids.None? {
      return Failure(CastError);
    }
    df := Replaced(df, m.value, ids.value);
    assert FilledMice(sheet) == Success(df);
    df :- ProcessDays(df, NDaysIn(sheet));
    var heads := BlockHeads(df);
    if heads.None? {
      return Failure(UnexpectedLayout);
    }
    var names := Renamed(heads.value);
    var col0 := AssignNames(df.columns[0].cells, names);
    df := Replaced(df, 0, col0);
    r := Flattened(df);
  }

  // ---------------------------------------------------------------------
  // The registry

  /** One imported file: its name, its frame and the groups defined on it. */
  datatype Entry = Entry(file: string, frame: Grid<string>, groups: GroupsModel)

  datatype AddOutcome = AlreadyStored | Imported | ImportFailed

  class ExcelFilesModel {
    var files: seq<Entry>

    constructor ()
      ensures files == []
    {
      files := [];
    }

    function FileNames(): (ns: seq<string>)
      reads this
      ensures |ns| == |files| && forall i | 0 <= i < |files| :: ns[i] == files[i].file
    {
      var fs := files;
      seq(|fs|, i requires 0 <= i < |fs| => fs[i].file)
    }

    /** `add_excel_file(file)`; `sheet` is what `read_excel` returned, None
        when it raised. */
    method AddExcelFile(file: string, sheet: Option<Sheet>) returns (outcome: AddOutcome)
      requires sheet.Some? ==> sheet.value.Valid()
      modifies this
      ensures file in old(FileNames()) ==> outcome == AlreadyStored && files == old(files)
      ensures file !in old(FileNames()) && (sheet.None? || Normalized(sheet.value).Failure?) ==>
        outcome == ImportFailed && files == old(files)
      ensures file !in old(FileNames()) && sheet.Some? && Normalized(sheet.value).Success? ==>
        && outcome == Imported
        && |files| == |old(files)| + 1 && files[..|old(files)|] == old(files)
        && files[|old(files)|].file == file
        && files[|old(files)|].frame == Normalized(sheet.value).value
        && fresh(files[|old(files)|].groups)
        && files[|old(files)|].groups.frame == Normalized(sheet.value).value
        && files[|old(files)|].groups.groups == []
        && files[|old(files)|].groups.control == -1
    {
      var names := FileNames();
      if file in names {
        return AlreadyStored;
      }
      if sheet.None? {
        return ImportFailed;
      }
      var frame := Normalize(sheet.value);
      if frame.Failure? {
        return ImportFailed;
      }
      var groups := new GroupsModel(frame.value);
      files := files + [Entry(file, frame.value, groups)];
      return Imported;
    }

    method Clear()
      modifies this
      ensures files == []
    {
      files := [];
    }
  }
}
