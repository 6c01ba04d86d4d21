/** The read-only query of `mouse_monitoring_model.py`: what the monitoring
    table shows in a cell, and the background colour that flags a mouse whose
    weight jumped between two consecutive days. */
module MouseMonitoring {
  import opened Tables

  /** The brushes the query hands out; `Orange` is the colour (255, 119, 51). */
  datatype Colour = Red | Orange | White

  /** What `data` raises instead of answering: `iloc` past the end of the
      frame or of an empty row selection (IndexError), a frame without a
      `Souris` column (KeyError), arithmetic on a string weight (TypeError). */
  datatype Fault = OutOfBounds | NoMouseColumn | NotANumber

  /** The answer of `data(index, role)`: Python's None, a string, a brush, or
      the exception raised. */
  datatype Answer = NoAnswer | Label(text: string) | Brush(colour: Colour) | Raised(fault: Fault)

  // ---------------------------------------------------------------------
  // Rows, mice and weight columns

  /** The mouse number a table row belongs to: five rows per mouse, mice
      numbered from 1. */
  function MouseOfRow(row: nat): (mouse: nat)
    ensures mouse >= 1
  {
    1 + row / 5
  }

  /** The five rows of block `i` all belong to mouse `i + 1`, and no other
      row does. */
  lemma MouseOfRowBlocks(row: nat, i: nat)
    ensures MouseOfRow(row) == i + 1 <==> 5 * i <= row < 5 * i + 5
  {
  }

  /** `n_days`: seven columns per day after the mouse column. */
  function MonitoredDays(width: nat): nat
  {
    if width == 0 then 0 else (width - 1) / 7
  }

  /** `range(1, n_days * 7, 7)`: the weight column of every day. */
  function WeightColumns(width: nat): (cols: seq<nat>)
    ensures |cols| == MonitoredDays(width)
    ensures forall k | 0 <= k < |cols| :: cols[k] < width
    ensures forall p: nat :: p in cols <==> p < 7 * MonitoredDays(width) && p % 7 == 1
  {
    var n := MonitoredDays(width);
    var cols := seq(n, k requires 0 <= k < n => 1 + 7 * k);
    forall p: nat ensures p in cols <==> p < 7 * n && p % 7 == 1 {
      if p < 7 * n && p % 7 == 1 {
        WeekOffset(p, n);
        assert cols[p / 7] == p;
      }
    }
    cols
  }

  lemma WeekOffset(p: nat, n: nat)
    requires p < 7 * n && p % 7 == 1
    ensures p / 7 < n && 1 + 7 * (p / 7) == p
  {
  }

  /** The first row whose `Souris` cell equals the mouse number: row 0 of
      `df[df['Souris'] == mouse]`; None when no row matches. */
  function FirstRowOf(ids: seq<Cell>, mouse: int): (r: Option<nat>)
    ensures r.Some? ==> r.value < |ids| && EqualsInt(ids[r.value], mouse)
    ensures r.Some? ==> forall k | 0 <= k < r.value :: !EqualsInt(ids[k], mouse)
    ensures r.None? <==> forall k | 0 <= k < |ids| :: !EqualsInt(ids[k], mouse)
  {
    if |ids| == 0 then None
    else if EqualsInt(ids[0], mouse) then Some(0)
    else
      match FirstRowOf(ids[1..], mouse)
      case None => None
      case Some(k) => Some(k + 1)
  }

  // ---------------------------------------------------------------------
  // The weight-change rule

  /** `(old - new) / old <= -0.1` in floating point: false when either weight
      is NaN; a zero old weight gives -inf (flagged) for a positive new
      weight, +inf for a negative one and NaN for zero. */
  function Jump(before: Option<real>, after: Option<real>): (fires: bool)
    ensures fires ==> before.Some? && after.Some?
    ensures before == Some(0.0) && after.Some? ==> (fires <==> after.value > 0.0)
  {
    match (before, after)
    case (Some(o), Some(n)) => if o == 0.0 then n > 0.0 else (o - n) / o <= -0.1
    case _ => false
  }

  lemma ScaledBy(q: real, o: real, d: real)
    requires o != 0.0 && q == d / o
    ensures q * o == d
  {
  }

  /** For a positive old weight the rule fires exactly on a gain of at least
      10%, not on a loss; for a negative one the inequality turns over. */
  lemma JumpMeansGain(o: real, n: real)
    ensures o > 0.0 ==> (Jump(Some(o), Some(n)) <==> n >= 1.1 * o)
    ensures o < 0.0 ==> (Jump(Some(o), Some(n)) <==> n <= 1.1 * o)
  {
    if o != 0.0 {
      var q := (o - n) / o;
      ScaledBy(q, o, o - n);
      if o > 0.0 {
        assert q <= -0.1 ==> q * o <= -0.1 * o;
        assert q > -0.1 ==> q * o > -0.1 * o;
      } else {
        assert q <= -0.1 ==> q * o >= -0.1 * o;
        assert q > -0.1 ==> q * o < -0.1 * o;
      }
    }
  }

  /** A weight loss, however large, never fires the rule when the old weight
      is positive. */
  lemma LossNeverFlagged(o: real, n: real)
    requires o > 0.0 && n <= o
    ensures !Jump(Some(o), Some(n))
  {
    JumpMeansGain(o, n);
  }

  /** The outcome of the scan over consecutive days. */
  datatype Scan = Jumped | Steady | StringWeight

  /** The loop over the day pairs `(i, i + 1)`, in order, returning at the
      first pair that fires; a string among the pair's weights raises before
      the pair is judged. */
  function ScanWeights(ws: seq<Cell>): (s: Scan)
    ensures |ws| < 2 ==> s == Steady
    ensures s == StringWeight ==> exists k | 0 <= k < |ws| :: ws[k].Text?
  {
    if |ws| < 2 then Steady
    else if ws[0].Text? || ws[1].Text? then StringWeight
    else if Jump(ValueOf(ws[0]), ValueOf(ws[1])) then Jumped
    else
      var rest := ws[1..];
      assert forall k | 0 <= k < |rest| :: rest[k] == ws[k + 1];
      ScanWeights(rest)
  }

  predicate JumpAt(ws: seq<Cell>, i: nat)
    requires i + 1 < |ws|
  {
    Jump(ValueOf(ws[i]), ValueOf(ws[i + 1]))
  }

  /** On numeric weights the scan reports a jump exactly when some pair of
      consecutive days fires the rule, and never raises; it raises only when
      a string is among the weights. */
  lemma {:induction false} ScanMeaning(ws: seq<Cell>)
    ensures AllNumeric(ws) ==> ScanWeights(ws) != StringWeight
    ensures AllNumeric(ws) ==> (ScanWeights(ws) == Jumped <==> exists i: nat | i + 1 < |ws| :: JumpAt(ws, i))
    ensures ScanWeights(ws) == StringWeight ==> exists k | 0 <= k < |ws| :: ws[k].Text?
  {
    if |ws| >= 2 {
      var rest := ws[1..];
      assert forall k | 0 <= k < |rest| :: rest[k] == ws[k + 1];
      ScanMeaning(rest);
      assert forall i: nat | i + 1 < |rest| :: JumpAt(rest, i) == JumpAt(ws, i + 1);
      if AllNumeric(ws) {
        assert AllNumeric(rest);
        if ScanWeights(ws) == Jumped && !JumpAt(ws, 0) {
          var i: nat :| i + 1 < |rest| && JumpAt(rest, i);
          assert JumpAt(ws, i + 1);
        }
        if exists i: nat | i + 1 < |ws| :: JumpAt(ws, i) {
          var i: nat :| i + 1 < |ws| && JumpAt(ws, i);
          if i > 0 {
            assert JumpAt(rest, i - 1);
          }
        }
      }
    }
  }

  // ---------------------------------------------------------------------
  // The per-cell colour

  function Lower(c: char): char
  {
    if 'A' <= c <= 'Z' then (c as int + 32) as char else c
  }

  /** Whether `float(s)` is NaN: after the surrounding blanks, an optional
      sign and the letters n, a, n in any case. */
  predicate SpellsNan(s: string)
  {
    var t := Strip(s);
    var u := if |t| > 0 && (t[0] == '+' || t[0] == '-') then t[1..] else t;
    |u| == 3 && Lower(u[0]) == 'n' && Lower(u[1]) == 'a' && Lower(u[2]) == 'n'
  }

  /** The colour of a cell when no jump was found: orange for NaN, white for
      a number and for a string `float` cannot read. */
  function CellColour(value: Cell): (c: Colour)
    ensures c == Orange <==> value.Empty? || (value.Text? && SpellsNan(value.s))
  {
    match value
    case Empty => Orange
    case Text(s) => if SpellsNan(s) then Orange else White
    case _ => White
  }

  // ---------------------------------------------------------------------
  // The query

  /** `str(value)`; how a float is written is left to `floatRepr`. */
  function Str(value: Cell, floatRepr: real -> string): string
  {
    match value
    case Empty => "nan"
    case Int(i) => IntToString(i)
    case Num(r) => floatRepr(r)
    case Text(s) => s
  }

  /** The weights of the mouse's first row, in day order. */
  function WeightsAt(t: Grid<string>, r0: nat): (ws: seq<Cell>)
    requires t.Valid() && r0 < t.height
    ensures |ws| == MonitoredDays(|t.columns|)
  {
    var cols := WeightColumns(|t.columns|);
    seq(|cols|, k requires 0 <= k < |cols| => t.columns[cols[k]].cells[r0])
  }

  /** The background-role branch for the cell at `row` holding `value`. */
  function Background(t: Grid<string>, row: nat, value: Cell): (a: Answer)
    requires t.Valid()
    ensures a.Brush? || a.Raised?
    ensures a.Brush? && a.colour != Red ==> a.colour == CellColour(value)
    ensures FindKey(t.columns, "Souris").None? ==> a == Raised(NoMouseColumn)
  {
    match FindKey(t.columns, "Souris")
    case None => Raised(NoMouseColumn)
    case Some(s) =>
      match FirstRowOf(t.columns[s].cells, MouseOfRow(row))
      case None => Raised(OutOfBounds)
      case Some(r0) =>
        match ScanWeights(WeightsAt(t, r0))
        case Jumped => Brush(Red)
        case StringWeight => Raised(NotANumber)
        case Steady => Brush(CellColour(value))
  }

  /** `data(index, role)` on the frame `t`. */
  function Data(t: Grid<string>, index: ModelIndex, role: Role, floatRepr: real -> string): (a: Answer)
    requires t.Valid()
    ensures a.Label? ==> role == DisplayRole || role == ToolTipRole
    ensures a.Brush? ==> role == BackgroundRole
    ensures a.Raised? ==> index.At? && (index.row >= t.height || index.column >= |t.columns| || role == BackgroundRole)
    ensures index.At? && t.height > 0 && |t.columns| > 0 && (index.row >= t.height || index.column >= |t.columns|) ==>
      a == Raised(OutOfBounds)
  {
    if index.InvalidIndex? || t.height == 0 || |t.columns| == 0 then NoAnswer
    else if index.row >= t.height || index.column >= |t.columns| then Raised(OutOfBounds)
    else
      var value := t.columns[index.column].cells[index.row];
      match role
      case DisplayRole => Label(Str(value, floatRepr))
      case ToolTipRole => Label(Str(value, floatRepr))
      case BackgroundRole => Background(t, index.row, value)
      case _ => NoAnswer
  }

  // ---------------------------------------------------------------------
  // What the query promises

  /** An invalid index, an empty frame and every role but display, tooltip
      and background give None; display and tooltip give the same string. */
  lemma DataRoles(t: Grid<string>, index: ModelIndex, role: Role, floatRepr: real -> string)
    requires t.Valid()
    ensures index.InvalidIndex? || t.height == 0 || |t.columns| == 0 ==> Data(t, index, role, floatRepr) == NoAnswer
    ensures index.At? && index.row < t.height && index.column < |t.columns| ==>
      && Data(t, index, DisplayRole, floatRepr) == Data(t, index, ToolTipRole, floatRepr)
      && Data(t, index, DisplayRole, floatRepr) == Label(Str(t.columns[index.column].cells[index.row], floatRepr))
      && (role != DisplayRole && role != ToolTipRole && role != BackgroundRole ==> Data(t, index, role, floatRepr) == NoAnswer)
  {
  }

  /** The background of a cell: red when the scan over the weights of its
      mouse's first row finds a jump, whatever the cell holds; otherwise the
      cell's own colour, unless a string weight made the scan raise. */
  lemma BackgroundRule(t: Grid<string>, row: nat, value: Cell, s: nat, r0: nat)
    requires t.Valid() && FindKey(t.columns, "Souris") == Some(s)
    requires FirstRowOf(t.columns[s].cells, MouseOfRow(row)) == Some(r0)
    ensures var ws := WeightsAt(t, r0);
      && (ScanWeights(ws) == Jumped ==> Background(t, row, value) == Brush(Red))
      && (AllNumeric(ws) && !(exists i: nat | i + 1 < |ws| :: JumpAt(ws, i)) ==>
            Background(t, row, value) == Brush(CellColour(value)))
  {
    ScanMeaning(WeightsAt(t, r0));
  }

  /** The precedence of the red flag: two cells of the same mouse's block
      get the same red background whatever they hold. */
  lemma RedWinsOverCell(t: Grid<string>, row: nat, v1: Cell, v2: Cell)
    requires t.Valid()
    requires Background(t, row, v1) == Brush(Red)
    ensures Background(t, row, v2) == Brush(Red)
  {
    assert !(CellColour(v1) == Red);
  }

  /** A frame whose `Souris` cells are all strings, as the import leaves it
      after renaming the mice, never matches a mouse number, so the
      background query raises IndexError there. */
  lemma BackgroundOnRenamedFrame(t: Grid<string>, row: nat, value: Cell, s: nat)
    requires t.Valid() && FindKey(t.columns, "Souris") == Some(s)
    requires forall k | 0 <= k < t.height :: t.columns[s].cells[k].Text?
    ensures Background(t, row, value) == Raised(OutOfBounds)
  {
  }
}
