/** Values shared by every model of the program: the cells and columns of a
    data frame, the decimal form Python's `str` gives an integer, and numpy's
    `nanmean`, which skips missing values. */
module Tables {

  datatype Option<T> = None | Some(value: T)

  datatype Result<T, E> = Success(value: T) | Failure(error: E) {
    predicate IsFailure() { Failure? }
    function PropagateFailure<U>(): Result<U, E>
      requires Failure?
    {
      Failure(error)
    }
    function Extract(): T
      requires Success?
    {
      value
    }
  }

  /** One entry of a data frame: NaN, an integer, a floating-point number
      (taken exactly, as a real) or a string. */
  datatype Cell = Empty | Int(i: int) | Num(r: real) | Text(s: string)

  /** The number a numeric cell holds; `None` for NaN and for strings. */
  function ValueOf(c: Cell): Option<real>
  {
    match c
    case Int(i) => Some(i as real)
    case Num(r) => Some(r)
    case _ => None
  }

  /** pandas' `x == n` for an integer `n`: a float equal to an integer
      matches it, NaN and strings never do. */
  predicate EqualsInt(c: Cell, n: int)
  {
    match c
    case Int(i) => i == n
    case Num(r) => r == n as real
    case _ => false
  }

  /** pandas' `isin` against a list of integers. */
  predicate IsInInts(c: Cell, ns: seq<int>)
  {
    match c
    case Int(i) => i in ns
    case Num(r) => r.Floor as real == r && r.Floor in ns
    case _ => false
  }

  /** pandas' `isin` against a list of strings: only string cells match. */
  predicate IsInTexts(c: Cell, ts: seq<string>)
  {
    c.Text? && c.s in ts
  }

  lemma IsInIntsMeansEqualsSome(c: Cell, ns: seq<int>)
    ensures IsInInts(c, ns) <==> exists k :: 0 <= k < |ns| && EqualsInt(c, ns[k])
  {
    if c.Num? && (exists k :: 0 <= k < |ns| && EqualsInt(c, ns[k])) {
      var k :| 0 <= k < |ns| && EqualsInt(c, ns[k]);
      assert c.r == ns[k] as real;
      assert c.r.Floor == ns[k];
    }
  }

  /** Python's `int(x)` and numpy's `astype(int)` on a float: truncation
      toward zero. */
  function Trunc(r: real): (i: int)
    ensures r >= 0.0 ==> i as real <= r < i as real + 1.0
    ensures r < 0.0 ==> i as real - 1.0 < r <= i as real
  {
    if r >= 0.0 then r.Floor else -((-r).Floor)
  }

  /** `int(x)` of a numeric cell. */
  function IntOf(c: Cell): int
    requires c.Int? || c.Num?
  {
    if c.Int? then c.i else Trunc(c.r)
  }

  /** A Qt model index: invalid, or a row and a column. */
  datatype ModelIndex = InvalidIndex | At(row: nat, column: nat)

  /** The Qt item roles the models distinguish. */
  datatype Role = DisplayRole | ToolTipRole | BackgroundRole | CheckStateRole | OtherRole

  /** A named column of cells. */
  datatype Column<K> = Column(key: K, cells: seq<Cell>)

  /** A data frame, column by column, with `height` rows. */
  datatype Grid<K> = Grid(columns: seq<Column<K>>, height: nat) {
    /** Every column holds one cell per row. */
    predicate Valid()
    {
      forall c | 0 <= c < |columns| :: |columns[c].cells| == height
    }
  }

  /** The position of the first occurrence of `x` in `s`, Python's `list.index`
      (`None` where Python raises ValueError). */
  function IndexOf<T(==)>(s: seq<T>, x: T): (r: Option<nat>)
    ensures r.Some? ==> r.value < |s| && s[r.value] == x && x !in s[..r.value]
    ensures r.None? <==> x !in s
  {
    if |s| == 0 then None
    else if s[0] == x then Some(0)
    else
      match IndexOf(s[1..], x)
      case None => None
      case Some(i) =>
        assert s[..i + 1] == [s[0]] + s[1..][..i];
        Some(i + 1)
  }

  function KeysOf<K>(cols: seq<Column<K>>): (ks: seq<K>)
    ensures |ks| == |cols| && forall c | 0 <= c < |cols| :: ks[c] == cols[c].key
  {
    seq(|cols|, c requires 0 <= c < |cols| => cols[c].key)
  }

  /** The position of the first column with the given key, the label lookup
      of a data frame whose labels are unique. */
  function FindKey<K(==)>(cols: seq<Column<K>>, key: K): (r: Option<nat>)
    ensures r.Some? ==> r.value < |cols| && cols[r.value].key == key
    ensures r.Some? ==> forall c | 0 <= c < r.value :: cols[c].key != key
    ensures r.None? ==> forall c | 0 <= c < |cols| :: cols[c].key != key
  {
    if |cols| == 0 then None
    else if cols[0].key == key then Some(0)
    else
      match FindKey(cols[1..], key)
      case None => None
      case Some(i) =>
        assert forall c | 1 <= c < i + 1 :: cols[c] == cols[1..][c - 1];
        Some(i + 1)
  }

  /** The first column carrying the key is the one found. */
  lemma FindKeyAt<K>(cols: seq<Column<K>>, key: K, i: nat)
    requires i < |cols| && cols[i].key == key
    requires forall c | 0 <= c < i :: cols[c].key != key
    ensures FindKey(cols, key) == Some(i)
  {
  }

  /** Number of occurrences of `x` in `s`, Python's `list.count`. */
  function Count<T(==)>(s: seq<T>, x: T): nat
  {
    if |s| == 0 then 0 else Count(s[..|s| - 1], x) + (if s[|s| - 1] == x then 1 else 0)
  }

  lemma {:induction false} CountPositive<T>(s: seq<T>, x: T)
    ensures Count(s, x) > 0 <==> x in s
  {
    if |s| > 0 {
      CountPositive(s[..|s| - 1], x);
      assert s == s[..|s| - 1] + [s[|s| - 1]];
    }
  }

  lemma {:induction false} CountConcat<T>(a: seq<T>, b: seq<T>, x: T)
    ensures Count(a + b, x) == Count(a, x) + Count(b, x)
    decreases |b|
  {
    if |b| == 0 {
      assert a + b == a;
    } else {
      assert (a + b)[..|a + b| - 1] == a + b[..|b| - 1];
      CountConcat(a, b[..|b| - 1], x);
    }
  }

  // ---------------------------------------------------------------------
  // Decimal rendering of integers (Python's str(n) and '{:d}'.format(n))

  function DigitChar(d: nat): char
    requires d < 10
  {
    (48 + d) as char
  }

  function NatToString(n: nat): (s: string)
    ensures |s| >= 1
    ensures (|s| == 1) == (n < 10)
    ensures forall k | 0 <= k < |s| :: '0' <= s[k] <= '9'
  {
    if n < 10 then [DigitChar(n)] else NatToString(n / 10) + [DigitChar(n % 10)]
  }

  function IntToString(i: int): (s: string)
    ensures |s| >= 1
    ensures forall k | 0 <= k < |s| :: s[k] == '-' || '0' <= s[k] <= '9'
  {
    if i < 0 then "-" + NatToString(-i) else NatToString(i)
  }

  /** Different numbers have different decimal forms. */
  lemma {:induction false} NatToStringInjective(a: nat, b: nat)
    requires NatToString(a) == NatToString(b)
    ensures a == b
    decreases a
  {
    var sa, sb := NatToString(a), NatToString(b);
    if a >= 10 && b >= 10 {
      assert sa[..|sa| - 1] == NatToString(a / 10);
      assert sb[..|sb| - 1] == NatToString(b / 10);
      NatToStringInjective(a / 10, b / 10);
      assert DigitChar(a % 10) == sa[|sa| - 1] == sb[|sb| - 1] == DigitChar(b % 10);
    } else if a < 10 && b < 10 {
      assert DigitChar(a) == sa[0] == sb[0] == DigitChar(b);
    }
  }

  lemma IntToStringInjective(a: int, b: int)
    requires IntToString(a) == IntToString(b)
    ensures a == b
  {
    var sa, sb := IntToString(a), IntToString(b);
    assert a < 0 <==> sa[0] == '-';
    assert b < 0 <==> sb[0] == '-';
    if a < 0 {
      assert sa[1..] == NatToString(-a) && sb[1..] == NatToString(-b);
      NatToStringInjective(-a, -b);
    } else {
      NatToStringInjective(a, b);
    }
  }

  /** The blanks Python's `int()` and `float()` strip around a number: the
      six ASCII blanks and the non-ASCII Unicode whitespace characters.
      The ASCII separators U+001C to U+001F are not among them. */
  predicate IsSpace(c: char)
  {
    c == ' ' || c == '\t' || c == '\n' || c == '\r' || c == '\U{000B}' || c == '\U{000C}'
    || c == '\U{0085}' || c == '\U{00A0}' || c == '\U{1680}'
    || ('\U{2000}' <= c <= '\U{200A}')
    || c == '\U{2028}' || c == '\U{2029}' || c == '\U{202F}' || c == '\U{205F}' || c == '\U{3000}'
  }

  function Strip(s: string): (r: string)
    ensures |r| <= |s|
    ensures |r| > 0 ==> !IsSpace(r[0]) && !IsSpace(r[|r| - 1])
    decreases |s|
  {
    if |s| > 0 && IsSpace(s[0]) then Strip(s[1..])
    else if |s| > 0 && IsSpace(s[|s| - 1]) then Strip(s[..|s| - 1])
    else s
  }

  predicate IsDigits(s: string)
  {
    |s| > 0 && forall k | 0 <= k < |s| :: '0' <= s[k] <= '9'
  }

  /** The number a string of decimal digits spells. */
  function DigitsValue(s: string): nat
    requires forall k | 0 <= k < |s| :: '0' <= s[k] <= '9'
  {
    if |s| == 0 then 0
    else DigitsValue(s[..|s| - 1]) * 10 + (s[|s| - 1] as int - '0' as int)
  }

  /** An optional sign, then decimal digits. */
  function SignedDigits(t: string): Option<int>
  {
    var negative := |t| > 0 && t[0] == '-';
    var u := if |t| > 0 && (t[0] == '+' || t[0] == '-') then t[1..] else t;
    if IsDigits(u) then
      var v: int := DigitsValue(u);
      Some(if negative then -v else v)
    else None
  }

  /** Python's `int(s)` on a string: surrounding blanks, an optional sign,
      then decimal digits; None where Python raises ValueError. */
  function ParseInt(s: string): Option<int>
  {
    SignedDigits(Strip(s))
  }

  lemma {:induction false} DigitsOfNat(n: nat)
    ensures DigitsValue(NatToString(n)) == n
  {
    var s := NatToString(n);
    if n >= 10 {
      DigitsOfNat(n / 10);
      assert s[..|s| - 1] == NatToString(n / 10);
    }
  }

  lemma StripUnblanked(s: string)
    requires |s| > 0 && !IsSpace(s[0]) && !IsSpace(s[|s| - 1])
    ensures Strip(s) == s
  {
  }

  /** Blanks on either side of a word are stripped, and nothing else is. */
  lemma {:induction false} StripPadded(p: string, w: string, q: string)
    requires |w| > 0 && !IsSpace(w[0]) && !IsSpace(w[|w| - 1])
    requires forall k | 0 <= k < |p| :: IsSpace(p[k])
    requires forall k | 0 <= k < |q| :: IsSpace(q[k])
    ensures Strip(p + w + q) == w
    decreases |p| + |q|
  {
    var s := p + w + q;
    if |p| > 0 {
      assert IsSpace(s[0]);
      assert s[1..] == p[1..] + w + q;
      StripPadded(p[1..], w, q);
    } else if |q| > 0 {
      assert s == w + q;
      assert !IsSpace(s[0]) && IsSpace(s[|s| - 1]);
      assert s[..|s| - 1] == [] + w + q[..|q| - 1];
      StripPadded([], w, q[..|q| - 1]);
    } else {
      assert s == w;
      StripUnblanked(w);
    }
  }

  lemma StripRendered(i: int)
    ensures Strip(IntToString(i)) == IntToString(i)
  {
    StripUnblanked(IntToString(i));
  }

  lemma SignedDigitsNat(n: nat)
    ensures SignedDigits(NatToString(n)) == Some(n)
  {
    var s := NatToString(n);
    DigitsOfNat(n);
    assert s[0] != '-' && s[0] != '+';
  }

  lemma SignedDigitsNegative(n: nat)
    ensures SignedDigits("-" + NatToString(n)) == Some(0 - n)
  {
    var u := NatToString(n);
    var s := "-" + u;
    assert |s| > 0 && s[0] == '-' && s[1..] == u;
    assert IsDigits(u) && DigitsValue(u) == n by { DigitsOfNat(n); }
  }

  lemma SignedDigitsRendered(i: int)
    ensures SignedDigits(IntToString(i)) == Some(i)
  {
    if i < 0 {
      SignedDigitsNegative(-i);
    } else {
      SignedDigitsNat(i);
    }
  }

  /** Parsing undoes decimal rendering: `int(str(i)) == i`. */
  lemma ParseRendered(i: int)
    ensures ParseInt(IntToString(i)) == Some(i)
  {
    StripRendered(i);
    SignedDigitsRendered(i);
  }

  /** Blanks around a rendered integer do not change what `int()` reads:
      `int('\xa05 ')` is 5. */
  lemma ParsePadded(p: string, i: int, q: string)
    requires forall k | 0 <= k < |p| :: IsSpace(p[k])
    requires forall k | 0 <= k < |q| :: IsSpace(q[k])
    ensures ParseInt(p + IntToString(i) + q) == Some(i)
  {
    StripPadded(p, IntToString(i), q);
    SignedDigitsRendered(i);
  }

  /** A float holding an integer converts to that integer. */
  lemma TruncIntegral(r: real)
    requires r.Floor as real == r
    ensures Trunc(r) as real == r
  {
    var n := r.Floor;
    if r < 0.0 {
      assert -r == (-n) as real;
      assert (-r).Floor == -n;
    }
  }

  /** `astype(int)` on one cell: integers stay, floats are truncated, strings
      are parsed; NaN and other strings raise. */
  function CastInt(c: Cell): (r: Option<int>)
    ensures c.Int? ==> r == Some(c.i)
    ensures c.Num? ==> r == Some(Trunc(c.r)) && (c.r.Floor as real == c.r ==> r.value as real == c.r)
    ensures c.Text? ==> r == ParseInt(c.s)
    ensures c.Empty? ==> r.None?
  {
    match c
    case Empty => None
    case Int(i) => Some(i)
    case Num(r) =>
      assert r.Floor as real == r ==> Trunc(r) as real == r by {
        if r.Floor as real == r { TruncIntegral(r); }
      }
      Some(Trunc(r))
    case Text(s) => ParseInt(s)
  }

  // ---------------------------------------------------------------------
  // numpy's nanmean

  predicate AllNumeric(cs: seq<Cell>)
  {
    forall k | 0 <= k < |cs| :: !cs[k].Text?
  }

  /** How many cells hold a number. */
  function PresentCount(cs: seq<Cell>): nat
  {
    if |cs| == 0 then 0 else (if ValueOf(cs[0]).Some? then 1 else 0) + PresentCount(cs[1..])
  }

  /** The sum of the numbers the cells hold. */
  function PresentSum(cs: seq<Cell>): real
  {
    if |cs| == 0 then 0.0
    else (match ValueOf(cs[0]) case Some(v) => v case None => 0.0) + PresentSum(cs[1..])
  }

  /** Outcome of `np.nanmean`: a mean (`None` standing for NaN), or the
      TypeError numpy raises when a string reaches it. */
  datatype Mean = Mean(value: Option<real>) | TypeError

  lemma {:induction false} PresentCountZero(cs: seq<Cell>)
    requires AllNumeric(cs)
    ensures PresentCount(cs) == 0 <==> forall k | 0 <= k < |cs| :: cs[k].Empty?
  {
    if |cs| > 0 {
      assert AllNumeric(cs[1..]) by {
        forall k | 0 <= k < |cs[1..]| ensures !cs[1..][k].Text? { assert cs[1..][k] == cs[k + 1]; }
      }
      PresentCountZero(cs[1..]);
      if forall k | 0 <= k < |cs[1..]| :: cs[1..][k].Empty? {
        assert forall k | 1 <= k < |cs| :: cs[k].Empty? by {
          forall k | 1 <= k < |cs| ensures cs[k].Empty? { assert cs[k] == cs[1..][k - 1]; }
        }
      }
    }
  }

  /** np.nanmean over the cells: NaN when no cell holds a number, otherwise
      the exact mean of the numbers, skipping NaN. */
  function NanMean(cs: seq<Cell>): (m: Mean)
    ensures m.TypeError? <==> !AllNumeric(cs)
    ensures m.Mean? ==> (m.value.None? <==> forall k | 0 <= k < |cs| :: cs[k].Empty?)
  {
    if !AllNumeric(cs) then TypeError
    else
      PresentCountZero(cs);
      if PresentCount(cs) == 0 then Mean(None)
      else Mean(Some(PresentSum(cs) / PresentCount(cs) as real))
  }

  lemma {:induction false} PresentConcat(a: seq<Cell>, b: seq<Cell>)
    ensures PresentCount(a + b) == PresentCount(a) + PresentCount(b)
    ensures PresentSum(a + b) == PresentSum(a) + PresentSum(b)
  {
    if |a| > 0 {
      assert (a + b)[1..] == a[1..] + b;
      PresentConcat(a[1..], b);
    } else {
      assert a + b == b;
    }
  }

  lemma AllNumericConcat(a: seq<Cell>, b: seq<Cell>)
    ensures AllNumeric(a + b) <==> AllNumeric(a) && AllNumeric(b)
  {
    if AllNumeric(a) && AllNumeric(b) {
      forall k | 0 <= k < |a + b| ensures !(a + b)[k].Text? {
        if k < |a| { assert (a + b)[k] == a[k]; } else { assert (a + b)[k] == b[k - |a|]; }
      }
    }
    if AllNumeric(a + b) {
      forall k | 0 <= k < |a| ensures !a[k].Text? { assert (a + b)[k] == a[k]; }
      forall k | 0 <= k < |b| ensures !b[k].Text? { assert (a + b)[|a| + k] == b[k]; }
    }
  }

  /** A NaN anywhere among the cells changes nothing in the mean. */
  lemma NanMeanSkipsMissing(a: seq<Cell>, b: seq<Cell>)
    ensures NanMean(a + [Empty] + b) == NanMean(a + b)
  {
    PresentConcat(a, [Empty]);
    PresentConcat(a + [Empty], b);
    PresentConcat(a, b);
    assert PresentCount([Empty]) == 0 && PresentSum([Empty]) == 0.0 by {
      assert [Empty][1..] == [];
    }
    AllNumericConcat(a, [Empty]);
    AllNumericConcat(a + [Empty], b);
    AllNumericConcat(a, b);
  }

  /** The mean of two cells, numpy's `nanmean` along a row of two columns:
      a string among them raises, otherwise the present values are averaged. */
  lemma NanMeanOfTwo(x: Cell, y: Cell)
    ensures NanMean([x, y]).TypeError? <==> x.Text? || y.Text?
    ensures !x.Text? && !y.Text? ==> NanMean([x, y]) == Mean(
      match (ValueOf(x), ValueOf(y))
      case (Some(u), Some(v)) => Some((u + v) / 2.0)
      case (Some(u), None) => Some(u)
      case (None, Some(v)) => Some(v)
      case (None, None) => None)
  {
    var cs := [x, y];
    assert cs[0] == x && cs[1] == y;
    if x.Text? || y.Text? {
      return;
    }
    assert cs[1..] == [y] && [y][1..] == [];
    assert AllNumeric(cs);
    var px, py := ValueOf(x), ValueOf(y);
    var cx: nat, cy: nat := if px.Some? then 1 else 0, if py.Some? then 1 else 0;
    var sx, sy := (if px.Some? then px.value else 0.0), (if py.Some? then py.value else 0.0);
    assert [y][0] == y && cs[0] == x;
    assert PresentCount([y]) == cy + PresentCount([y][1..]) && PresentSum([y]) == sy + PresentSum([y][1..]);
    assert PresentCount(cs) == cx + cy && PresentSum(cs) == sx + sy;
    PresentCountZero(cs);
    if cx + cy != 0 {
      assert NanMean(cs) == Mean(Some((sx + sy) / (cx + cy) as real));
      match (px, py)
      case (Some(u), Some(v)) =>
        assert cx + cy == 2 && sx + sy == u + v;
        assert (sx + sy) / (cx + cy) as real == (u + v) / 2.0;
      case (Some(u), None) =>
        assert (sx + sy) / (cx + cy) as real == u / 1.0 == u;
        assert NanMean(cs) == Mean(Some(u));
      case (None, Some(v)) =>
        assert (sx + sy) / (cx + cy) as real == v / 1.0 == v;
        assert NanMean(cs) == Mean(Some(v));
      case (None, None) =>
    }
  }

  lemma Distribute(x: real, n: real)
    ensures x * (n + 1.0) == x * n + x
  {
  }

  lemma {:induction false} PresentSumAtLeast(cs: seq<Cell>, lo: real)
    requires forall k | 0 <= k < |cs| :: ValueOf(cs[k]).Some? ==> lo <= ValueOf(cs[k]).value
    ensures lo * PresentCount(cs) as real <= PresentSum(cs)
  {
    if |cs| > 0 {
      var rest := cs[1..];
      assert forall k | 0 <= k < |rest| :: rest[k] == cs[k + 1];
      PresentSumAtLeast(rest, lo);
      Distribute(lo, PresentCount(rest) as real);
    }
  }

  lemma {:induction false} PresentSumAtMost(cs: seq<Cell>, hi: real)
    requires forall k | 0 <= k < |cs| :: ValueOf(cs[k]).Some? ==> ValueOf(cs[k]).value <= hi
    ensures PresentSum(cs) <= hi * PresentCount(cs) as real
  {
    if |cs| > 0 {
      var rest := cs[1..];
      assert forall k | 0 <= k < |rest| :: rest[k] == cs[k + 1];
      PresentSumAtMost(rest, hi);
      Distribute(hi, PresentCount(rest) as real);
    }
  }

  lemma MultiplierSign(x: real, n: real)
    requires n > 0.0 && x * n >= 0.0
    ensures x >= 0.0
  {
  }

  lemma DivisionBounds(s: real, n: real, lo: real, hi: real)
    requires n > 0.0 && lo * n <= s <= hi * n
    ensures lo <= s / n <= hi
  {
    var m := s / n;
    assert m * n == s;
    assert (m - lo) * n == s - lo * n;
    assert (hi - m) * n == hi * n - s;
    MultiplierSign(m - lo, n);
    MultiplierSign(hi - m, n);
  }

  lemma RatioBounds(cs: seq<Cell>, lo: real, hi: real)
    requires forall k | 0 <= k < |cs| :: ValueOf(cs[k]).Some? ==> lo <= ValueOf(cs[k]).value <= hi
    requires PresentCount(cs) != 0
    ensures lo <= PresentSum(cs) / PresentCount(cs) as real <= hi
  {
    PresentSumAtLeast(cs, lo);
    PresentSumAtMost(cs, hi);
    DivisionBounds(PresentSum(cs), PresentCount(cs) as real, lo, hi);
  }

  /** A mean lies between the smallest and the largest number it averages. */
  lemma NanMeanBounded(cs: seq<Cell>, lo: real, hi: real)
    requires forall k | 0 <= k < |cs| :: ValueOf(cs[k]).Some? ==> lo <= ValueOf(cs[k]).value <= hi
    requires NanMean(cs).Mean? && NanMean(cs).value.Some?
    ensures lo <= NanMean(cs).value.value <= hi
  {
    assert PresentCount(cs) != 0;
    RatioBounds(cs, lo, hi);
  }

  /** The example of a missing value between two numbers. */
  lemma NanMeanExample()
    ensures NanMean([Num(2.0), Empty, Num(4.0)]) == Mean(Some(3.0))
  {
    var cs := [Num(2.0), Empty, Num(4.0)];
    assert cs[1..] == [Empty, Num(4.0)];
    assert cs[1..][1..] == [Num(4.0)];
    assert cs[1..][1..][1..] == [];
  }
}
