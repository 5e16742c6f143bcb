/**
 * The table updater `write_data(wb, ym, data)`: the worksheet rows below the
 * header, the upsert of the row keyed by "YYYY-MM", the rounded sector
 * cells, the Top #1 / Top #2 ranking with its -1e9 / -1e10 sentinels, and the
 * average column.
 */
module Sheet {
  import opened Optional
  import opened Sectors
  import Returns

  /** A worksheet cell: empty (`None`), a string, or a number. */
  datatype Cell = Blank | Text(s: string) | Num(n: real)

  /** A sheet row; columns past its end read as `Blank`. */
  type Row = seq<Cell>

  function Max(a: int, b: int): int { if a < b then b else a }

  /** `ws.cell(row, c + 1).value`. */
  function CellAt(row: Row, c: nat): Cell { if c < |row| then row[c] else Blank }

  /**
   * The cell after `ws.cell(row, c + 1, value=v)` when it held `prev`: the
   * call assigns only a value that is not `None`, so a `Blank` write keeps
   * what the cell held.
   */
  function Written(prev: Cell, v: Cell): (c: Cell)
    ensures v == Blank ==> c == prev
    ensures v != Blank ==> c == v
    ensures c == Blank <==> prev == Blank && v == Blank
  {
    if v == Blank then prev else v
  }

  /**
   * `ws.cell(row, c + 1, value=v)`: the cell is created (the row grows with
   * blanks when it is too short) and takes `v` unless `v` is `Blank`.
   */
  function Put(row: Row, c: nat, v: Cell): (r: Row)
    ensures |r| == Max(|row|, c + 1)
    ensures forall k :: 0 <= k < |r| ==> r[k] == if k == c then Written(CellAt(row, k), v) else CellAt(row, k)
  {
    if c < |row| then row[c := Written(row[c], v)] else row + seq(c - |row|, _ => Blank) + [v]
  }

  // ---------------------------------------------------------------- rounding

  /**
   * `round(x, 2)`: the nearest multiple of 0.01, ties to the even cent. The
   * result is a whole number of cents, at most half a cent from `x`.
   */
  function Round2(x: real): (r: real)
    ensures -0.005 <= r - x <= 0.005
    ensures (r * 100.0).Floor as real == r * 100.0
  {
    var scaled := x * 100.0;
    var f := scaled.Floor;
    var frac := scaled - f as real;
    var n := if frac < 0.5 then f else if frac > 0.5 then f + 1 else if f % 2 == 0 then f else f + 1;
    n as real / 100.0
  }

  // ------------------------------------------------------------ sector cells

  /** The cell for one sector: `None if v is None else round(v*100, 2)`. */
  function SectorCell(v: Option<real>): (c: Cell)
    ensures c == Blank <==> v.None?
    ensures v.Some? ==> c == Num(Round2(v.value * 100.0))
  {
    match v
    case None => Blank
    case Some(x) => Num(Round2(x * 100.0))
  }

  // ----------------------------------------------------------------- ranking

  /** `-1e9`: the stand-in for a missing sector in `vals`. */
  const Missing: real := -1000000000.0

  /** `-1e10`: written over `vals[top1]` while Top #2 is picked. */
  const Displaced: real := -10000000000.0

  function RankValue(v: Option<real>): real { if v.None? then Missing else v.value }

  /** `vals`: the present returns, with `Missing` for the missing ones. */
  function RankValues(d: seq<Option<real>>): (s: seq<real>)
    ensures |s| == |d| && forall i :: 0 <= i < |d| ==> s[i] == RankValue(d[i])
  {
    seq(|d|, i requires 0 <= i < |d| => RankValue(d[i]))
  }

  /** `k` is the first index holding the largest element of `s`. */
  predicate IsFirstMax(s: seq<real>, k: nat)
  {
    k < |s| && (forall j :: 0 <= j < |s| ==> s[j] <= s[k]) && (forall j :: 0 <= j < k ==> s[j] < s[k])
  }

  /** `max(range(len(s)), key=lambda i: s[i])`: a left-to-right scan that moves only on a strictly larger value. */
  function FirstArgMax(s: seq<real>): (k: nat)
    requires |s| > 0
    ensures k < |s|
  {
    if |s| == 1 then 0
    else
      var k := FirstArgMax(s[..|s| - 1]);
      if s[|s| - 1] > s[k] then |s| - 1 else k
  }

  lemma {:induction false} FirstArgMaxIsFirstMax(s: seq<real>)
    requires |s| > 0
    ensures IsFirstMax(s, FirstArgMax(s))
  {
    if |s| > 1 {
      var front := s[..|s| - 1];
      FirstArgMaxIsFirstMax(front);
      assert forall j :: 0 <= j < |front| ==> front[j] == s[j];
    }
  }

  /** There is only one first index of the maximum. */
  lemma FirstMaxUnique(s: seq<real>, a: nat, b: nat)
    requires IsFirstMax(s, a) && IsFirstMax(s, b)
    ensures a == b
  {
    var sa, sb := s[a], s[b];
  }

  /** Top #1: the sector picked first. */
  function Top1(d: seq<Option<real>>): (t: nat)
    requires |d| == NumSectors
    ensures t < NumSectors
  {
    FirstArgMax(RankValues(d))
  }

  /** Top #2: the pick after `vals[top1]` is overwritten with `Displaced`. */
  function Top2(d: seq<Option<real>>): (t: nat)
    requires |d| == NumSectors
    ensures t < NumSectors
  {
    FirstArgMax(RankValues(d)[Top1(d) := Displaced])
  }

  /**
   * Top #1 is the first index of the largest value; Top #2 is the first
   * index of the largest value once Top #1's entry is displaced.
   */
  lemma TopPicks(d: seq<Option<real>>)
    requires |d| == NumSectors
    ensures IsFirstMax(RankValues(d), Top1(d))
    ensures IsFirstMax(RankValues(d)[Top1(d) := Displaced], Top2(d))
  {
    FirstArgMaxIsFirstMax(RankValues(d));
    FirstArgMaxIsFirstMax(RankValues(d)[Top1(d) := Displaced]);
  }

  /**
   * When every present return is above the `Displaced` sentinel, Top #2
   * differs from Top #1 and is the first maximum among all other sectors.
   */
  lemma TopTwoDistinct(d: seq<Option<real>>)
    requires |d| == NumSectors
    requires forall i :: 0 <= i < |d| && d[i].Some? ==> d[i].value > Displaced
    ensures var s, t1, t2 := RankValues(d), Top1(d), Top2(d);
      && t1 != t2
      && s[t2] <= s[t1]
      && (forall j :: 0 <= j < |s| && j != t1 ==> s[j] <= s[t2])
      && (forall j :: 0 <= j < t2 && j != t1 ==> s[j] < s[t2])
  {
    TopPicks(d);
    var s, t1 := RankValues(d), Top1(d);
    var s' := s[t1 := Displaced];
    var other := if t1 == 0 then 1 else 0;
    assert s'[other] > Displaced;
    assert forall j :: 0 <= j < |s| && j != t1 ==> s'[j] == s[j];
  }

  /**
   * A missing sector never outranks a present return above -1e9: if such a
   * return exists Top #1 is present, and if one exists besides Top #1 then
   * Top #2 is present too (and differs from Top #1).
   */
  lemma PresentOutranksMissing(d: seq<Option<real>>, i: nat)
    requires |d| == NumSectors && i < |d|
    requires d[i].Some? && d[i].value > Missing
    ensures d[Top1(d)].Some?
    ensures i != Top1(d) ==> d[Top2(d)].Some? && Top2(d) != Top1(d)
  {
    TopPicks(d);
    var s, t1 := RankValues(d), Top1(d);
    if i != t1 {
      assert s[t1 := Displaced][i] == d[i].value;
    }
  }

  /** With every sector missing the sentinels tie: Top #1 is sector 0 and Top #2 is sector 1. */
  lemma AllMissingPicks(d: seq<Option<real>>)
    requires |d| == NumSectors
    requires forall i :: 0 <= i < |d| ==> d[i].None?
    ensures Top1(d) == 0 && Top2(d) == 1
  {
    TopPicks(d);
    var s := RankValues(d);
    assert IsFirstMax(s, 0);
    FirstMaxUnique(s, 0, Top1(d));
    var s' := s[0 := Displaced];
    assert IsFirstMax(s', 1);
    FirstMaxUnique(s', 1, Top2(d));
  }

  // ----------------------------------------------------------------- average

  /** `clean`: the present values, in sector order; empty exactly when every sector is missing. */
  function Present(d: seq<Option<real>>): (xs: seq<real>)
    ensures |xs| <= |d|
    ensures xs == [] <==> forall i :: 0 <= i < |d| ==> d[i].None?
  {
    if d == [] then []
    else
      var front := d[..|d| - 1];
      assert forall i :: 0 <= i < |front| ==> front[i] == d[i];
      var rest := Present(front);
      match d[|d| - 1]
      case None => rest
      case Some(v) => rest + [v]
  }

  /** Every present value is in `clean`, and everything in `clean` is a present value. */
  lemma {:induction false} PresentMembers(d: seq<Option<real>>)
    ensures forall i :: 0 <= i < |d| && d[i].Some? ==> d[i].value in Present(d)
    ensures forall k :: 0 <= k < |Present(d)| ==> exists i :: 0 <= i < |d| && d[i] == Some(Present(d)[k])
  {
    if d != [] {
      var front := d[..|d| - 1];
      PresentMembers(front);
      assert forall i :: 0 <= i < |front| ==> front[i] == d[i];
      var xs, rest := Present(d), Present(front);
      assert xs == if d[|d| - 1].Some? then rest + [d[|d| - 1].value] else rest;
      forall k | 0 <= k < |xs|
        ensures exists i :: 0 <= i < |d| && d[i] == Some(xs[k])
      {
        if k < |rest| {
          var i :| 0 <= i < |front| && front[i] == Some(rest[k]);
          assert d[i] == Some(xs[k]);
        } else {
          assert d[|d| - 1] == Some(xs[k]);
        }
      }
    } else {
      assert Present(d) == [];
    }
  }

  /** `clean` of a single sector: its value when present, nothing when missing. */
  lemma PresentOne(x: Option<real>)
    ensures Present([x]) == if x.Some? then [x.value] else []
  {
    assert [x][..0] == [];
  }

  /**
   * `clean` of two stretches of sectors is the `clean` of the first followed
   * by that of the second; with `PresentOne` this fixes `clean` exactly,
   * repeats and order included.
   */
  lemma {:induction false} PresentAppend(a: seq<Option<real>>, b: seq<Option<real>>)
    ensures Present(a + b) == Present(a) + Present(b)
    decreases |b|
  {
    if b == [] {
      assert a + b == a;
    } else {
      var b' := b[..|b| - 1];
      assert (a + b)[..|a + b| - 1] == a + b';
      assert (a + b)[|a + b| - 1] == b[|b| - 1];
      PresentAppend(a, b');
    }
  }

  function Sum(xs: seq<real>): real
  {
    if xs == [] then 0.0 else Sum(xs[..|xs| - 1]) + xs[|xs| - 1]
  }

  /** `sum(clean) / len(clean)`. */
  function Mean(xs: seq<real>): real
    requires xs != []
  {
    Sum(xs) / |xs| as real
  }

  /**
   * The average column: `round(mean(clean)*100, 2) if clean else None`, the
   * mean of the present returns in percent, missing exactly when every
   * sector is missing.
   */
  function AverageCell(d: seq<Option<real>>): (c: Cell)
    ensures c == Blank <==> forall i :: 0 <= i < |d| ==> d[i].None?
    ensures c != Blank ==> Present(d) != [] && c == Num(Round2(Mean(Present(d)) * 100.0))
  {
    var clean := Present(d);
    if clean == [] then Blank else Num(Round2(Mean(clean) * 100.0))
  }

  lemma {:induction false} SumBounds(xs: seq<real>, lo: real, hi: real)
    requires forall k :: 0 <= k < |xs| ==> lo <= xs[k] <= hi
    ensures lo * |xs| as real <= Sum(xs) <= hi * |xs| as real
  {
    if xs != [] {
      SumBounds(xs[..|xs| - 1], lo, hi);
    }
  }

  lemma MeanBounded(xs: seq<real>, lo: real, hi: real)
    requires xs != [] && forall k :: 0 <= k < |xs| ==> lo <= xs[k] <= hi
    ensures lo <= Mean(xs) <= hi
  {
    SumBounds(xs, lo, hi);
    Returns.QuotientBounds(Sum(xs), |xs| as real, lo, hi);
  }

  /**
   * When every present return lies between `lo` and `hi`, so does the mean
   * of `clean`, and the average cell is within half a cent of the range in
   * percent.
   */
  lemma AverageBounded(d: seq<Option<real>>, lo: real, hi: real)
    requires forall i :: 0 <= i < |d| && d[i].Some? ==> lo <= d[i].value <= hi
    ensures Present(d) != [] ==> lo <= Mean(Present(d)) <= hi
    ensures AverageCell(d).Num? ==> lo * 100.0 - 0.005 <= AverageCell(d).n <= hi * 100.0 + 0.005
  {
    var xs := Present(d);
    PresentMembers(d);
    if xs != [] {
      forall k | 0 <= k < |xs|
        ensures lo <= xs[k] <= hi
      {
        var i :| 0 <= i < |d| && d[i] == Some(xs[k]);
      }
      MeanBounded(xs, lo, hi);
    }
  }

  /** Missing values appended after the others add nothing to `clean`. */
  lemma {:induction false} PresentSkipsMissing(d: seq<Option<real>>, e: seq<Option<real>>)
    requires forall k :: 0 <= k < |e| ==> e[k].None?
    ensures Present(d + e) == Present(d)
  {
    if e != [] {
      var e' := e[..|e| - 1];
      assert (d + e)[..|d + e| - 1] == d + e';
      assert (d + e)[|d + e| - 1] == e[|e| - 1];
      PresentSkipsMissing(d, e');
    } else {
      assert d + e == d;
    }
  }

  /** A return of 0.0523 is written as the cell 5.23. */
  lemma SectorCellExample()
    ensures SectorCell(Some(0.0523)) == Num(5.23)
  {
    assert (0.0523 * 100.0 * 100.0).Floor == 523;
  }

  /**
   * Returns 1.0, 3.0 and -2.0 in the first three sectors and the other seven
   * missing: Top #1 is the second sector and Top #2 the first.
   */
  lemma RankingExample()
    ensures var d := [Some(1.0), Some(3.0), Some(-2.0)] + seq(7, _ => None);
      Top1(d) == 1 && Top2(d) == 0
  {
    var d: seq<Option<real>> := [Some(1.0), Some(3.0), Some(-2.0)] + seq(7, _ => None);
    var s := RankValues(d);
    TopPicks(d);
    assert IsFirstMax(s, 1);
    FirstMaxUnique(s, 1, Top1(d));
    assert IsFirstMax(s[1 := Displaced], 0);
    FirstMaxUnique(s[1 := Displaced], 0, Top2(d));
  }

  /** The same returns give the average cell 66.67: the mean 2/3, times 100, rounded. */
  lemma AverageExample()
    ensures AverageCell([Some(1.0), Some(3.0), Some(-2.0)] + seq(7, _ => None)) == Num(66.67)
  {
    var three: seq<Option<real>> := [Some(1.0), Some(3.0), Some(-2.0)];
    PresentSkipsMissing(three, seq(7, _ => None));
    assert three[..2] == [Some(1.0), Some(3.0)] && three[..2][..1] == [Some(1.0)];
    assert Present(three) == [1.0, 3.0, -2.0];
    var xs := [1.0, 3.0, -2.0];
    assert xs[..2] == [1.0, 3.0] && xs[..2][..1] == [1.0];
    assert Sum([1.0]) == 1.0 && Sum([1.0, 3.0]) == 4.0;
    assert Sum(xs) == 2.0;
    assert (2.0 / 3.0 * 100.0 * 100.0).Floor == 6666;
    assert Round2(2.0 / 3.0 * 100.0) == 66.67;
  }

  // ------------------------------------------------------------- filled row

  /** What column `c` of the upserted row holds after `write_data`. */
  function NewCell(row: Row, d: seq<Option<real>>, c: nat): Cell
    requires |d| == NumSectors
  {
    if 2 <= c < 2 + NumSectors then Written(CellAt(row, c), SectorCell(d[c - 2]))
    else if c == 2 + NumSectors then Text(SectorNames[Top1(d)])
    else if c == 3 + NumSectors then Text(SectorNames[Top2(d)])
    else if c == 4 + NumSectors then Written(CellAt(row, c), AverageCell(d))
    else CellAt(row, c)
  }

  /**
   * The row after `write_data` has written it: key and notes kept; a present
   * sector's cell holds its rounded percentage, while a missing sector's
   * cell keeps what it held (a `None` write assigns nothing); the two picks
   * named; the average of the present returns in percent when one is
   * present, and the old average cell kept otherwise; every column past the
   * average kept.
   */
  function FilledRow(row: Row, d: seq<Option<real>>): (r: Row)
    requires |d| == NumSectors
    ensures |r| == Max(|row|, Width)
    ensures CellAt(r, 0) == CellAt(row, 0) && CellAt(r, 1) == CellAt(row, 1)
    ensures forall i :: 0 <= i < NumSectors && d[i].Some? ==> CellAt(r, 2 + i) == Num(Round2(d[i].value * 100.0))
    ensures forall i :: 0 <= i < NumSectors && d[i].None? ==> CellAt(r, 2 + i) == CellAt(row, 2 + i)
    ensures CellAt(r, 2 + NumSectors) == Text(SectorNames[Top1(d)])
    ensures CellAt(r, 3 + NumSectors) == Text(SectorNames[Top2(d)])
    ensures (exists i :: 0 <= i < NumSectors && d[i].Some?) ==>
      Present(d) != [] && CellAt(r, 4 + NumSectors) == Num(Round2(Mean(Present(d)) * 100.0))
    ensures (forall i :: 0 <= i < NumSectors ==> d[i].None?) ==> CellAt(r, 4 + NumSectors) == CellAt(row, 4 + NumSectors)
    ensures forall c :: Width <= c ==> CellAt(r, c) == CellAt(row, c)
  {
    var r := seq(Max(|row|, Width), c requires 0 <= c => NewCell(row, d, c));
    FilledSectors(row, d, r);
    assert r[4 + NumSectors] == NewCell(row, d, 4 + NumSectors);
    FilledAverage(CellAt(row, 4 + NumSectors), d, r[4 + NumSectors]);
    r
  }

  /** The sector columns of a row whose every column is its `NewCell`. */
  lemma FilledSectors(row: Row, d: seq<Option<real>>, r: Row)
    requires |d| == NumSectors && |r| == Max(|row|, Width)
    requires forall c :: 0 <= c < |r| ==> r[c] == NewCell(row, d, c)
    ensures forall i :: 0 <= i < NumSectors && d[i].Some? ==> CellAt(r, 2 + i) == Num(Round2(d[i].value * 100.0))
    ensures forall i :: 0 <= i < NumSectors && d[i].None? ==> CellAt(r, 2 + i) == CellAt(row, 2 + i)
  {
    forall i | 0 <= i < NumSectors
      ensures CellAt(r, 2 + i) == Written(CellAt(row, 2 + i), SectorCell(d[i]))
    {
      assert r[2 + i] == NewCell(row, d, 2 + i);
    }
  }

  /** The average cell `write_data` leaves when the cell held `prev`. */
  lemma FilledAverage(prev: Cell, d: seq<Option<real>>, cell: Cell)
    requires |d| == NumSectors && cell == Written(prev, AverageCell(d))
    ensures (exists i :: 0 <= i < NumSectors && d[i].Some?) ==>
      Present(d) != [] && cell == Num(Round2(Mean(Present(d)) * 100.0))
    ensures (forall i :: 0 <= i < NumSectors ==> d[i].None?) ==> cell == prev
  {
  }

  /** Filling a row a second time with the same data changes nothing. */
  lemma FilledRowIdempotent(row: Row, d: seq<Option<real>>)
    requires |d| == NumSectors
    ensures FilledRow(FilledRow(row, d), d) == FilledRow(row, d)
  {
    var once := FilledRow(row, d);
    var twice := FilledRow(once, d);
    forall c | 0 <= c < |twice|
      ensures twice[c] == once[c]
    {
    }
  }

  /**
   * On the row appended for a new month every sector cell is blank exactly
   * when that sector is missing (never a zero), and the average cell is
   * blank exactly when every sector is missing.
   */
  lemma NewRowFilled(ym: string, d: seq<Option<real>>)
    requires |d| == NumSectors
    ensures var r := FilledRow(NewRow(ym), d);
      && Key(r) == Some(ym) && CellAt(r, 1) == Text("")
      && (forall i :: 0 <= i < NumSectors ==> (CellAt(r, 2 + i) == Blank <==> d[i].None?))
      && (CellAt(r, 4 + NumSectors) == Blank <==> forall i :: 0 <= i < NumSectors ==> d[i].None?)
  {
    var r := FilledRow(NewRow(ym), d);
    forall i | 0 <= i < NumSectors
      ensures CellAt(r, 2 + i) == Blank <==> d[i].None?
    {
      assert r[2 + i] == NewCell(NewRow(ym), d, 2 + i);
    }
    assert r[4 + NumSectors] == NewCell(NewRow(ym), d, 4 + NumSectors);
  }

  // ------------------------------------------------------------------ upsert

  /**
   * `str(cell.value)` of a key cell: a string is its own key and an empty
   * cell reads "None"; numeric cells are not modelled as keys.
   */
  function KeyText(c: Cell): (k: Option<string>)
    ensures k.Some? <==> !c.Num?
    ensures c.Text? ==> k == Some(c.s)
    ensures c == Blank ==> k == Some("None")
  {
    match c
    case Blank => Some("None")
    case Text(s) => Some(s)
    case Num(_) => None
  }

  function Key(row: Row): Option<string> { KeyText(CellAt(row, 0)) }

  predicate Keyed(row: Row, ym: string) { Key(row) == Some(ym) }

  /**
   * `{str(ws.cell(r,1).value): r ...}.get(ym)`: the dictionary keeps the
   * LAST row whose key matches, so the result is that row, or `None`.
   */
  function LastKeyed(rows: seq<Row>, ym: string): (r: Option<nat>)
    ensures r.Some? ==> r.value < |rows| && Keyed(rows[r.value], ym)
    ensures r.Some? ==> forall k :: r.value < k < |rows| ==> !Keyed(rows[k], ym)
    ensures r.None? <==> forall k :: 0 <= k < |rows| ==> !Keyed(rows[k], ym)
  {
    if rows == [] then None
    else if Keyed(rows[|rows| - 1], ym) then Some(|rows| - 1)
    else
      var front := rows[..|rows| - 1];
      assert forall k :: 0 <= k < |front| ==> front[k] == rows[k];
      LastKeyed(front, ym)
  }

  lemma {:induction false} LastKeyedIs(rows: seq<Row>, ym: string, i: nat)
    requires i < |rows| && Keyed(rows[i], ym)
    requires forall k :: i < k < |rows| ==> !Keyed(rows[k], ym)
    ensures LastKeyed(rows, ym) == Some(i)
  {
    if i < |rows| - 1 {
      var front := rows[..|rows| - 1];
      LastKeyedIs(front, ym, i);
    }
  }

  /** The row appended for a new key: `[ym, ""]`, keyed by `ym` and blank past the notes. */
  function NewRow(ym: string): (r: Row)
    ensures Key(r) == Some(ym) && CellAt(r, 1) == Text("")
    ensures forall c :: 2 <= c ==> CellAt(r, c) == Blank
  {
    [Text(ym), Text("")]
  }

  /**
   * The table after `write_data(wb, ym, d)`. An existing key reuses its
   * (last) row and the row count stays; otherwise exactly one row `[ym, ""]`
   * is appended. No other row changes and no key changes.
   */
  function Upserted(rows: seq<Row>, ym: string, d: seq<Option<real>>): (r: seq<Row>)
    requires |d| == NumSectors
    ensures LastKeyed(rows, ym).Some? ==> |r| == |rows|
    ensures LastKeyed(rows, ym).None? ==> |r| == |rows| + 1 && r[|rows|] == FilledRow(NewRow(ym), d)
    ensures forall k :: 0 <= k < |rows| && Some(k) != LastKeyed(rows, ym) ==> r[k] == rows[k]
    ensures forall k :: 0 <= k < |rows| ==> Key(r[k]) == Key(rows[k])
    ensures LastKeyed(r, ym).Some?
  {
    match LastKeyed(rows, ym)
    case Some(i) => rows[i := FilledRow(rows[i], d)]
    case None => rows + [FilledRow(NewRow(ym), d)]
  }

  /** The upsert as `write_data` performs it: append when the key is new, then fill the found row. */
  lemma UpsertedAsUpdate(rows: seq<Row>, ym: string, d: seq<Option<real>>)
    requires |d| == NumSectors
    ensures var found := LastKeyed(rows, ym);
      var base := if found.Some? then rows else rows + [NewRow(ym)];
      var r := if found.Some? then found.value else |rows|;
      r < |base| && Upserted(rows, ym, d) == base[r := FilledRow(base[r], d)]
  {
  }

  /** Upserting the same month with the same data twice leaves the table of a single upsert. */
  lemma UpsertIdempotent(rows: seq<Row>, ym: string, d: seq<Option<real>>)
    requires |d| == NumSectors
    ensures Upserted(Upserted(rows, ym, d), ym, d) == Upserted(rows, ym, d)
  {
    var once := Upserted(rows, ym, d);
    match LastKeyed(rows, ym)
    case Some(i) =>
      LastKeyedIs(once, ym, i);
      FilledRowIdempotent(rows[i], d);
    case None =>
      LastKeyedIs(once, ym, |rows|);
      FilledRowIdempotent(NewRow(ym), d);
  }

  /** A key that had a row before an upsert still has one after it. */
  lemma UpsertKeepsKeyed(rows: seq<Row>, ym: string, d: seq<Option<real>>, other: string)
    requires |d| == NumSectors && LastKeyed(rows, other).Some?
    ensures LastKeyed(Upserted(rows, ym, d), other).Some?
  {
    var j := LastKeyed(rows, other).value;
    assert Keyed(Upserted(rows, ym, d)[j], other);
  }

  /** No two rows carry the same key. */
  predicate UniqueKeys(rows: seq<Row>)
  {
    forall j, k :: 0 <= j < k < |rows| && Key(rows[j]).Some? ==> Key(rows[j]) != Key(rows[k])
  }

  /** An upsert never introduces a duplicate key, so afterwards exactly one row carries `ym`. */
  lemma UpsertKeepsKeysUnique(rows: seq<Row>, ym: string, d: seq<Option<real>>)
    requires |d| == NumSectors && UniqueKeys(rows)
    ensures UniqueKeys(Upserted(rows, ym, d))
    ensures forall k :: 0 <= k < |Upserted(rows, ym, d)| && Keyed(Upserted(rows, ym, d)[k], ym) ==>
      Some(k) == LastKeyed(Upserted(rows, ym, d), ym)
  {
    var r := Upserted(rows, ym, d);
    forall j, k | 0 <= j < k < |r| && Key(r[j]).Some?
      ensures Key(r[j]) != Key(r[k])
    {
      if k == |rows| {
        assert Key(r[k]) == Some(ym);
        assert !Keyed(rows[j], ym);
      }
    }
  }

  // --------------------------------------------------------------- worksheet

  /** Row `row` is row `b` with the first `i` sector cells of `write_data` written. */
  ghost predicate SectorsWritten(row: Row, b: Row, d: seq<Option<real>>, i: nat)
    requires i <= NumSectors == |d|
  {
    && |row| == (if i == 0 then |b| else Max(|b|, 2 + i))
    && forall c :: 0 <= c < |row| ==>
      row[c] == if 2 <= c < 2 + i then Written(CellAt(b, c), SectorCell(d[c - 2])) else CellAt(b, c)
  }

  lemma SectorsWrittenStep(row: Row, b: Row, d: seq<Option<real>>, i: nat)
    requires i < NumSectors == |d| && SectorsWritten(row, b, d, i)
    ensures SectorsWritten(Put(row, 2 + i, SectorCell(d[i])), b, d, i + 1)
  {
    var row' := Put(row, 2 + i, SectorCell(d[i]));
    forall c | 0 <= c < |row'|
      ensures row'[c] == if 2 <= c < 2 + i + 1 then Written(CellAt(b, c), SectorCell(d[c - 2])) else CellAt(b, c)
    {
      if c != 2 + i && c >= |row| {
        assert c >= |b|;
      }
    }
  }

  /** Row `b` once the sector loop of `write_data` has written every sector cell. */
  ghost function WithSectorCells(b: Row, d: seq<Option<real>>): (row: Row)
    requires NumSectors == |d|
    ensures SectorsWritten(row, b, d, NumSectors)
  {
    seq(Max(|b|, 2 + NumSectors), c requires 0 <= c =>
      if 2 <= c < 2 + NumSectors then Written(CellAt(b, c), SectorCell(d[c - 2])) else CellAt(b, c))
  }

  lemma SectorsWrittenComplete(b: Row, d: seq<Option<real>>)
    requires NumSectors == |d|
    ensures var row := WithSectorCells(b, d);
      Put(Put(Put(row, 2 + NumSectors, Text(SectorNames[Top1(d)])),
                    3 + NumSectors, Text(SectorNames[Top2(d)])),
                4 + NumSectors, AverageCell(d)) == FilledRow(b, d)
  {
    var row := WithSectorCells(b, d);
    var r1 := Put(row, 2 + NumSectors, Text(SectorNames[Top1(d)]));
    var r2 := Put(r1, 3 + NumSectors, Text(SectorNames[Top2(d)]));
    var r3 := Put(r2, 4 + NumSectors, AverageCell(d));
    var f := FilledRow(b, d);
    assert |r3| == |f|;
    forall c | 0 <= c < |r3|
      ensures r3[c] == f[c]
    {
      assert f[c] == NewCell(b, d, c);
    }
  }


  /** `wb.active`: the data rows below the header, in sheet order. */
  class Worksheet {
    var rows: seq<Row>

    constructor (initial: seq<Row>)
      ensures rows == initial
    {
      rows := initial;
    }

    /** The dictionary comprehension of `write_data` and its `.get(ym)`. */
    method FindRow(ym: string) returns (found: Option<nat>)
      ensures found == LastKeyed(rows, ym)
    {
      found := None;
      for r := 0 to |rows|
        invariant found == LastKeyed(rows[..r], ym)
      {
        assert rows[..r + 1][..r] == rows[..r];
        if Keyed(rows[r], ym) {
          found := Some(r);
        }
      }
      assert rows[..|rows|] == rows;
    }

    /** `ws.append(cells)`. */
    method Append(cells: Row)
      modifies this
      ensures rows == old(rows) + [cells]
    {
      rows := rows + [cells];
    }

    /** `ws.cell(r, c + 1, value=v)` for data row `r`; a `Blank` value leaves the cell as it was. */
    method SetCell(r: nat, c: nat, v: Cell)
      requires r < |rows|
      modifies this
      ensures rows == old(rows)[r := Put(old(rows)[r], c, v)]
    {
      rows := rows[r := Put(rows[r], c, v)];
    }

    /** `write_data(wb, ym, data)`. */
    method WriteData(ym: string, data: seq<Option<real>>)
      requires |data| == NumSectors
      modifies this
      ensures rows == Upserted(old(rows), ym, data)
    {
      var found := FindRow(ym);
      var r: nat;
      if found.Some? {
        r := found.value;
      } else {
        r := |rows|;
        Append(NewRow(ym));
      }
      UpsertedAsUpdate(old(rows), ym, data);
      FillRow(r, data);
    }

    /** The part of `write_data` after the row is found: its sector, pick and average cells. */
    method FillRow(r: nat, data: seq<Option<real>>)
      requires r < |rows| && |data| == NumSectors
      modifies this
      ensures rows == old(rows)[r := FilledRow(old(rows)[r], data)]
    {
      var vals := WriteSectorCells(r, data);
      var top1, top2 := RankTopTwo(vals);
      SectorsWrittenComplete(old(rows)[r], data);
      SetCell(r, 2 + NumSectors, Text(SectorNames[top1]));
      SetCell(r, 3 + NumSectors, Text(SectorNames[top2]));
      SetCell(r, 4 + NumSectors, AverageCell(data));
    }

    /**
     * The sector loop of `write_data`: each sector's cell in row `r`, and
     * `vals` with `Missing` standing for the missing sectors.
     */
    method WriteSectorCells(r: nat, data: seq<Option<real>>) returns (vals: array<real>)
      requires r < |rows| && |data| == NumSectors
      modifies this
      ensures fresh(vals) && vals[..] == RankValues(data)
      ensures rows == old(rows)[r := WithSectorCells(old(rows)[r], data)]
    {
      ghost var b := rows[r];
      vals := new real[NumSectors];
      for i := 0 to NumSectors
        invariant r < |rows| == |old(rows)| && rows == old(rows)[r := rows[r]]
        invariant SectorsWritten(rows[r], b, data, i)
        invariant forall k :: 0 <= k < i ==> vals[k] == RankValue(data[k])
      {
        var v := data[i];
        SectorsWrittenStep(rows[r], b, data, i);
        SetCell(r, 2 + i, SectorCell(v));
        vals[i] := if v.None? then Missing else v.value;
      }
      assert vals[..] == RankValues(data);
      assert rows[r] == WithSectorCells(b, data);
    }
  }

  /**
   * The ranking step of `write_data`: Top #1 by a first-index maximum scan,
   * then `vals[top1]` is overwritten with `Displaced` for the second scan and
   * restored afterwards, so `vals` ends as it began.
   */
  method RankTopTwo(vals: array<real>) returns (top1: nat, top2: nat)
    requires vals.Length > 0
    modifies vals
    ensures vals[..] == old(vals[..])
    ensures top1 == FirstArgMax(old(vals[..]))
    ensures top2 == FirstArgMax(old(vals[..])[top1 := Displaced])
  {
    top1 := ArgMax(vals);
    var tmp := vals[top1];
    vals[top1] := Displaced;
    top2 := ArgMax(vals);
    vals[top1] := tmp;
  }

  /** `max(range(len(vals)), key=lambda i: vals[i])`. */
  method ArgMax(vals: array<real>) returns (k: nat)
    requires vals.Length > 0
    ensures k == FirstArgMax(vals[..])
    ensures IsFirstMax(vals[..], k)
  {
    k := 0;
    for i := 1 to vals.Length
      invariant k == FirstArgMax(vals[..i])
    {
      assert vals[..i + 1][..i] == vals[..i];
      if vals[i] > vals[k] {
        k := i;
      }
    }
    assert vals[..vals.Length] == vals[..];
    FirstArgMaxIsFirstMax(vals[..]);
  }
}
