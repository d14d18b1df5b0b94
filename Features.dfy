/** The per-spot feature columns of src/data_prepare_nq.py, applied in place
    to one table of spots: per-frame statistics of the curated tracks
    (add_mean_std), background-subtracted intensities (add_intensities) and
    the two-way quantile class code (add_classes). */
module Features {
  import opened Common

  /** The four channels whose `<channel>_cmdn` columns the cleaned table holds. */
  datatype Channel = GFP | Cy3 | DAPI | BF

  /** The channels add_mean_std visits, in order. */
  const Channels: seq<Channel> := [GFP, Cy3, DAPI, BF]

  /** The name of the column add_classes writes: prefix + '_cls{n_red}x{n_green}'. */
  datatype ClassKey = ClassKey(prefix: string, nRed: nat, nGreen: nat)

  // ---------------------------------------------------------------------------
  // add_mean_std
  // ---------------------------------------------------------------------------

  /** df_curated_tracks.loc[df['FRAME'] == g, <channel>_cmdn]: the values of
      the rows of curated tracks on frame `g`, in table order. */
  function CuratedAt(tracks: seq<int>, frames: seq<int>, values: seq<int>, curated: seq<int>, g: int): seq<int>
    requires |frames| == |tracks| && |values| == |tracks|
  {
    if |tracks| == 0 then []
    else
      var n := |tracks| - 1;
      CuratedAt(tracks[..n], frames[..n], values[..n], curated, g) +
        if tracks[n] in curated && frames[n] == g then [values[n]] else []
  }

  /** The values a frame's statistic is taken over are exactly those of the
      curated rows on that frame. */
  lemma {:induction false} CuratedAtMembers(tracks: seq<int>, frames: seq<int>, values: seq<int>,
                                            curated: seq<int>, g: int, v: int)
    requires |frames| == |tracks| && |values| == |tracks|
    ensures v in CuratedAt(tracks, frames, values, curated, g) <==>
      exists i :: 0 <= i < |tracks| && tracks[i] in curated && frames[i] == g && values[i] == v
  {
    if |tracks| > 0 {
      var n := |tracks| - 1;
      CuratedAtMembers(tracks[..n], frames[..n], values[..n], curated, g, v);
      if v in CuratedAt(tracks[..n], frames[..n], values[..n], curated, g) {
        var i :| 0 <= i < n && tracks[..n][i] in curated && frames[..n][i] == g && values[..n][i] == v;
        assert tracks[i] in curated && frames[i] == g && values[i] == v;
      }
      if exists i :: 0 <= i < |tracks| && tracks[i] in curated && frames[i] == g && values[i] == v {
        var i :| 0 <= i < |tracks| && tracks[i] in curated && frames[i] == g && values[i] == v;
        if i < n {
          assert tracks[..n][i] in curated && frames[..n][i] == g && values[..n][i] == v;
        }
      }
    }
  }

  /** The rows of curated tracks on frame `g` whose value is `v`. */
  ghost function CuratedRowsWith(tracks: seq<int>, frames: seq<int>, values: seq<int>,
                                 curated: seq<int>, g: int, v: int): set<int>
    requires |frames| == |tracks| && |values| == |tracks|
  {
    set i | 0 <= i < |tracks| && tracks[i] in curated && frames[i] == g && values[i] == v
  }

  /** The matching rows of a table are those of all but its last row, plus
      the last row when it matches; so there is one more exactly when it
      matches. */
  lemma CuratedRowsSnoc(tracks: seq<int>, frames: seq<int>, values: seq<int>,
                        curated: seq<int>, g: int, v: int)
    requires |frames| == |tracks| && |values| == |tracks| && |tracks| > 0
    ensures var n := |tracks| - 1;
      |CuratedRowsWith(tracks, frames, values, curated, g, v)| ==
        |CuratedRowsWith(tracks[..n], frames[..n], values[..n], curated, g, v)| +
        if tracks[n] in curated && frames[n] == g && values[n] == v then 1 else 0
  {
    var n := |tracks| - 1;
    var rows := CuratedRowsWith(tracks, frames, values, curated, g, v);
    var before := CuratedRowsWith(tracks[..n], frames[..n], values[..n], curated, g, v);
    var last: set<int> := if tracks[n] in curated && frames[n] == g && values[n] == v then {n} else {};
    forall i
      ensures i in rows <==> i in before + last
    {
      if 0 <= i < n {
        assert tracks[..n][i] == tracks[i] && frames[..n][i] == frames[i] && values[..n][i] == values[i];
        assert i in rows <==> tracks[i] in curated && frames[i] == g && values[i] == v;
        assert i in before <==> tracks[i] in curated && frames[i] == g && values[i] == v;
      } else if i == n {
        assert i !in before;
      } else {
        assert i !in rows && i !in before && i !in last;
      }
    }
    assert rows == before + last;
    assert n !in before;
  }

  /** A last row of a curated track on frame `g` adds its value once to the
      frame's values; any other last row adds nothing. */
  lemma CuratedAtSnocCount(tracks: seq<int>, frames: seq<int>, values: seq<int>,
                           curated: seq<int>, g: int, v: int)
    requires |frames| == |tracks| && |values| == |tracks| && |tracks| > 0
    ensures var n := |tracks| - 1;
      multiset(CuratedAt(tracks, frames, values, curated, g))[v] ==
        multiset(CuratedAt(tracks[..n], frames[..n], values[..n], curated, g))[v] +
        if tracks[n] in curated && frames[n] == g && values[n] == v then 1 else 0
  {
    var n := |tracks| - 1;
    var pre := CuratedAt(tracks[..n], frames[..n], values[..n], curated, g);
    var tail: seq<int> := if tracks[n] in curated && frames[n] == g then [values[n]] else [];
    assert CuratedAt(tracks, frames, values, curated, g) == pre + tail;
    assert multiset(pre + tail) == multiset(pre) + multiset(tail);
  }

  /** Each value enters a frame's statistic once per curated row on that frame
      that holds it, so repeated values weigh in the median as often as they
      occur. */
  lemma {:induction false} CuratedAtCounts(tracks: seq<int>, frames: seq<int>, values: seq<int>,
                                           curated: seq<int>, g: int, v: int)
    requires |frames| == |tracks| && |values| == |tracks|
    ensures multiset(CuratedAt(tracks, frames, values, curated, g))[v] ==
      |CuratedRowsWith(tracks, frames, values, curated, g, v)|
  {
    if |tracks| > 0 {
      var n := |tracks| - 1;
      CuratedAtCounts(tracks[..n], frames[..n], values[..n], curated, g, v);
      CuratedAtSnocCount(tracks, frames, values, curated, g, v);
      CuratedRowsSnoc(tracks, frames, values, curated, g, v);
    }
  }

  /** A statistic column once the loop over range(200) has handled frames
      0..upto-1: a row on such a frame g holds `stat` of the curated values
      on g, every other row still holds the initial 0. */
  function FrameFilled(tracks: seq<int>, frames: seq<int>, values: seq<int>, curated: seq<int>,
                       stat: seq<int> -> Cell, upto: int): (col: seq<Cell>)
    requires |frames| == |tracks| && |values| == |tracks|
    ensures |col| == |tracks|
    ensures forall i, j :: 0 <= i < |col| && 0 <= j < |col| && frames[i] == frames[j] ==> col[i] == col[j]
    ensures forall i :: 0 <= i < |col| && !(0 <= frames[i] < upto) ==> col[i] == Num(0)
  {
    seq(|tracks|, i requires 0 <= i < |tracks| =>
      if 0 <= frames[i] < upto then stat(CuratedAt(tracks, frames, values, curated, frames[i])) else Num(0))
  }

  /** df.loc[df['FRAME'] == g, column] = v. */
  function AssignAtFrame(column: seq<Cell>, frames: seq<int>, g: int, v: Cell): (r: seq<Cell>)
    requires |frames| == |column|
    ensures |r| == |column|
  {
    seq(|column|, i requires 0 <= i < |column| => if frames[i] == g then v else column[i])
  }

  /** A column holding `v` on each of `n` rows. */
  function Constant(n: nat, v: Cell): (r: seq<Cell>)
    ensures |r| == n && forall i :: 0 <= i < n ==> r[i] == v
  {
    seq(n, i => v)
  }

  /** Handling frame `upto` extends the filled column by that frame. */
  lemma FrameFilledStep(tracks: seq<int>, frames: seq<int>, values: seq<int>, curated: seq<int>,
                        stat: seq<int> -> Cell, upto: nat)
    requires |frames| == |tracks| && |values| == |tracks|
    ensures FrameFilled(tracks, frames, values, curated, stat, upto + 1) ==
      AssignAtFrame(FrameFilled(tracks, frames, values, curated, stat, upto), frames, upto,
                    stat(CuratedAt(tracks, frames, values, curated, upto)))
  {
    var longer := FrameFilled(tracks, frames, values, curated, stat, upto + 1);
    var updated := AssignAtFrame(FrameFilled(tracks, frames, values, curated, stat, upto), frames, upto,
                                  stat(CuratedAt(tracks, frames, values, curated, upto)));
    forall i | 0 <= i < |tracks|
      ensures longer[i] == updated[i]
    {
    }
  }

  /** The loop over range(200) for one channel: both columns start at 0, and
      the rows of frame g receive the median and the standard deviation of
      the curated values on g. */
  method FrameStatistics(tracks: seq<int>, frames: seq<int>, values: seq<int>, curated: seq<int>,
                         median: seq<int> -> Cell, stdev: seq<int> -> Cell)
    returns (averages: seq<Cell>, spreads: seq<Cell>)
    requires |frames| == |tracks| && |values| == |tracks|
    ensures averages == FrameFilled(tracks, frames, values, curated, median, FrameCount)
    ensures spreads == FrameFilled(tracks, frames, values, curated, stdev, FrameCount)
  {
    averages := Constant(|tracks|, Num(0));
    spreads := Constant(|tracks|, Num(0));
    assert FrameFilled(tracks, frames, values, curated, median, 0) == averages;
    assert FrameFilled(tracks, frames, values, curated, stdev, 0) == spreads;
    for g := 0 to FrameCount
      invariant averages == FrameFilled(tracks, frames, values, curated, median, g)
      invariant spreads == FrameFilled(tracks, frames, values, curated, stdev, g)
    {
      var selected := CuratedAt(tracks, frames, values, curated, g);
      FrameFilledStep(tracks, frames, values, curated, median, g);
      FrameFilledStep(tracks, frames, values, curated, stdev, g);
      averages := AssignAtFrame(averages, frames, g, median(selected));
      spreads := AssignAtFrame(spreads, frames, g, stdev(selected));
    }
  }

  // ---------------------------------------------------------------------------
  // add_intensities
  // ---------------------------------------------------------------------------

  /** <channel>_nq = <channel>_cmdn - <channel>_average, row by row; NaN where
      the average is NaN. Adding the average back gives the raw value. */
  function Normalize(raw: seq<int>, average: seq<Cell>): (nq: seq<Cell>)
    requires |average| == |raw|
    ensures |nq| == |raw|
    ensures forall i :: 0 <= i < |raw| ==> (nq[i].Missing? <==> average[i].Missing?)
    ensures forall i :: 0 <= i < |raw| && average[i].Num? ==> nq[i].v + average[i].v == raw[i]
  {
    seq(|raw|, i requires 0 <= i < |raw| =>
      match average[i]
      case Missing => Missing
      case Num(a) => Num(raw[i] - a))
  }

  /** astype(int) on a position column, kept as whole-valued reals: every
      value is truncated toward zero. */
  function Truncated(xs: seq<real>): (r: seq<real>)
    ensures |r| == |xs|
    ensures forall i :: 0 <= i < |xs| ==> r[i] == r[i].Floor as real
    ensures forall i :: 0 <= i < |xs| && 0.0 <= xs[i] ==> r[i] <= xs[i] < r[i] + 1.0
    ensures forall i :: 0 <= i < |xs| && xs[i] < 0.0 ==> r[i] - 1.0 < xs[i] <= r[i]
  {
    seq(|xs|, i requires 0 <= i < |xs| => Trunc(xs[i]) as real)
  }

  /** Positions that are already whole stay as they are. */
  lemma TruncatedIdempotent(xs: seq<real>)
    ensures Truncated(Truncated(xs)) == Truncated(xs)
  {
    var once := Truncated(xs);
    forall i | 0 <= i < |xs|
      ensures Truncated(once)[i] == once[i]
    {
      var n := once[i].Floor;
      assert once[i] == n as real;
      if n < 0 {
        assert Trunc(once[i]) == -((-once[i]).Floor);
        assert (-once[i]).Floor == -n;
      }
    }
  }

  // ---------------------------------------------------------------------------
  // add_classes
  // ---------------------------------------------------------------------------

  /** What this model assumes of pd.qcut(x, n, labels=False): one bin per
      value, NaN for a NaN value and otherwise a bin in [0, n). */
  ghost predicate Binning(qcut: (seq<Cell>, nat) -> seq<Cell>)
  {
    forall xs: seq<Cell>, n: nat ::
      |qcut(xs, n)| == |xs| &&
      (n > 0 ==> forall i :: 0 <= i < |xs| ==>
        (qcut(xs, n)[i].Missing? <==> xs[i].Missing?) &&
        (qcut(xs, n)[i].Num? ==> 0 <= qcut(xs, n)[i].v < n))
  }

  /** The rows selected by df['clsCy3'] == cls, in ascending order. */
  function RowsInBin(bins: seq<Cell>, cls: int): (rows: seq<nat>)
    ensures forall k :: 0 <= k < |rows| ==> rows[k] < |bins| && bins[rows[k]] == Num(cls)
    ensures forall i :: 0 <= i < |bins| && bins[i] == Num(cls) ==> i in rows
    ensures forall i, j :: 0 <= i < j < |rows| ==> rows[i] < rows[j]
  {
    if |bins| == 0 then []
    else
      var n := |bins| - 1;
      RowsInBin(bins[..n], cls) + if bins[n] == Num(cls) then [n] else []
  }

  /** df.loc[mask, column]: the values of the selected rows, in order. */
  function Gather(column: seq<Cell>, rows: seq<nat>): (r: seq<Cell>)
    requires forall k :: 0 <= k < |rows| ==> rows[k] < |column|
    ensures |r| == |rows|
  {
    seq(|rows|, k requires 0 <= k < |rows| => column[rows[k]])
  }

  /** df.loc[mask, column] = values: selected row rows[k] receives values[k],
      every other row keeps its value. */
  function Scatter(column: seq<Cell>, rows: seq<nat>, values: seq<Cell>): (r: seq<Cell>)
    requires |values| == |rows|
    requires forall k :: 0 <= k < |rows| ==> rows[k] < |column|
    ensures |r| == |column|
    ensures forall i :: 0 <= i < |column| && i !in rows ==> r[i] == column[i]
    ensures forall i :: 0 <= i < |column| && i in rows ==>
      exists k :: 0 <= k < |rows| && rows[k] == i && r[i] == values[k]
  {
    if |rows| == 0 then column
    else
      var n := |rows| - 1;
      var before := Scatter(column, rows[..n], values[..n]);
      assert forall i :: i in rows <==> i in rows[..n] || i == rows[n];
      before[rows[n] := values[n]]
  }

  /** clsGFP once the loop over range(n_red) has handled red bins 0..c-1:
      -1 everywhere, then for each handled red bin the quantile bins of the
      green values of its rows. */
  function GreenBins(green: seq<Cell>, redBins: seq<Cell>, nGreen: nat,
                     qcut: (seq<Cell>, nat) -> seq<Cell>, c: nat): (r: seq<Cell>)
    requires |redBins| == |green| && Binning(qcut)
    ensures |r| == |green|
  {
    if c == 0 then Constant(|green|, Num(-1))
    else
      var rows := RowsInBin(redBins, c - 1);
      Scatter(GreenBins(green, redBins, nGreen, qcut, c - 1), rows, qcut(Gather(green, rows), nGreen))
  }

  /** One pass of the loop over range(n_red): handling red bin c - 1 scatters
      the green bins of its rows into the column left by bins 0..c-2. */
  lemma GreenBinsStep(green: seq<Cell>, redBins: seq<Cell>, nGreen: nat,
                      qcut: (seq<Cell>, nat) -> seq<Cell>, c: nat)
    requires |redBins| == |green| && Binning(qcut) && c > 0
    ensures var rows := RowsInBin(redBins, c - 1);
      GreenBins(green, redBins, nGreen, qcut, c) ==
      Scatter(GreenBins(green, redBins, nGreen, qcut, c - 1), rows, qcut(Gather(green, rows), nGreen))
  {
  }

  /** The cell of row i in the column for red bins 0..c-1: a green bin in
      [0, n_green), or NaN exactly when the green value is NaN, once the row's
      red bin is handled; -1 before. */
  ghost predicate BinnedCell(green: seq<Cell>, redBins: seq<Cell>, nGreen: nat, c: nat, i: nat, cell: Cell)
    requires i < |green| && |redBins| == |green|
  {
    (redBins[i].Num? && 0 <= redBins[i].v < c ==>
      (cell.Missing? <==> green[i].Missing?) && (cell.Num? ==> 0 <= cell.v < nGreen)) &&
    (!(redBins[i].Num? && 0 <= redBins[i].v < c) ==> cell == Num(-1))
  }

  /** Scattering the green bins of red bin c - 1 over a column whose row i
      is right for bins 0..c-2 makes it right for bins 0..c-1. */
  lemma ScatterBinCell(green: seq<Cell>, redBins: seq<Cell>, nGreen: nat,
                       qcut: (seq<Cell>, nat) -> seq<Cell>, c: nat, i: nat,
                       prev: seq<Cell>, rows: seq<nat>, binned: seq<Cell>)
    requires |redBins| == |green| && Binning(qcut) && nGreen > 0 && i < |green| && c > 0
    requires rows == RowsInBin(redBins, c - 1)
    requires binned == qcut(Gather(green, rows), nGreen)
    requires |prev| == |green| && BinnedCell(green, redBins, nGreen, c - 1, i, prev[i])
    ensures BinnedCell(green, redBins, nGreen, c, i, Scatter(prev, rows, binned)[i])
  {
    var r := Scatter(prev, rows, binned);
    if i in rows {
      var k :| 0 <= k < |rows| && rows[k] == i && r[i] == binned[k];
      assert redBins[i] == Num(c - 1);
      assert Gather(green, rows)[k] == green[i];
    } else {
      assert redBins[i] != Num(c - 1);
    }
  }

  /** Inductive step of GreenBinsCases: handling red bin b keeps row i's
      cell right. */
  lemma GreenBinsCell(green: seq<Cell>, redBins: seq<Cell>, nGreen: nat,
                      qcut: (seq<Cell>, nat) -> seq<Cell>, b: nat, i: nat)
    requires |redBins| == |green| && Binning(qcut) && nGreen > 0 && i < |green|
    requires BinnedCell(green, redBins, nGreen, b, i, GreenBins(green, redBins, nGreen, qcut, b)[i])
    ensures BinnedCell(green, redBins, nGreen, b + 1, i, GreenBins(green, redBins, nGreen, qcut, b + 1)[i])
  {
    var rows := RowsInBin(redBins, b);
    GreenBinsStep(green, redBins, nGreen, qcut, b + 1);
    ScatterBinCell(green, redBins, nGreen, qcut, b + 1, i, GreenBins(green, redBins, nGreen, qcut, b),
                   rows, qcut(Gather(green, rows), nGreen));
  }

  /** A row whose red bin was handled has a green bin in [0, n_green), or NaN
      exactly when its green value is NaN; every other row keeps -1. */
  lemma {:induction false} GreenBinsCases(green: seq<Cell>, redBins: seq<Cell>, nGreen: nat,
                                          qcut: (seq<Cell>, nat) -> seq<Cell>, c: nat, i: nat)
    requires |redBins| == |green| && Binning(qcut) && nGreen > 0 && i < |green|
    ensures BinnedCell(green, redBins, nGreen, c, i, GreenBins(green, redBins, nGreen, qcut, c)[i])
  {
    if c > 0 {
      var b: nat := c - 1;
      GreenBinsCases(green, redBins, nGreen, qcut, b, i);
      GreenBinsCell(green, redBins, nGreen, qcut, b, i);
    }
  }

  /** clsCy3 + clsGFP * n_red for one row, NaN where either bin is the -1
      sentinel. */
  function ClassCode(red: int, green: int, nRed: nat): (c: Cell)
    ensures c.Missing? <==> red == -1 || green == -1
  {
    if red == -1 || green == -1 then Missing else Num(red + green * nRed)
  }

  /** Bins in range give a class in [0, n_red * n_green) from which both
      bins are recovered: red = class % n_red, green = class / n_red. */
  lemma ClassCodeDecodes(red: int, green: int, nRed: nat, nGreen: nat)
    requires 0 <= red < nRed && 0 <= green < nGreen
    ensures ClassCode(red, green, nRed).Num?
    ensures 0 <= ClassCode(red, green, nRed).v < nRed * nGreen
    ensures ClassCode(red, green, nRed).v % nRed == red
    ensures ClassCode(red, green, nRed).v / nRed == green
  {
    var c := red + green * nRed;
    assert green * nRed <= (nGreen - 1) * nRed by {
      MultiplyMonotone(green, nGreen - 1, nRed);
    }
    assert c < nRed * nGreen;
    DivModUnique(c, nRed, green, red);
  }

  lemma MultiplyMonotone(a: int, b: int, m: nat)
    requires a <= b
    ensures a * m <= b * m
  {
  }

  /** The quotient and remainder of Euclidean division are unique. */
  lemma DivModUnique(c: int, d: nat, q: int, r: int)
    requires d > 0 && 0 <= r < d && c == r + q * d
    ensures c / d == q && c % d == r
  {
    var q', r' := c / d, c % d;
    assert c == r' + q' * d;
    assert (q - q') * d == r' - r;
    if q > q' {
      MultiplyMonotone(1, q - q', d);
    } else if q < q' {
      MultiplyMonotone(1, q' - q, d);
    }
  }

  /** add_classes on the two intensity columns: an error when the class sum
      holds a NaN (astype(int) raises), otherwise the class column. */
  function Classify(green: seq<Cell>, red: seq<Cell>, nRed: nat, nGreen: nat,
                    qcut: (seq<Cell>, nat) -> seq<Cell>): (r: Result<seq<Cell>, string>)
    requires |green| == |red| && Binning(qcut)
    ensures r.Ok? ==> |r.value| == |red|
  {
    var redBins := qcut(red, nRed);
    var greenBins := GreenBins(green, redBins, nGreen, qcut, nRed);
    if exists i :: 0 <= i < |red| && (redBins[i].Missing? || greenBins[i].Missing?) then
      Err("Cannot convert non-finite values (NA or inf) to integer")
    else
      Ok(seq(|red|, i requires 0 <= i < |red| => ClassCode(redBins[i].v, greenBins[i].v, nRed)))
  }

  /** add_classes fails exactly when some spot has a NaN intensity; otherwise
      every spot gets a class in [0, n_red * n_green) that decodes to its red
      and green bins, and none is NaN. */
  lemma ClassifyOutcome(green: seq<Cell>, red: seq<Cell>, nRed: nat, nGreen: nat,
                        qcut: (seq<Cell>, nat) -> seq<Cell>)
    requires |green| == |red| && Binning(qcut) && nRed > 0 && nGreen > 0
    ensures Classify(green, red, nRed, nGreen, qcut).Ok? <==>
      forall i :: 0 <= i < |red| ==> red[i].Num? && green[i].Num?
    ensures Classify(green, red, nRed, nGreen, qcut).Ok? ==>
      forall i :: 0 <= i < |red| ==>
        var c := Classify(green, red, nRed, nGreen, qcut).value[i];
        c.Num? && 0 <= c.v < nRed * nGreen &&
        c.v % nRed == qcut(red, nRed)[i].v &&
        c.v / nRed == GreenBins(green, qcut(red, nRed), nGreen, qcut, nRed)[i].v
  {
    var redBins := qcut(red, nRed);
    var greenBins := GreenBins(green, redBins, nGreen, qcut, nRed);
    forall i | 0 <= i < |red|
      ensures (redBins[i].Missing? || greenBins[i].Missing?) <==> (red[i].Missing? || green[i].Missing?)
      ensures redBins[i].Num? && greenBins[i].Num? ==>
        0 <= redBins[i].v < nRed && 0 <= greenBins[i].v < nGreen
    {
      GreenBinsCases(green, redBins, nGreen, qcut, nRed, i);
    }
    if Classify(green, red, nRed, nGreen, qcut).Ok? {
      forall i | 0 <= i < |red|
        ensures var c := Classify(green, red, nRed, nGreen, qcut).value[i];
          c.Num? && 0 <= c.v < nRed * nGreen && c.v % nRed == redBins[i].v && c.v / nRed == greenBins[i].v
      {
        ClassCodeDecodes(redBins[i].v, greenBins[i].v, nRed, nGreen);
      }
    }
  }

  /** The loop over range(n_red) that fills clsGFP. */
  method BinGreen(green: seq<Cell>, redBins: seq<Cell>, nRed: nat, nGreen: nat,
                  qcut: (seq<Cell>, nat) -> seq<Cell>) returns (greenBins: seq<Cell>)
    requires |redBins| == |green| && Binning(qcut)
    ensures greenBins == GreenBins(green, redBins, nGreen, qcut, nRed)
  {
    greenBins := Constant(|green|, Num(-1));
    for cls := 0 to nRed
      invariant greenBins == GreenBins(green, redBins, nGreen, qcut, cls)
    {
      var rows := RowsInBin(redBins, cls);
      greenBins := Scatter(greenBins, rows, qcut(Gather(green, rows), nGreen));
    }
  }

  // ---------------------------------------------------------------------------
  // The table
  // ---------------------------------------------------------------------------

  /** The cleaned spot table the three functions update in place: one entry
      per spot in each column. */
  class SpotTable {
    var trackId: seq<int>
    var frame: seq<int>
    var posX: seq<real>
    var posY: seq<real>
    /** <channel>_cmdn */
    var cmdn: map<Channel, seq<int>>
    /** <channel>_average */
    var average: map<Channel, seq<Cell>>
    /** <channel>_std */
    var std: map<Channel, seq<Cell>>
    /** GFP_nq and Cy3_nq */
    var nq: map<Channel, seq<Cell>>
    /** The class columns add_classes writes, by name. */
    var classes: map<ClassKey, seq<Cell>>

    /** Every column has one entry per spot. */
    ghost predicate Valid()
      reads this
    {
      |frame| == |trackId| && |posX| == |trackId| && |posY| == |trackId| &&
      (forall ch :: ch in cmdn ==> |cmdn[ch]| == |trackId|) &&
      (forall ch :: ch in average ==> |average[ch]| == |trackId|) &&
      (forall ch :: ch in std ==> |std[ch]| == |trackId|) &&
      (forall ch :: ch in nq ==> |nq[ch]| == |trackId|) &&
      (forall key :: key in classes ==> |classes[key]| == |trackId|)
    }

    /** The table as clean_df leaves it: identifiers, positions and the four
        channel values of every spot. */
    constructor (trackId: seq<int>, frame: seq<int>, posX: seq<real>, posY: seq<real>,
                 gfp: seq<int>, cy3: seq<int>, dapi: seq<int>, bf: seq<int>)
      requires |frame| == |trackId| && |posX| == |trackId| && |posY| == |trackId|
      requires |gfp| == |trackId| && |cy3| == |trackId| && |dapi| == |trackId| && |bf| == |trackId|
      ensures Valid()
      ensures this.trackId == trackId && this.frame == frame && this.posX == posX && this.posY == posY
      ensures cmdn == map[GFP := gfp, Cy3 := cy3, DAPI := dapi, BF := bf]
      ensures average == map[] && std == map[] && nq == map[] && classes == map[]
    {
      this.trackId, this.frame, this.posX, this.posY := trackId, frame, posX, posY;
      cmdn := map[GFP := gfp, Cy3 := cy3, DAPI := dapi, BF := bf];
      average, std, nq, classes := map[], map[], map[], map[];
    }

    /** One pass of add_mean_std's channel loop: the average column of `ch`
        filled frame by frame with the median, the std column filled frame by
        frame with the standard deviation and then replaced by one constant,
        `mean` over all of its rows (each frame's value once per row on that
        frame, 0 on rows off frames 0..199). */
    method AddChannelStatistics(ch: Channel, curated: seq<int>, median: seq<int> -> Cell,
                                stdev: seq<int> -> Cell, mean: seq<Cell> -> Cell)
      requires Valid() && ch in cmdn
      modifies this`average, this`std
      ensures Valid()
      ensures average == old(average)[ch := FrameFilled(trackId, frame, cmdn[ch], curated, median, FrameCount)]
      ensures std == old(std)[ch := Constant(|trackId|, mean(FrameFilled(trackId, frame, cmdn[ch], curated, stdev, FrameCount)))]
    {
      var averages, spreads := FrameStatistics(trackId, frame, cmdn[ch], curated, median, stdev);
      average := average[ch := averages];
      std := std[ch := Constant(|trackId|, mean(spreads))];
    }

    /** The columns add_mean_std leaves for channel `ch`: the per-frame median
        of the curated values on every row's frame, and one constant std
        column, `mean` over all rows of the column holding each row's frame
        standard deviation (0 on rows off frames 0..199). */
    ghost predicate ChannelDone(ch: Channel, curated: seq<int>, median: seq<int> -> Cell,
                                stdev: seq<int> -> Cell, mean: seq<Cell> -> Cell)
      reads this
      requires Valid()
    {
      ch in cmdn && ch in average && ch in std &&
      average[ch] == FrameFilled(trackId, frame, cmdn[ch], curated, median, FrameCount) &&
      std[ch] == Constant(|trackId|, mean(FrameFilled(trackId, frame, cmdn[ch], curated, stdev, FrameCount)))
    }

    /** add_mean_std: every channel gets its average and std columns. */
    method AddMeanStd(curated: seq<int>, median: seq<int> -> Cell, stdev: seq<int> -> Cell, mean: seq<Cell> -> Cell)
      requires Valid() && GFP in cmdn && Cy3 in cmdn && DAPI in cmdn && BF in cmdn
      modifies this`average, this`std
      ensures Valid()
      ensures forall j :: 0 <= j < |Channels| ==> ChannelDone(Channels[j], curated, median, stdev, mean)
    {
      for k := 0 to |Channels|
        invariant Valid()
        invariant forall j :: 0 <= j < k ==> ChannelDone(Channels[j], curated, median, stdev, mean)
      {
        AddChannelStatistics(Channels[k], curated, median, stdev, mean);
      }
    }

    /** add_intensities: GFP_nq and Cy3_nq from the raw values and the frame
        averages, the four raw columns deleted, positions made whole. */
    method AddIntensities()
      requires Valid() && GFP in cmdn && Cy3 in cmdn && DAPI in cmdn && BF in cmdn
      requires GFP in average && Cy3 in average
      modifies this`nq, this`cmdn, this`posX, this`posY
      ensures Valid()
      ensures nq == old(nq)[GFP := Normalize(old(cmdn)[GFP], average[GFP])]
                           [Cy3 := Normalize(old(cmdn)[Cy3], average[Cy3])]
      ensures cmdn == old(cmdn) - {GFP, Cy3, DAPI, BF}
      ensures posX == Truncated(old(posX)) && posY == Truncated(old(posY))
    {
      nq := nq[GFP := Normalize(cmdn[GFP], average[GFP])];
      nq := nq[Cy3 := Normalize(cmdn[Cy3], average[Cy3])];
      cmdn := cmdn - {GFP, Cy3, DAPI, BF};
      posX := Truncated(posX);
      posY := Truncated(posY);
    }

    /** add_classes on the intensity columns of `greenCh` and `redCh`: true
        and the class column added when every spot can be classed, false and
        the table unchanged when astype(int) raises. */
    method AddClasses(greenCh: Channel, redCh: Channel, prefix: string, nGreen: nat, nRed: nat,
                      qcut: (seq<Cell>, nat) -> seq<Cell>) returns (ok: bool)
      requires Valid() && greenCh in nq && redCh in nq && Binning(qcut)
      modifies this`classes
      ensures Valid()
      ensures ok == Classify(nq[greenCh], nq[redCh], nRed, nGreen, qcut).Ok?
      ensures classes == if ok
        then old(classes)[ClassKey(prefix, nRed, nGreen) := Classify(nq[greenCh], nq[redCh], nRed, nGreen, qcut).value]
        else old(classes)
    {
      ghost var outcome := Classify(nq[greenCh], nq[redCh], nRed, nGreen, qcut);
      var redBins := qcut(nq[redCh], nRed);
      var greenBins := BinGreen(nq[greenCh], redBins, nRed, nGreen, qcut);
      var n := |trackId|;
      if exists i :: 0 <= i < n && (redBins[i].Missing? || greenBins[i].Missing?) {
        assert outcome.Err?;
        return false;
      }
      var column := seq(n, i requires 0 <= i < n => ClassCode(redBins[i].v, greenBins[i].v, nRed));
      assert outcome == Ok(column);
      classes := classes[ClassKey(prefix, nRed, nGreen) := column];
      ok := true;
    }
  }
}
