/** make_division_adjusted_tracks of src/data_prepare_nq.py: one row per frame
    0..199 holding the frame's median intensities and, for every curated
    track, a block of seven values (time, x, y, green and red median, green
    and red mean); each track's time column is then shifted so that its
    division frame reads 0. */
module AlignedTracks {
  import opened Common

  /** A row of the spots table with every field present (the table is read
      with 'None' as missing and every incomplete row dropped). */
  datatype Spot = Spot(track: int, frame: int, x: real, y: real, gfp: int, cy3: int)

  // A row starts with 3 header cells (frame_num, gfp_frame_average,
  // cy3_frame_average) and continues with one block of 7 cells per curated
  // track (time, x, y, green median, red median, green mean, red mean); the
  // block of the j-th track starts at cell 3 + 7 * j.

  // ---------------------------------------------------------------------------
  // sorted(curated_tracks)
  // ---------------------------------------------------------------------------

  ghost predicate Ascending(s: seq<int>)
  {
    forall i, j :: 0 <= i < j < |s| ==> s[i] <= s[j]
  }

  function InsertSorted(s: seq<int>, x: int): (r: seq<int>)
    requires Ascending(s)
    ensures |r| == |s| + 1
    ensures Ascending(r)
    ensures multiset(r) == multiset(s) + multiset{x}
  {
    if |s| == 0 then [x]
    else if x <= s[0] then [x] + s
    else
      var rest := InsertSorted(s[1..], x);
      InsertStep(s, x, rest);
      [s[0]] + rest
  }

  /** Putting the head back in front of the insertion into the tail keeps the
      order and adds `x` to the head's multiset. */
  lemma InsertStep(s: seq<int>, x: int, rest: seq<int>)
    requires Ascending(s) && |s| > 0 && s[0] < x
    requires Ascending(rest) && multiset(rest) == multiset(s[1..]) + multiset{x}
    ensures Ascending([s[0]] + rest)
    ensures multiset([s[0]] + rest) == multiset(s) + multiset{x}
  {
    assert s == [s[0]] + s[1..];
    assert rest[0] in multiset(rest);
    AscendingCons(s[0], rest);
  }

  lemma AscendingCons(x: int, s: seq<int>)
    requires Ascending(s)
    requires |s| > 0 ==> x <= s[0]
    ensures Ascending([x] + s)
  {
  }

  /** Python's sorted() on the curated track list: ascending, duplicates kept. */
  function Sort(s: seq<int>): (r: seq<int>)
    ensures |r| == |s|
    ensures Ascending(r)
    ensures multiset(r) == multiset(s)
  {
    if |s| == 0 then []
    else
      assert s == s[..|s| - 1] + [s[|s| - 1]];
      InsertSorted(Sort(s[..|s| - 1]), s[|s| - 1])
  }

  // ---------------------------------------------------------------------------
  // Row selections
  // ---------------------------------------------------------------------------

  /** df[df['TRACK_ID'].isin(curated_tracks)]. */
  function CuratedOnly(spots: seq<Spot>, curated: seq<int>): seq<Spot>
  {
    if |spots| == 0 then []
    else
      var n := |spots| - 1;
      CuratedOnly(spots[..n], curated) + if spots[n].track in curated then [spots[n]] else []
  }

  /** df.loc[df['FRAME'] == f]. */
  function AtFrame(spots: seq<Spot>, f: int): seq<Spot>
  {
    if |spots| == 0 then []
    else
      var n := |spots| - 1;
      AtFrame(spots[..n], f) + if spots[n].frame == f then [spots[n]] else []
  }

  /** dt[dt['TRACK_ID'] == t]. */
  function OfTrack(spots: seq<Spot>, t: int): seq<Spot>
  {
    if |spots| == 0 then []
    else
      var n := |spots| - 1;
      OfTrack(spots[..n], t) + if spots[n].track == t then [spots[n]] else []
  }

  /** The three selections keep exactly the records that pass their test. */
  lemma {:induction false} SelectionsKeepMatching(spots: seq<Spot>, curated: seq<int>, f: int, t: int, s: Spot)
    ensures s in CuratedOnly(spots, curated) <==> s in spots && s.track in curated
    ensures s in AtFrame(spots, f) <==> s in spots && s.frame == f
    ensures s in OfTrack(spots, t) <==> s in spots && s.track == t
  {
    if |spots| > 0 {
      var n := |spots| - 1;
      assert spots == spots[..n] + [spots[n]];
      SelectionsKeepMatching(spots[..n], curated, f, t, s);
    }
  }

  /** The three selections keep every passing record as often as the table
      holds it, and drop every other record. */
  lemma {:induction false} SelectionsKeepCounts(spots: seq<Spot>, curated: seq<int>, f: int, t: int, s: Spot)
    ensures multiset(CuratedOnly(spots, curated))[s] == if s.track in curated then multiset(spots)[s] else 0
    ensures multiset(AtFrame(spots, f))[s] == if s.frame == f then multiset(spots)[s] else 0
    ensures multiset(OfTrack(spots, t))[s] == if s.track == t then multiset(spots)[s] else 0
  {
    if |spots| > 0 {
      var n := |spots| - 1;
      assert spots == spots[..n] + [spots[n]];
      assert multiset(spots) == multiset(spots[..n]) + multiset{spots[n]};
      SelectionsKeepCounts(spots[..n], curated, f, t, s);
    }
  }

  /** The GFP_cmdn column of `spots`. */
  function GfpValues(spots: seq<Spot>): seq<int>
  {
    if |spots| == 0 then [] else GfpValues(spots[..|spots| - 1]) + [spots[|spots| - 1].gfp]
  }

  /** The Cy3_cmdn column of `spots`. */
  function Cy3Values(spots: seq<Spot>): seq<int>
  {
    if |spots| == 0 then [] else Cy3Values(spots[..|spots| - 1]) + [spots[|spots| - 1].cy3]
  }

  /** dxy.shape[0]: how many records track `t` has on frame `f`. */
  function CountAt(dfc: seq<Spot>, t: int, f: int): nat
  {
    |OfTrack(AtFrame(dfc, f), t)|
  }

  /** The table rows of track `t` on frame `f`. */
  ghost function RowsOn(dfc: seq<Spot>, t: int, f: int): set<int>
  {
    set i | 0 <= i < |dfc| && dfc[i].track == t && dfc[i].frame == f
  }

  /** dxy.shape[0] is the number of table rows of track `t` on frame `f`,
      repeated records included. */
  lemma {:induction false} CountAtIndices(dfc: seq<Spot>, t: int, f: int)
    ensures CountAt(dfc, t, f) == |RowsOn(dfc, t, f)|
  {
    if |dfc| > 0 {
      var n := |dfc| - 1;
      CountAtIndices(dfc[..n], t, f);
      RowsOnSnoc(dfc, t, f);
      CountAtSnoc(dfc, t, f);
    }
  }

  /** The last row is among the rows of (t, f) exactly when it matches. */
  lemma RowsOnSnoc(dfc: seq<Spot>, t: int, f: int)
    requires |dfc| > 0
    ensures var n := |dfc| - 1;
      n !in RowsOn(dfc[..n], t, f) &&
      RowsOn(dfc, t, f) == RowsOn(dfc[..n], t, f) +
        if dfc[n].track == t && dfc[n].frame == f then {n} else {}
  {
    var n := |dfc| - 1;
    var pre := dfc[..n];
    forall i | 0 <= i < n
      ensures pre[i] == dfc[i]
    {
    }
  }

  /** The last record adds one to the count of (t, f) exactly when it
      matches. */
  lemma CountAtSnoc(dfc: seq<Spot>, t: int, f: int)
    requires |dfc| > 0
    ensures var n := |dfc| - 1;
      CountAt(dfc, t, f) == CountAt(dfc[..n], t, f) +
        if dfc[n].track == t && dfc[n].frame == f then 1 else 0
  {
    var n := |dfc| - 1;
    var pre := dfc[..n];
    if dfc[n].frame == f {
      var a := AtFrame(pre, f);
      assert AtFrame(dfc, f) == a + [dfc[n]];
      assert (a + [dfc[n]])[..|a|] == a;
    } else {
      assert AtFrame(dfc, f) == AtFrame(pre, f);
    }
  }

  // ---------------------------------------------------------------------------
  // Division frames
  // ---------------------------------------------------------------------------

  /** The value div_frames[t] holds once frames 0..n-1 have been processed:
      the first of those frames with more than one record of `t`, if any. */
  function FirstDivisionBefore(dfc: seq<Spot>, t: int, n: nat): Option<nat>
  {
    if n == 0 then None
    else
      var prev := FirstDivisionBefore(dfc, t, n - 1);
      if prev.Some? then prev
      else if CountAt(dfc, t, n - 1) > 1 then Some(n - 1) else None
  }

  /** The recorded frame is the first frame below `n` on which the track has
      more than one record; nothing is recorded when there is no such frame. */
  lemma {:induction false} FirstDivisionIsFirst(dfc: seq<Spot>, t: int, n: nat)
    ensures var r := FirstDivisionBefore(dfc, t, n);
      (r.Some? ==> r.value < n && CountAt(dfc, t, r.value) > 1) &&
      (r.Some? ==> forall g :: 0 <= g < r.value ==> CountAt(dfc, t, g) <= 1) &&
      (r.None? ==> forall g :: 0 <= g < n ==> CountAt(dfc, t, g) <= 1)
  {
    if n > 0 {
      FirstDivisionIsFirst(dfc, t, n - 1);
    }
  }

  /** The loop body's update of div_frames[t] on frame `f` moves the value
      after frame `f - 1` to the value after frame `f`, and leaves the value
      after frame `f` as it is. */
  lemma DivisionUpdateAdvances(dfc: seq<Spot>, t: int, f: nat)
    ensures var before := FirstDivisionBefore(dfc, t, f);
      FirstDivisionBefore(dfc, t, f + 1) == if CountAt(dfc, t, f) > 1 && before.None? then Some(f) else before
    ensures !(CountAt(dfc, t, f) > 1 && FirstDivisionBefore(dfc, t, f + 1).None?)
  {
  }

  /** Once a division frame is recorded, later frames never change it. */
  lemma {:induction false} DivisionFrameStable(dfc: seq<Spot>, t: int, n: nat, m: nat)
    requires n <= m
    requires FirstDivisionBefore(dfc, t, n).Some?
    ensures FirstDivisionBefore(dfc, t, m) == FirstDivisionBefore(dfc, t, n)
    decreases m - n
  {
    if n < m {
      DivisionFrameStable(dfc, t, n, m - 1);
    }
  }

  /** div_frames[t] after the loop: the first frame in [0, 200) with more
      than one record of `t`, or 0 when there is none. */
  function DivFrame(dfc: seq<Spot>, t: int): nat
  {
    match FirstDivisionBefore(dfc, t, FrameCount)
    case None => 0
    case Some(d) => d
  }


  /** The dictionary comprehension turns None into 0: div_frames[t] is the
      first frame below 200 with more than one record of `t` when there is
      one, and 0 when there is none, so 0 also stands for "never divides". */
  lemma DivFrameIsFirst(dfc: seq<Spot>, t: int)
    ensures (exists g :: 0 <= g < FrameCount && CountAt(dfc, t, g) > 1) ==>
      DivFrame(dfc, t) < FrameCount && CountAt(dfc, t, DivFrame(dfc, t)) > 1 &&
      forall g :: 0 <= g < DivFrame(dfc, t) ==> CountAt(dfc, t, g) <= 1
    ensures (forall g :: 0 <= g < FrameCount ==> CountAt(dfc, t, g) <= 1) ==> DivFrame(dfc, t) == 0
  {
    FirstDivisionIsFirst(dfc, t, FrameCount);
  }

  // ---------------------------------------------------------------------------
  // Rows
  // ---------------------------------------------------------------------------

  /** The seven values one track contributes to the row of frame `f`, taken
      from its first record there; all missing when it has none. */
  function TrackBlock(dxy: seq<Spot>, f: int): (b: seq<Cell>)
    ensures |b| == 7
    ensures |dxy| == 0 ==> forall k :: 0 <= k < 7 ==> b[k] == Missing
    ensures |dxy| > 0 ==>
      b[0] == Num(f) && b[1] == Num(Trunc(dxy[0].x)) && b[2] == Num(Trunc(dxy[0].y)) &&
      b[3] == b[5] == Num(dxy[0].gfp) && b[4] == b[6] == Num(dxy[0].cy3)
  {
    if |dxy| < 1 then [Missing, Missing, Missing, Missing, Missing, Missing, Missing]
    else
      var s := dxy[0];
      [Num(f), Num(Trunc(s.x)), Num(Trunc(s.y)), Num(s.gfp), Num(s.cy3), Num(s.gfp), Num(s.cy3)]
  }

  /** Cell c of 7 * c / 7 + c % 7 sits at offset c % 7 of block c / 7. */
  lemma BlockIndex(j: int, k: int)
    requires 0 <= k < 7
    ensures (7 * j + k) / 7 == j && (7 * j + k) % 7 == k
  {
  }

  /** The blocks of the tracks `ts`, in the order of `ts`: cell c belongs to
      track ts[c / 7] and is cell c % 7 of its block. */
  function Blocks(dt: seq<Spot>, ts: seq<int>, f: int): (r: seq<Cell>)
    ensures |r| == 7 * |ts|
  {
    seq(7 * |ts|, c requires 0 <= c < 7 * |ts| => TrackBlock(OfTrack(dt, ts[c / 7]), f)[c % 7])
  }

  /** Cell k of the j-th block is cell k of track ts[j]'s block. */
  lemma BlocksAt(dt: seq<Spot>, ts: seq<int>, f: int, j: nat, k: nat)
    requires j < |ts| && k < 7
    ensures Blocks(dt, ts, f)[7 * j + k] == TrackBlock(OfTrack(dt, ts[j]), f)[k]
  {
    var c := 7 * j + k;
    BlockIndex(j, k);
    assert c / 7 == j && c % 7 == k;
    assert Blocks(dt, ts, f)[c] == TrackBlock(OfTrack(dt, ts[c / 7]), f)[c % 7];
  }

  /** Appending one track to a prefix of `ts` appends its block. */
  lemma BlocksSnoc(dt: seq<Spot>, ts: seq<int>, f: int, j: nat)
    requires j < |ts|
    ensures Blocks(dt, ts[..j + 1], f) == Blocks(dt, ts[..j], f) + TrackBlock(OfTrack(dt, ts[j]), f)
  {
    var longer := Blocks(dt, ts[..j + 1], f);
    var joined := Blocks(dt, ts[..j], f) + TrackBlock(OfTrack(dt, ts[j]), f);
    forall c | 0 <= c < 7 * (j + 1)
      ensures longer[c] == joined[c]
    {
      BlockIndex(c / 7, c % 7);
      if c < 7 * j {
        assert ts[..j + 1][c / 7] == ts[..j][c / 7];
      } else {
        assert c / 7 == j;
      }
    }
  }

  /** The row appended for frame `f`, before the time post-pass. */
  function RawRow(dfc: seq<Spot>, curated: seq<int>, median: seq<int> -> Cell, f: int): (r: seq<Cell>)
    ensures |r| == 3 + 7 * |curated|
  {
    var dt := AtFrame(dfc, f);
    [Num(f), median(GfpValues(dt)), median(Cy3Values(dt))] + Blocks(dt, curated, f)
  }

  /** The time of track `t` at frame `f` in the finished table: the frame
      minus the track's division frame, subtracted once per occurrence of `t`
      in the curated list; missing when `t` has no record there. */
  function AlignedTime(dfc: seq<Spot>, curated: seq<int>, t: int, f: int): Cell
  {
    if CountAt(dfc, t, f) == 0 then Missing
    else Num(f - multiset(curated)[t] * DivFrame(dfc, t))
  }

  /** For a track listed once, the time is the frame minus its division frame;
      at the recorded division frame it is 0. */
  lemma TimeZeroAtDivision(dfc: seq<Spot>, curated: seq<int>, t: int)
    requires multiset(curated)[t] == 1
    ensures forall f :: CountAt(dfc, t, f) > 0 ==> AlignedTime(dfc, curated, t, f) == Num(f - DivFrame(dfc, t))
    ensures FirstDivisionBefore(dfc, t, FrameCount).Some? ==>
      AlignedTime(dfc, curated, t, DivFrame(dfc, t)) == Num(0)
  {
    FirstDivisionIsFirst(dfc, t, FrameCount);
  }

  /** dfo[(t, 'time')] -= d: subtract `d` in every column labelled
      (t, 'time'); with a track listed twice there are two such columns. */
  function ShiftTrackTime(table: seq<seq<Cell>>, columns: seq<Column>, t: int, d: int): (r: seq<seq<Cell>>)
    requires forall f :: 0 <= f < |table| ==> |table[f]| == |columns|
    ensures |r| == |table|
    ensures forall f :: 0 <= f < |table| ==> |r[f]| == |columns|
    ensures forall f, c :: 0 <= f < |table| && 0 <= c < |columns| ==>
      r[f][c] == if columns[c] == TrackColumn(t, Time) then ShiftCell(table[f][c], d) else table[f][c]
  {
    seq(|table|, f requires 0 <= f < |table| =>
      seq(|columns|, c requires 0 <= c < |columns| =>
        if columns[c] == TrackColumn(t, Time) then ShiftCell(table[f][c], d) else table[f][c]))
  }

  /** What the post-pass over the tracks `ts` subtracts in the column
      labelled `column`: div_frames[t] for every entry t of `ts` that labels
      it. */
  function TotalShift(column: Column, ts: seq<int>, divFrames: map<int, nat>): int
    requires forall i :: 0 <= i < |ts| ==> ts[i] in divFrames
  {
    if |ts| == 0 then 0
    else
      var n := |ts| - 1;
      TotalShift(column, ts[..n], divFrames) + if column == TrackColumn(ts[n], Time) then divFrames[ts[n]] else 0
  }

  /** A track's time column is shifted by its division frame once per
      occurrence of the track in `ts`. */
  lemma {:induction false} TotalShiftOfTime(ts: seq<int>, divFrames: map<int, nat>, t: int)
    requires forall i :: 0 <= i < |ts| ==> ts[i] in divFrames
    requires t in divFrames
    ensures TotalShift(TrackColumn(t, Time), ts, divFrames) == multiset(ts)[t] * divFrames[t]
  {
    if |ts| > 0 {
      var n := |ts| - 1;
      TotalShiftOfTime(ts[..n], divFrames, t);
      MultisetSnoc(ts);
      ShiftStep(multiset(ts[..n])[t], divFrames[t], ts[n] == t);
    }
  }

  /** One more occurrence adds one more shift. */
  lemma ShiftStep(m: nat, d: nat, hit: bool)
    ensures (m + if hit then 1 else 0) * d == m * d + if hit then d else 0
  {
    if hit {
      assert (m + 1) * d == m * d + d;
    }
  }

  /** Columns other than time columns are never shifted. */
  lemma {:induction false} TotalShiftOfOther(column: Column, ts: seq<int>, divFrames: map<int, nat>)
    requires forall i :: 0 <= i < |ts| ==> ts[i] in divFrames
    requires !(column.TrackColumn? && column.field == Time)
    ensures TotalShift(column, ts, divFrames) == 0
  {
    if |ts| > 0 {
      TotalShiftOfOther(column, ts[..|ts| - 1], divFrames);
    }
  }

  // ---------------------------------------------------------------------------
  // Column labels
  // ---------------------------------------------------------------------------

  datatype Color = Green | Red
  datatype Statistic = Median | Mean
  datatype Field = Time | PosX | PosY | Stat(color: Color, fun: Statistic)

  /** The labels of the output table's MultiIndex. */
  datatype Column = FrameNum | GfpFrameAverage | Cy3FrameAverage | TrackColumn(track: int, field: Field)

  /** The fields of one block, in the order `for fun in (median, mean) for
      color in (green, red)` after time, x and y. */
  const FieldOrder: seq<Field> :=
    [Time, PosX, PosY, Stat(Green, Median), Stat(Red, Median), Stat(Green, Mean), Stat(Red, Mean)]

  function TrackColumns(ts: seq<int>): (r: seq<Column>)
    ensures |r| == 7 * |ts|
  {
    seq(7 * |ts|, c requires 0 <= c < 7 * |ts| => TrackColumn(ts[c / 7], FieldOrder[c % 7]))
  }

  /** The column labels: the three frame columns, then one block per track. */
  function Columns(curated: seq<int>): (r: seq<Column>)
    ensures |r| == 3 + 7 * |curated|
    ensures r[0] == FrameNum && r[1] == GfpFrameAverage && r[2] == Cy3FrameAverage
  {
    [FrameNum, GfpFrameAverage, Cy3FrameAverage] + TrackColumns(curated)
  }

  /** Label k of the j-th block names track curated[j] and field k. */
  lemma ColumnsAt(curated: seq<int>, j: nat, k: nat)
    requires j < |curated| && k < 7
    ensures Columns(curated)[3 + 7 * j + k] == TrackColumn(curated[j], FieldOrder[k])
  {
    BlockIndex(j, k);
    assert Columns(curated)[3 + 7 * j + k] == TrackColumns(curated)[7 * j + k];
  }

  // ---------------------------------------------------------------------------
  // The table builder
  // ---------------------------------------------------------------------------

  /** div_frames after the inner loop has visited the tracks `ts` on the
      frame whose records are `dt`. */
  function UpdateDivisions(div: map<int, Option<nat>>, dt: seq<Spot>, ts: seq<int>, f: nat): (r: map<int, Option<nat>>)
    requires forall i :: 0 <= i < |ts| ==> ts[i] in div
    ensures r.Keys == div.Keys
  {
    if |ts| == 0 then div
    else
      var n := |ts| - 1;
      var before := UpdateDivisions(div, dt, ts[..n], f);
      if |OfTrack(dt, ts[n])| > 1 && before[ts[n]].None? then before[ts[n] := Some(f)] else before
  }

  /** Starting from the values after frame `f - 1`, visiting the tracks `ts`
      on frame `f` moves exactly the visited tracks to their values after
      frame `f`, however often each is visited. */
  lemma {:induction false} UpdateDivisionsAdvances(dfc: seq<Spot>, div: map<int, Option<nat>>, ts: seq<int>, f: nat, t: int)
    requires forall i :: 0 <= i < |ts| ==> ts[i] in div
    requires forall u :: u in div ==> div[u] == FirstDivisionBefore(dfc, u, f)
    requires t in div
    ensures UpdateDivisions(div, AtFrame(dfc, f), ts, f)[t] ==
      if t in ts then FirstDivisionBefore(dfc, t, f + 1) else FirstDivisionBefore(dfc, t, f)
  {
    if |ts| > 0 {
      var n := |ts| - 1;
      UpdateDivisionsAdvances(dfc, div, ts[..n], f, t);
      assert ts == ts[..n] + [ts[n]];
      DivisionUpdateAdvances(dfc, t, f);
    }
  }

  /** One pass of the inner loop over the curated tracks for frame `f`: the
      frame's row, and div_frames updated for every track with more than one
      record on this frame and no division frame yet. */
  method FrameRow(dfc: seq<Spot>, curated: seq<int>, median: seq<int> -> Cell, f: nat,
                  div: map<int, Option<nat>>)
    returns (row: seq<Cell>, div': map<int, Option<nat>>)
    requires forall t :: t in div <==> t in curated
    requires forall i :: 0 <= i < |curated| ==> curated[i] in div
    requires forall t :: t in curated ==> div[t] == FirstDivisionBefore(dfc, t, f)
    ensures row == RawRow(dfc, curated, median, f)
    ensures forall t :: t in div' <==> t in curated
    ensures forall t :: t in curated ==> div'[t] == FirstDivisionBefore(dfc, t, f + 1)
  {
    var dt := AtFrame(dfc, f);
    var blocks: seq<Cell> := [];
    div' := div;
    for j := 0 to |curated|
      invariant blocks == Blocks(dt, curated[..j], f)
      invariant div' == UpdateDivisions(div, dt, curated[..j], f)
    {
      var track := curated[j];
      var dxy := OfTrack(dt, track);
      assert curated[..j + 1][..j] == curated[..j] && curated[..j + 1][j] == track;
      BlocksSnoc(dt, curated, f, j);
      if |dxy| > 1 && div'[track].None? {
        div' := div'[track := Some(f)];
      }
      blocks := blocks + TrackBlock(dxy, f);
    }
    assert curated[..|curated|] == curated;
    row := [Num(f), median(GfpValues(dt)), median(Cy3Values(dt))] + blocks;
    forall t | t in curated
      ensures div'[t] == FirstDivisionBefore(dfc, t, f + 1)
    {
      UpdateDivisionsAdvances(dfc, div, curated, f, t);
    }
  }

  /** The post-pass: for every entry t of the curated list, in order,
      dfo[(t, 'time')] -= div_frames[t]. */
  method SubtractDivisionFrames(rows: seq<seq<Cell>>, columns: seq<Column>, curated: seq<int>,
                                divFrames: map<int, nat>)
    returns (table: seq<seq<Cell>>)
    requires forall j :: 0 <= j < |curated| ==> curated[j] in divFrames
    requires forall f :: 0 <= f < |rows| ==> |rows[f]| == |columns|
    ensures |table| == |rows|
    ensures forall f :: 0 <= f < |rows| ==> |table[f]| == |columns|
    ensures forall f, c :: 0 <= f < |rows| && 0 <= c < |columns| ==>
      table[f][c] == ShiftCell(rows[f][c], TotalShift(columns[c], curated, divFrames))
  {
    table := rows;
    for i := 0 to |curated|
      invariant |table| == |rows|
      invariant forall f :: 0 <= f < |rows| ==> |table[f]| == |columns|
      invariant forall f, c :: 0 <= f < |rows| && 0 <= c < |columns| ==>
        table[f][c] == ShiftCell(rows[f][c], TotalShift(columns[c], curated[..i], divFrames))
    {
      var t := curated[i];
      table := ShiftTrackTime(table, columns, t, divFrames[t]);
      assert curated[..i + 1][..i] == curated[..i];
      forall f, c | 0 <= f < |rows| && 0 <= c < |columns|
        ensures table[f][c] == ShiftCell(rows[f][c], TotalShift(columns[c], curated[..i + 1], divFrames))
      {
        ShiftCellTwice(rows[f][c], TotalShift(columns[c], curated[..i], divFrames), divFrames[t]);
      }
    }
    assert curated[..|curated|] == curated;
  }

  /** Cell 3 + 7j + k of a raw row is cell k of the j-th track's block. */
  lemma RawRowCell(dfc: seq<Spot>, curated: seq<int>, median: seq<int> -> Cell, f: int, j: nat, k: nat)
    requires j < |curated| && k < 7
    ensures RawRow(dfc, curated, median, f)[3 + 7 * j + k] == TrackBlock(OfTrack(AtFrame(dfc, f), curated[j]), f)[k]
  {
    BlocksAt(AtFrame(dfc, f), curated, f, j, k);
  }

  /** The post-pass subtracts from the j-th time column the division frame
      of its track once per occurrence of the track. */
  lemma TimeColumnShift(curated: seq<int>, divFrames: map<int, nat>, j: nat)
    requires j < |curated|
    requires forall i :: 0 <= i < |curated| ==> curated[i] in divFrames
    ensures TotalShift(Columns(curated)[3 + 7 * j], curated, divFrames) ==
      multiset(curated)[curated[j]] * divFrames[curated[j]]
  {
    ColumnsAt(curated, j, 0);
    TotalShiftOfTime(curated, divFrames, curated[j]);
  }

  /** The post-pass leaves the other columns of every block alone. */
  lemma BlockColumnShift(curated: seq<int>, divFrames: map<int, nat>, j: nat, k: nat)
    requires j < |curated| && 0 < k < 7
    requires forall i :: 0 <= i < |curated| ==> curated[i] in divFrames
    ensures TotalShift(Columns(curated)[3 + 7 * j + k], curated, divFrames) == 0
  {
    ColumnsAt(curated, j, k);
    TotalShiftOfOther(Columns(curated)[3 + 7 * j + k], curated, divFrames);
  }

  /** Shifting a track's time cell by its division frame, once per
      occurrence, gives AlignedTime. */
  lemma ShiftedTime(dfc: seq<Spot>, curated: seq<int>, t: int, f: int)
    ensures ShiftCell(TrackBlock(OfTrack(AtFrame(dfc, f), t), f)[0], multiset(curated)[t] * DivFrame(dfc, t))
            == AlignedTime(dfc, curated, t, f)
  {
  }

  /** The part of the post-pass's outcome the cell lemmas start from: every
      cell of the table is the raw cell minus the shift of its column. */
  ghost predicate ShiftedRows(dfc: seq<Spot>, curated: seq<int>, median: seq<int> -> Cell,
                              divFrames: map<int, nat>, table: seq<seq<Cell>>)
    requires forall i :: 0 <= i < |curated| ==> curated[i] in divFrames
  {
    var rows := RawRows(dfc, curated, median, FrameCount);
    |table| == FrameCount &&
    (forall f :: 0 <= f < FrameCount ==> |table[f]| == 3 + 7 * |curated|) &&
    forall f, c :: 0 <= f < FrameCount && 0 <= c < 3 + 7 * |curated| ==>
      table[f][c] == ShiftCell(rows[f][c], TotalShift(Columns(curated)[c], curated, divFrames))
  }

  /** After the post-pass, the three header cells are unchanged. */
  lemma FinishedHeaders(dfc: seq<Spot>, curated: seq<int>, median: seq<int> -> Cell, divFrames: map<int, nat>,
                        table: seq<seq<Cell>>)
    requires forall i :: 0 <= i < |curated| ==> curated[i] in divFrames
    requires ShiftedRows(dfc, curated, median, divFrames, table)
    ensures forall f :: 0 <= f < FrameCount ==>
      table[f][0] == Num(f) &&
      table[f][1] == median(GfpValues(AtFrame(dfc, f))) &&
      table[f][2] == median(Cy3Values(AtFrame(dfc, f)))
  {
    forall f | 0 <= f < FrameCount
      ensures table[f][0] == Num(f) &&
        table[f][1] == median(GfpValues(AtFrame(dfc, f))) &&
        table[f][2] == median(Cy3Values(AtFrame(dfc, f)))
    {
      HeaderCell(dfc, curated, median, divFrames, table, f, 0);
      HeaderCell(dfc, curated, median, divFrames, table, f, 1);
      HeaderCell(dfc, curated, median, divFrames, table, f, 2);
    }
  }

  /** One header cell after the post-pass is its raw cell. */
  lemma HeaderCell(dfc: seq<Spot>, curated: seq<int>, median: seq<int> -> Cell, divFrames: map<int, nat>,
                   table: seq<seq<Cell>>, f: nat, c: nat)
    requires forall i :: 0 <= i < |curated| ==> curated[i] in divFrames
    requires ShiftedRows(dfc, curated, median, divFrames, table)
    requires f < FrameCount && c < 3
    ensures table[f][c] == RawRow(dfc, curated, median, f)[c]
  {
    RawRowsAt(dfc, curated, median, FrameCount, f);
    TotalShiftOfOther(Columns(curated)[c], curated, divFrames);
    ShiftCellZero(RawRow(dfc, curated, median, f)[c]);
  }

  /** After the post-pass, the time cell of every block is AlignedTime. */
  lemma FinishedTimes(dfc: seq<Spot>, curated: seq<int>, median: seq<int> -> Cell, divFrames: map<int, nat>,
                      table: seq<seq<Cell>>)
    requires forall i :: 0 <= i < |curated| ==> curated[i] in divFrames
    requires forall i :: 0 <= i < |curated| ==> divFrames[curated[i]] == DivFrame(dfc, curated[i])
    requires ShiftedRows(dfc, curated, median, divFrames, table)
    ensures forall f, j :: 0 <= f < FrameCount && 0 <= j < |curated| ==>
      table[f][3 + 7 * j] == AlignedTime(dfc, curated, curated[j], f)
  {
    forall f, j | 0 <= f < FrameCount && 0 <= j < |curated|
      ensures table[f][3 + 7 * j] == AlignedTime(dfc, curated, curated[j], f)
    {
      var t := curated[j];
      var raw := TrackBlock(OfTrack(AtFrame(dfc, f), t), f)[0];
      assert RawRows(dfc, curated, median, FrameCount)[f][3 + 7 * j] == raw by {
        RawRowsAt(dfc, curated, median, FrameCount, f);
        RawRowCell(dfc, curated, median, f, j, 0);
      }
      assert TotalShift(Columns(curated)[3 + 7 * j], curated, divFrames) == multiset(curated)[t] * DivFrame(dfc, t) by {
        TimeColumnShift(curated, divFrames, j);
      }
      ShiftedTime(dfc, curated, t, f);
    }
  }

  /** After the post-pass, the other cells of every block are the block's. */
  lemma FinishedBlocks(dfc: seq<Spot>, curated: seq<int>, median: seq<int> -> Cell, divFrames: map<int, nat>,
                       table: seq<seq<Cell>>)
    requires forall i :: 0 <= i < |curated| ==> curated[i] in divFrames
    requires ShiftedRows(dfc, curated, median, divFrames, table)
    ensures forall f, j, k :: 0 <= f < FrameCount && 0 <= j < |curated| && 0 < k < 7 ==>
      table[f][3 + 7 * j + k] == TrackBlock(OfTrack(AtFrame(dfc, f), curated[j]), f)[k]
  {
    forall f, j, k | 0 <= f < FrameCount && 0 <= j < |curated| && 0 < k < 7
      ensures table[f][3 + 7 * j + k] == TrackBlock(OfTrack(AtFrame(dfc, f), curated[j]), f)[k]
    {
      var raw := TrackBlock(OfTrack(AtFrame(dfc, f), curated[j]), f)[k];
      assert RawRows(dfc, curated, median, FrameCount)[f][3 + 7 * j + k] == raw by {
        RawRowsAt(dfc, curated, median, FrameCount, f);
        RawRowCell(dfc, curated, median, f, j, k);
      }
      BlockColumnShift(curated, divFrames, j, k);
      ShiftCellZero(raw);
    }
  }

  /** The finished table of make_division_adjusted_tracks, for the curated
      records `dfc` and the sorted list `curated`: one row per frame, each
      starting with the frame number and the frame's two medians and holding
      in block j the aligned time of track curated[j] followed by cells 1..6
      of its block. */
  ghost predicate AlignedTable(dfc: seq<Spot>, curated: seq<int>, median: seq<int> -> Cell, table: seq<seq<Cell>>)
  {
    |table| == FrameCount &&
    (forall f :: 0 <= f < FrameCount ==> |table[f]| == 3 + 7 * |curated|) &&
    (forall f :: 0 <= f < FrameCount ==>
      table[f][0] == Num(f) &&
      table[f][1] == median(GfpValues(AtFrame(dfc, f))) &&
      table[f][2] == median(Cy3Values(AtFrame(dfc, f)))) &&
    (forall f, j :: 0 <= f < FrameCount && 0 <= j < |curated| ==>
      table[f][3 + 7 * j] == AlignedTime(dfc, curated, curated[j], f)) &&
    (forall f, j, k :: 0 <= f < FrameCount && 0 <= j < |curated| && 0 < k < 7 ==>
      table[f][3 + 7 * j + k] == TrackBlock(OfTrack(AtFrame(dfc, f), curated[j]), f)[k])
  }

  /** The post-pass turns the raw rows into the aligned table. */
  lemma FinishedTable(dfc: seq<Spot>, curated: seq<int>, median: seq<int> -> Cell, divFrames: map<int, nat>,
                      table: seq<seq<Cell>>)
    requires forall i :: 0 <= i < |curated| ==> curated[i] in divFrames
    requires forall i :: 0 <= i < |curated| ==> divFrames[curated[i]] == DivFrame(dfc, curated[i])
    requires ShiftedRows(dfc, curated, median, divFrames, table)
    ensures AlignedTable(dfc, curated, median, table)
  {
    FinishedHeaders(dfc, curated, median, divFrames, table);
    FinishedTimes(dfc, curated, median, divFrames, table);
    FinishedBlocks(dfc, curated, median, divFrames, table);
  }

  /** The raw rows of frames 0..n-1, in frame order. */
  function RawRows(dfc: seq<Spot>, curated: seq<int>, median: seq<int> -> Cell, n: nat): (rows: seq<seq<Cell>>)
    ensures |rows| == n
    ensures forall g :: 0 <= g < n ==> |rows[g]| == 3 + 7 * |curated|
  {
    if n == 0 then [] else RawRows(dfc, curated, median, n - 1) + [RawRow(dfc, curated, median, n - 1)]
  }

  /** Row g of RawRows is the raw row of frame g. */
  lemma {:induction false} RawRowsAt(dfc: seq<Spot>, curated: seq<int>, median: seq<int> -> Cell, n: nat, g: nat)
    requires g < n
    ensures RawRows(dfc, curated, median, n)[g] == RawRow(dfc, curated, median, g)
  {
    if g < n - 1 {
      RawRowsAt(dfc, curated, median, n - 1, g);
    }
  }

  /** The loop over frames 0..199: the raw rows, and div_frames holding for
      every curated track its first frame with more than one record. */
  method FrameRows(dfc: seq<Spot>, curated: seq<int>, median: seq<int> -> Cell)
    returns (rows: seq<seq<Cell>>, div: map<int, Option<nat>>)
    ensures rows == RawRows(dfc, curated, median, FrameCount)
    ensures forall t :: t in div <==> t in curated
    ensures forall t :: t in curated ==> div[t] == FirstDivisionBefore(dfc, t, FrameCount)
  {
    div := map t | t in curated :: None;
    rows := [];
    for f := 0 to FrameCount
      invariant rows == RawRows(dfc, curated, median, f)
      invariant forall t :: t in div <==> t in curated
      invariant forall t :: t in curated ==> div[t] == FirstDivisionBefore(dfc, t, f)
    {
      var row;
      row, div := FrameRow(dfc, curated, median, f, div);
      rows := rows + [row];
    }
  }

  /** The rows of div_frames as whole frames (0 for a track that never
      divides), and the post-pass that subtracts them from the time columns. */
  method AlignRows(dfc: seq<Spot>, curated: seq<int>, median: seq<int> -> Cell,
                   rows: seq<seq<Cell>>, div: map<int, Option<nat>>)
    returns (columns: seq<Column>, table: seq<seq<Cell>>, divFrames: map<int, nat>)
    requires rows == RawRows(dfc, curated, median, FrameCount)
    requires forall t :: t in div <==> t in curated
    requires forall t :: t in curated ==> div[t] == FirstDivisionBefore(dfc, t, FrameCount)
    ensures columns == Columns(curated)
    ensures forall t :: t in divFrames <==> t in curated
    ensures forall t :: t in curated ==> divFrames[t] == DivFrame(dfc, t)
    ensures AlignedTable(dfc, curated, median, table)
  {
    divFrames := map t | t in div :: if div[t].None? then 0 else div[t].value;
    forall i | 0 <= i < |curated|
      ensures curated[i] in divFrames && divFrames[curated[i]] == DivFrame(dfc, curated[i])
    {
      var t := curated[i];
      assert t in curated;
      assert t in div;
    }
    assert forall t :: t in divFrames <==> t in curated by {
      assert divFrames.Keys == div.Keys;
    }
    columns := Columns(curated);
    table := SubtractDivisionFrames(rows, columns, curated, divFrames);
    FinishedTable(dfc, curated, median, divFrames, table);
  }

  /** make_division_adjusted_tracks, with the CSV input already parsed, the
      median as a parameter and the table returned instead of written. */
  method MakeDivisionAdjustedTracks(curatedList: seq<int>, spots: seq<Spot>, median: seq<int> -> Cell)
    returns (columns: seq<Column>, table: seq<seq<Cell>>, divFrames: map<int, nat>)
    ensures columns == Columns(Sort(curatedList))
    ensures forall t :: t in divFrames <==> t in curatedList
    ensures forall t :: t in curatedList ==> divFrames[t] == DivFrame(CuratedOnly(spots, Sort(curatedList)), t)
    ensures AlignedTable(CuratedOnly(spots, Sort(curatedList)), Sort(curatedList), median, table)
  {
    var curated := Sort(curatedList);
    assert forall t :: t in curated <==> t in curatedList by {
      assert forall t :: t in curated <==> t in multiset(curated);
    }
    var dfc := CuratedOnly(spots, curated);
    var rows, div := FrameRows(dfc, curated, median);
    columns, table, divFrames := AlignRows(dfc, curated, median, rows, div);
  }
}
