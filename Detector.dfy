/** The division-candidate detector of src/TrackMate_filter.py: for every
    track of TrackMate's spot table, count the records per frame and flag the
    track when the count at the first frame holding two or more records is
    also the count at the track's last frame (the split persists). */
module Detector {
  import opened Common

  /** One row of TrackMate's "Spots in tracks statistics" table, as far as the
      detector and the curation renderer read it. The TRACK_ID column holds the
      text 'None' for spots outside any track, so identifiers are strings. */
  datatype Spot = Spot(track: string, frame: nat, x: real, y: real)

  /** The TRACK_ID value TrackMate writes for a spot that belongs to no track. */
  const NoneTrack: string := "None"

  // ---------------------------------------------------------------------------
  // The order numpy sorts strings in: code point by code point, a proper
  // prefix first.
  // ---------------------------------------------------------------------------

  predicate LexLess(a: string, b: string)
    decreases |a|
  {
    if |a| == 0 then |b| > 0
    else if |b| == 0 then false
    else if a[0] != b[0] then a[0] < b[0]
    else LexLess(a[1..], b[1..])
  }

  lemma {:induction false} LexIrreflexive(a: string)
    ensures !LexLess(a, a)
    decreases |a|
  {
    if |a| > 0 {
      LexIrreflexive(a[1..]);
    }
  }

  lemma {:induction false} LexTransitive(a: string, b: string, c: string)
    requires LexLess(a, b) && LexLess(b, c)
    ensures LexLess(a, c)
    decreases |a|
  {
    if |a| > 0 && |b| > 0 && |c| > 0 && a[0] == b[0] && b[0] == c[0] {
      LexTransitive(a[1..], b[1..], c[1..]);
    }
  }

  lemma {:induction false} LexTotal(a: string, b: string)
    ensures a == b || LexLess(a, b) || LexLess(b, a)
    decreases |a|
  {
    if |a| > 0 && |b| > 0 && a[0] == b[0] {
      LexTotal(a[1..], b[1..]);
      if a[1..] == b[1..] {
        assert a == [a[0]] + a[1..] && b == [b[0]] + b[1..];
      }
    }
  }

  /** Every element strictly before every later one: sorted and duplicate-free. */
  ghost predicate StrictlyAscending(s: seq<string>)
  {
    forall i, j :: 0 <= i < j < |s| ==> LexLess(s[i], s[j])
  }

  lemma AscendingCons(x: string, s: seq<string>)
    requires StrictlyAscending(s)
    requires |s| > 0 ==> LexLess(x, s[0])
    ensures StrictlyAscending([x] + s)
  {
    forall j | 0 < j < |s|
      ensures LexLess(x, s[j])
    {
      LexTransitive(x, s[0], s[j]);
    }
  }

  lemma AscendingSnoc(s: seq<string>, x: string)
    requires StrictlyAscending(s)
    requires forall t :: t in s ==> LexLess(t, x)
    ensures StrictlyAscending(s + [x])
  {
    forall i | 0 <= i < |s|
      ensures LexLess(s[i], x)
    {
      assert s[i] in s;
    }
  }

  /** An ascending sequence holds no identifier twice. */
  lemma AscendingDistinct(s: seq<string>)
    requires StrictlyAscending(s)
    ensures forall i, j :: 0 <= i < j < |s| ==> s[i] != s[j]
  {
    forall i, j | 0 <= i < j < |s|
      ensures s[i] != s[j]
    {
      LexIrreflexive(s[i]);
    }
  }

  /** Insert one identifier into an ascending, duplicate-free sequence. */
  function InsertId(ids: seq<string>, t: string): (r: seq<string>)
    requires StrictlyAscending(ids)
    ensures StrictlyAscending(r)
    ensures forall u :: u in r <==> u in ids || u == t
  {
    if |ids| == 0 then [t]
    else if t == ids[0] then ids
    else if LexLess(t, ids[0]) then
      AscendingCons(t, ids);
      [t] + ids
    else
      LexTotal(t, ids[0]);
      var rest := InsertId(ids[1..], t);
      assert |rest| > 0 ==> rest[0] in rest;
      AscendingCons(ids[0], rest);
      [ids[0]] + rest
  }

  /** The set of values in the TRACK_ID column. */
  function TrackIds(spots: seq<Spot>): set<string>
  {
    set s | s in spots :: s.track
  }

  /** np.unique(df['TRACK_ID']): every identifier of the table once, ascending. */
  function UniqueIds(spots: seq<Spot>): (ids: seq<string>)
    ensures StrictlyAscending(ids)
    ensures forall t :: t in ids <==> t in TrackIds(spots)
  {
    if |spots| == 0 then []
    else
      var n := |spots| - 1;
      assert spots == spots[..n] + [spots[n]];
      InsertId(UniqueIds(spots[..n]), spots[n].track)
  }

  /** df[df['TRACK_ID'] == t]['FRAME']: the frames of the track's records, in
      table order, one entry per record. */
  function FramesOf(spots: seq<Spot>, t: string): (frames: seq<nat>)
    ensures |frames| > 0 <==> t in TrackIds(spots)
  {
    if |spots| == 0 then []
    else
      var n := |spots| - 1;
      assert spots == spots[..n] + [spots[n]];
      FramesOf(spots[..n], t) + if spots[n].track == t then [spots[n].frame] else []
  }

  // ---------------------------------------------------------------------------
  // np.unique(frames, return_counts=True)
  // ---------------------------------------------------------------------------

  /** Distinct frames in ascending order and, at the same index, how many
      records fall on that frame. */
  datatype Histogram = Histogram(frames: seq<nat>, counts: seq<nat>)
  {
    ghost predicate Valid()
    {
      |frames| == |counts| &&
      (forall i, j :: 0 <= i < j < |frames| ==> frames[i] < frames[j]) &&
      (forall i :: 0 <= i < |counts| ==> counts[i] > 0)
    }
  }

  /** `h` is the histogram of the multiset `m` of frames. */
  ghost predicate Represents(h: Histogram, m: multiset<nat>)
  {
    h.Valid() &&
    (forall i :: 0 <= i < |h.frames| ==> h.counts[i] == m[h.frames[i]]) &&
    (forall f :: f in m <==> f in h.frames)
  }

  /** Count one more record at frame `f`. */
  function AddFrame(h: Histogram, f: nat): (r: Histogram)
    requires h.Valid()
    ensures r.Valid()
    ensures forall g :: g in r.frames <==> g in h.frames || g == f
    decreases |h.frames|
  {
    if |h.frames| == 0 then Histogram([f], [1])
    else if f < h.frames[0] then Histogram([f] + h.frames, [1] + h.counts)
    else if f == h.frames[0] then Histogram(h.frames, h.counts[0 := h.counts[0] + 1])
    else
      var rest := AddFrame(Histogram(h.frames[1..], h.counts[1..]), f);
      assert forall j :: 0 <= j < |rest.frames| ==> rest.frames[j] in rest.frames;
      Histogram([h.frames[0]] + rest.frames, [h.counts[0]] + rest.counts)
  }

  /** Dropping the first bin leaves the histogram of the other frames. */
  lemma TailRepresents(h: Histogram, m: multiset<nat>)
    requires Represents(h, m) && |h.frames| > 0
    ensures Represents(Histogram(h.frames[1..], h.counts[1..]), m[h.frames[0] := 0])
  {
    var tail := Histogram(h.frames[1..], h.counts[1..]);
    var m' := m[h.frames[0] := 0];
    forall g
      ensures g in m' <==> g in tail.frames
    {
      if g in tail.frames {
        var k :| 0 <= k < |tail.frames| && tail.frames[k] == g;
        assert h.frames[k + 1] == g;
      }
      if g in m' {
        assert g in h.frames && g != h.frames[0];
      }
    }
  }

  /** A bin below every other bin, for a frame absent from `m`, extends the
      histogram of `m`. */
  lemma ConsRepresents(first: nat, c: nat, rest: Histogram, m: multiset<nat>)
    requires Represents(rest, m) && first !in m && c > 0
    requires forall g :: g in rest.frames ==> first < g
    ensures Represents(Histogram([first] + rest.frames, [c] + rest.counts), m[first := c])
  {
    var r := Histogram([first] + rest.frames, [c] + rest.counts);
    forall i, j | 0 <= i < j < |r.frames|
      ensures r.frames[i] < r.frames[j]
    {
      assert rest.frames[j - 1] in rest.frames;
    }
    forall i | 0 < i < |r.frames|
      ensures r.counts[i] == m[first := c][r.frames[i]]
    {
      assert rest.frames[i - 1] in rest.frames;
    }
  }

  lemma AddFrameBelow(h: Histogram, m: multiset<nat>, f: nat)
    requires Represents(h, m) && |h.frames| > 0 && f < h.frames[0]
    ensures Represents(Histogram([f] + h.frames, [1] + h.counts), m + multiset{f})
  {
    forall g | g in h.frames
      ensures f < g
    {
      var k :| 0 <= k < |h.frames| && h.frames[k] == g;
    }
    ConsRepresents(f, 1, h, m);
    assert m[f := 1] == m + multiset{f};
  }

  lemma AddFrameSame(h: Histogram, m: multiset<nat>)
    requires Represents(h, m) && |h.frames| > 0
    ensures Represents(Histogram(h.frames, h.counts[0 := h.counts[0] + 1]), m + multiset{h.frames[0]})
  {
  }

  /** Inductive step of AddFrameRepresents: the first bin is kept and `f` is
      counted in the rest. */
  lemma AddFrameAbove(h: Histogram, m: multiset<nat>, f: nat, rest: Histogram)
    requires Represents(h, m) && |h.frames| > 0 && f > h.frames[0]
    requires forall g :: g in rest.frames <==> g in h.frames[1..] || g == f
    requires Represents(rest, m[h.frames[0] := 0] + multiset{f})
    ensures Represents(Histogram([h.frames[0]] + rest.frames, [h.counts[0]] + rest.counts), m + multiset{f})
  {
    var first := h.frames[0];
    var m' := m[first := 0];
    forall g | g in rest.frames
      ensures first < g
    {
      if g != f {
        var k :| 0 <= k < |h.frames[1..]| && h.frames[1..][k] == g;
        assert h.frames[k + 1] == g;
      }
    }
    assert first !in m' + multiset{f};
    ConsRepresents(first, h.counts[0], rest, m' + multiset{f});
    assert (m' + multiset{f})[first := h.counts[0]] == m + multiset{f};
  }

  lemma {:induction false} AddFrameRepresents(h: Histogram, m: multiset<nat>, f: nat)
    requires Represents(h, m)
    ensures Represents(AddFrame(h, f), m + multiset{f})
    decreases |h.frames|
  {
    if |h.frames| == 0 {
      assert m == multiset{};
    } else if f < h.frames[0] {
      AddFrameBelow(h, m, f);
    } else if f == h.frames[0] {
      AddFrameSame(h, m);
    } else {
      var tail := Histogram(h.frames[1..], h.counts[1..]);
      TailRepresents(h, m);
      AddFrameRepresents(tail, m[h.frames[0] := 0], f);
      AddFrameAbove(h, m, f, AddFrame(tail, f));
    }
  }

  /** The histogram of a track's frames, built one record at a time. */
  function HistogramOf(frames: seq<nat>): (h: Histogram)
    ensures h.Valid()
  {
    if |frames| == 0 then Histogram([], [])
    else AddFrame(HistogramOf(frames[..|frames| - 1]), frames[|frames| - 1])
  }

  /** The histogram holds each distinct frame once, ascending, with a positive
      count equal to the number of records on that frame. */
  lemma {:induction false} HistogramCounts(frames: seq<nat>)
    ensures Represents(HistogramOf(frames), multiset(frames))
  {
    if |frames| > 0 {
      var n := |frames| - 1;
      HistogramCounts(frames[..n]);
      AddFrameRepresents(HistogramOf(frames[..n]), multiset(frames[..n]), frames[n]);
      MultisetSnoc(frames);
      HistogramOfSnoc(frames);
    }
  }

  /** The last record of a track is counted on top of the others. */
  lemma HistogramOfSnoc(frames: seq<nat>)
    requires |frames| > 0
    ensures HistogramOf(frames) == AddFrame(HistogramOf(frames[..|frames| - 1]), frames[|frames| - 1])
  {
  }

  function Sum(s: seq<nat>): nat
  {
    if |s| == 0 then 0 else s[0] + Sum(s[1..])
  }

  lemma {:induction false} AddFrameSum(h: Histogram, f: nat)
    requires h.Valid()
    ensures Sum(AddFrame(h, f).counts) == Sum(h.counts) + 1
    decreases |h.frames|
  {
    if |h.frames| == 0 {
    } else if f < h.frames[0] {
      assert ([1] + h.counts)[1..] == h.counts;
    } else if f == h.frames[0] {
      assert h.counts[0 := h.counts[0] + 1][1..] == h.counts[1..];
    } else {
      var tail := Histogram(h.frames[1..], h.counts[1..]);
      AddFrameSum(tail, f);
      assert ([h.counts[0]] + AddFrame(tail, f).counts)[1..] == AddFrame(tail, f).counts;
    }
  }

  /** The counts add up to the number of the track's records. */
  lemma {:induction false} HistogramSum(frames: seq<nat>)
    ensures Sum(HistogramOf(frames).counts) == |frames|
  {
    if |frames| > 0 {
      HistogramSum(frames[..|frames| - 1]);
      AddFrameSum(HistogramOf(frames[..|frames| - 1]), frames[|frames| - 1]);
    }
  }

  // ---------------------------------------------------------------------------
  // The per-track test
  // ---------------------------------------------------------------------------

  /** np.where(counts >= 2)[0][0]: the first index whose count is at least two. */
  function FirstMulti(counts: seq<nat>): (r: Option<nat>)
    ensures r.Some? ==> r.value < |counts| && counts[r.value] >= 2
    ensures r.Some? ==> forall i :: 0 <= i < r.value ==> counts[i] < 2
    ensures r.None? ==> forall i :: 0 <= i < |counts| ==> counts[i] < 2
  {
    if |counts| == 0 then None
    else if counts[0] >= 2 then Some(0)
    else
      match FirstMulti(counts[1..])
      case None => None
      case Some(k) => Some(k + 1)
  }

  /** The test of the detection loop: a frame with two or more records exists,
      and the count there equals the count at the last frame. */
  predicate FlagsSplit(h: Histogram)
    requires |h.frames| == |h.counts|
  {
    match FirstMulti(h.counts)
    case None => false
    case Some(i) => h.counts[i] == h.counts[|h.counts| - 1]
  }

  /** The highest frame among a track's records. */
  function MaxFrame(frames: seq<nat>): (m: nat)
    requires |frames| > 0
    ensures m in frames
    ensures forall f :: f in frames ==> f <= m
  {
    if |frames| == 1 then frames[0]
    else
      var r := MaxFrame(frames[1..]);
      assert forall f :: f in frames ==> f == frames[0] || f in frames[1..];
      if frames[0] >= r then frames[0] else r
  }

  /** The division-candidate condition stated on the records themselves: some
      frame `f` carries two or more records, no earlier frame does, and the
      last frame carries as many records as `f`. */
  ghost predicate SplitPersists(frames: seq<nat>)
  {
    exists f ::
      f in frames && multiset(frames)[f] >= 2 &&
      (forall g :: g in frames && g < f ==> multiset(frames)[g] < 2) &&
      multiset(frames)[f] == multiset(frames)[MaxFrame(frames)]
  }

  /** The last bin of a histogram of the track's frames is the highest frame. */
  lemma LastBinIsMax(h: Histogram, frames: seq<nat>)
    requires Represents(h, multiset(frames)) && |frames| > 0
    ensures |h.frames| > 0 && h.frames[|h.frames| - 1] == MaxFrame(frames)
  {
    var mx := MaxFrame(frames);
    assert mx in multiset(frames);
    var k :| 0 <= k < |h.frames| && h.frames[k] == mx;
    var last := |h.frames| - 1;
    assert h.frames[last] in h.frames;
    assert h.frames[last] in frames;
    assert h.frames[last] <= mx;
  }

  /** The histogram test flags exactly the tracks whose records satisfy the
      division-candidate condition. */
  lemma FlagsSplitIff(frames: seq<nat>)
    ensures FlagsSplit(HistogramOf(frames)) <==> SplitPersists(frames)
  {
    HistogramCounts(frames);
    HistogramTestIff(HistogramOf(frames), frames);
  }

  /** FlagsSplitIff for any histogram of the frames. */
  lemma HistogramTestIff(h: Histogram, frames: seq<nat>)
    requires Represents(h, multiset(frames))
    ensures FlagsSplit(h) <==> SplitPersists(frames)
  {
    if |frames| > 0 {
      if FlagsSplit(h) {
        FlaggedPersists(h, frames);
      }
      if SplitPersists(frames) {
        PersistsFlagged(h, frames);
      }
    }
  }

  lemma FlaggedPersists(h: Histogram, frames: seq<nat>)
    requires Represents(h, multiset(frames)) && |frames| > 0
    requires FlagsSplit(h)
    ensures SplitPersists(frames)
  {
    var m := multiset(frames);
    LastBinIsMax(h, frames);
    var i := FirstMulti(h.counts).value;
    var f := h.frames[i];
    assert f in h.frames;
    forall g | g in frames && g < f
      ensures m[g] < 2
    {
      assert g in m;
      var k :| 0 <= k < |h.frames| && h.frames[k] == g;
      assert k < i;
    }
    assert m[f] == m[MaxFrame(frames)];
  }

  lemma PersistsFlagged(h: Histogram, frames: seq<nat>)
    requires Represents(h, multiset(frames)) && |frames| > 0
    requires SplitPersists(frames)
    ensures FlagsSplit(h)
  {
    var m := multiset(frames);
    var f :| f in frames && m[f] >= 2 &&
      (forall g :: g in frames && g < f ==> m[g] < 2) &&
      m[f] == m[MaxFrame(frames)];
    assert f in m;
    var k :| 0 <= k < |h.frames| && h.frames[k] == f;
    LastBinIsMax(h, frames);
    PersistsAtBin(h, m, k);
  }

  /** The bin of the lowest frame with two or more records, holding the
      count of the last bin, makes the test hold. */
  lemma PersistsAtBin(h: Histogram, m: multiset<nat>, k: nat)
    requires Represents(h, m) && k < |h.frames| && m[h.frames[k]] >= 2
    requires forall g :: g in m && g < h.frames[k] ==> m[g] < 2
    requires m[h.frames[k]] == m[h.frames[|h.frames| - 1]]
    ensures FlagsSplit(h)
  {
    FirstMultiBin(h, m, h.frames[k], k);
    FlagsAtBin(h, k);
  }

  /** The test holds when the first bin with two or more records has the
      count of the last bin. */
  lemma FlagsAtBin(h: Histogram, k: nat)
    requires |h.frames| == |h.counts| && k < |h.counts|
    requires FirstMulti(h.counts) == Some(k)
    requires h.counts[k] == h.counts[|h.counts| - 1]
    ensures FlagsSplit(h)
  {
  }

  /** The first bin with two or more records is the bin of the lowest frame
      with two or more records. */
  lemma FirstMultiBin(h: Histogram, m: multiset<nat>, f: nat, k: nat)
    requires Represents(h, m) && k < |h.frames| && h.frames[k] == f && m[f] >= 2
    requires forall g :: g in m && g < f ==> m[g] < 2
    ensures FirstMulti(h.counts) == Some(k)
  {
  }

  /** A track with exactly one record at every frame is never flagged. */
  lemma SingleRecordsNeverFlagged(frames: seq<nat>)
    requires forall f :: f in frames ==> multiset(frames)[f] == 1
    ensures !FlagsSplit(HistogramOf(frames))
  {
    FlagsSplitIff(frames);
  }

  /** A track whose count at its first multi-record frame `f` differs from the
      count at its last frame (for example one that reverts to a single
      record) is not flagged. */
  lemma RevertingNotFlagged(frames: seq<nat>, f: nat)
    requires f in frames && multiset(frames)[f] >= 2
    requires forall g :: g in frames && g < f ==> multiset(frames)[g] < 2
    requires multiset(frames)[f] != multiset(frames)[MaxFrame(frames)]
    ensures !FlagsSplit(HistogramOf(frames))
  {
    FlagsSplitIff(frames);
    forall g | g in frames && multiset(frames)[g] >= 2 &&
      (forall e :: e in frames && e < g ==> multiset(frames)[e] < 2)
      ensures g == f
    {
      assert !(g < f) && !(f < g);
    }
  }

  /** A record above the first bin keeps that bin and is counted in the rest. */
  lemma AddFrameKeepsFirst(h: Histogram, f: nat)
    requires h.Valid() && |h.frames| > 0 && h.frames[0] < f
    ensures Histogram(h.frames[1..], h.counts[1..]).Valid()
    ensures var rest := AddFrame(Histogram(h.frames[1..], h.counts[1..]), f);
      AddFrame(h, f) == Histogram([h.frames[0]] + rest.frames, [h.counts[0]] + rest.counts)
  {
  }

  /** A non-empty sequence is its head followed by its tail, also after an
      append. */
  lemma ConsAppend(s: seq<nat>, x: nat)
    requires |s| > 0
    ensures [s[0]] + s[1..] == s
    ensures [s[0]] + (s[1..] + [x]) == s + [x]
  {
  }

  /** Replacing the last element of a sequence, seen through its head and tail. */
  lemma ConsUpdateLast(s: seq<nat>, v: nat)
    requires |s| > 1
    ensures [s[0]] + s[1..][|s| - 2 := v] == s[|s| - 1 := v]
  {
  }

  /** Inductive step of AddFrameAfterLast: the new bin is appended to the rest. */
  lemma AfterLastStep(h: Histogram, tail: Histogram, f: nat)
    requires h.Valid() && |h.frames| > 0 && h.frames[|h.frames| - 1] < f
    requires tail == Histogram(h.frames[1..], h.counts[1..]) && tail.Valid()
    requires AddFrame(tail, f) == Histogram(tail.frames + [f], tail.counts + [1])
    ensures AddFrame(h, f) == Histogram(h.frames + [f], h.counts + [1])
  {
    assert h.frames[0] < f by {
      if |h.frames| > 1 { assert h.frames[0] < h.frames[|h.frames| - 1]; }
    }
    AddFrameKeepsFirst(h, f);
    ConsAppend(h.frames, f);
    ConsAppend(h.counts, 1);
  }

  /** A record on a frame beyond every counted frame opens a new last bin. */
  lemma {:induction false} AddFrameAfterLast(h: Histogram, f: nat)
    requires h.Valid() && (|h.frames| > 0 ==> h.frames[|h.frames| - 1] < f)
    ensures AddFrame(h, f) == Histogram(h.frames + [f], h.counts + [1])
    decreases |h.frames|
  {
    if |h.frames| > 0 {
      var tail := Histogram(h.frames[1..], h.counts[1..]);
      assert tail.Valid();
      AddFrameAfterLast(tail, f);
      AfterLastStep(h, tail, f);
    }
  }

  /** Inductive step of AddFrameAtLast: the raised bin is the rest's last. */
  lemma AtLastStep(h: Histogram, tail: Histogram, f: nat)
    requires h.Valid() && |h.frames| > 1 && h.frames[|h.frames| - 1] == f
    requires tail == Histogram(h.frames[1..], h.counts[1..]) && tail.Valid()
    requires AddFrame(tail, f) ==
      Histogram(tail.frames, tail.counts[|tail.counts| - 1 := tail.counts[|tail.counts| - 1] + 1])
    ensures AddFrame(h, f) == Histogram(h.frames, h.counts[|h.counts| - 1 := h.counts[|h.counts| - 1] + 1])
  {
    assert h.frames[0] < h.frames[|h.frames| - 1];
    assert h.counts[1..][|h.counts| - 2] == h.counts[|h.counts| - 1];
    AddFrameKeepsFirst(h, f);
    ConsAppend(h.frames, f);
    ConsUpdateLast(h.counts, h.counts[|h.counts| - 1] + 1);
  }

  /** A record on the last counted frame raises the last bin's count. */
  lemma {:induction false} AddFrameAtLast(h: Histogram, f: nat)
    requires h.Valid() && |h.frames| > 0 && h.frames[|h.frames| - 1] == f
    ensures AddFrame(h, f) == Histogram(h.frames, h.counts[|h.counts| - 1 := h.counts[|h.counts| - 1] + 1])
    decreases |h.frames|
  {
    if |h.frames| == 1 {
      assert AddFrame(h, f) == Histogram(h.frames, h.counts[0 := h.counts[0] + 1]);
    } else {
      var tail := Histogram(h.frames[1..], h.counts[1..]);
      assert tail.Valid();
      AddFrameAtLast(tail, f);
      AtLastStep(h, tail, f);
    }
  }

  /** Appending a record on a frame after every counted frame appends a bin
      with count 1 to the histogram of the earlier records. */
  lemma HistogramNewLast(frames: seq<nat>, frs: seq<nat>, cs: seq<nat>, x: nat)
    requires HistogramOf(frames) == Histogram(frs, cs)
    requires |frs| > 0 ==> frs[|frs| - 1] < x
    ensures HistogramOf(frames + [x]) == Histogram(frs + [x], cs + [1])
  {
    assert (frames + [x])[..|frames|] == frames;
    AddFrameAfterLast(Histogram(frs, cs), x);
  }

  /** Appending a record on the last counted frame raises that bin by one. */
  lemma HistogramRepeatLast(frames: seq<nat>, frs: seq<nat>, cs: seq<nat>, c: nat)
    requires HistogramOf(frames) == Histogram(frs, cs)
    requires |frs| > 0 && frs[|frs| - 1] == c
    ensures HistogramOf(frames + [c]) == Histogram(frs, cs[|cs| - 1 := cs[|cs| - 1] + 1])
  {
    assert (frames + [c])[..|frames|] == frames;
    AddFrameAtLast(Histogram(frs, cs), c);
  }

  /** Two records on two ascending frames give two bins of count 1. */
  lemma DistinctPair(a: nat, b: nat)
    requires a < b
    ensures HistogramOf([a, b]) == Histogram([a, b], [1, 1])
  {
    HistogramNewLast([], [], [], a);
    assert [] + [a] == [a];
    HistogramNewLast([a], [a], [1], b);
    assert [a] + [b] == [a, b];
  }

  /** Three records on three ascending frames give three bins of count 1. */
  lemma DistinctTriple(a: nat, b: nat, c: nat)
    requires a < b < c
    ensures HistogramOf([a, b, c]) == Histogram([a, b, c], [1, 1, 1])
  {
    DistinctPair(a, b);
    HistogramNewLast([a, b], [a, b], [1, 1], c);
    assert [a, b] + [c] == [a, b, c];
  }

  /** A second record on the third frame raises its bin to 2. */
  lemma TripleThenRepeat(a: nat, b: nat, c: nat)
    requires a < b < c
    ensures HistogramOf([a, b, c, c]) == Histogram([a, b, c], [1, 1, 2])
  {
    DistinctTriple(a, b, c);
    HistogramRepeatLast([a, b, c], [a, b, c], [1, 1, 1], c);
    assert [a, b, c] + [c] == [a, b, c, c];
    assert [1, 1, 1][2 := 2] == [1, 1, 2];
  }

  /** Two records on frame c and one on the later frame d: the first count
      of 2 differs from the last count of 1, so the track is not flagged. */
  lemma RevertingSplit(a: nat, b: nat, c: nat, d: nat)
    requires a < b < c < d
    ensures !FlagsSplit(HistogramOf([a, b, c, c, d]))
  {
    TripleThenRepeat(a, b, c);
    HistogramNewLast([a, b, c, c], [a, b, c], [1, 1, 2], d);
    assert [a, b, c, c] + [d] == [a, b, c, c, d];
    assert HistogramOf([a, b, c, c, d]) == Histogram([a, b, c, d], [1, 1, 2, 1]);
    assert FirstMulti([1, 1, 2, 1]) == Some(2);
  }

  /** Two records on the last frame d after single records before it: the
      first count of 2 is the last count, so the track is flagged. */
  lemma PersistingSplit(a: nat, b: nat, c: nat, d: nat)
    requires a < b < c < d
    ensures FlagsSplit(HistogramOf([a, b, c, d, d]))
  {
    DistinctTriple(a, b, c);
    HistogramNewLast([a, b, c], [a, b, c], [1, 1, 1], d);
    assert [a, b, c] + [d] == [a, b, c, d];
    HistogramRepeatLast([a, b, c, d], [a, b, c, d], [1, 1, 1, 1], d);
    assert [a, b, c, d] + [d] == [a, b, c, d, d];
    assert [1, 1, 1, 1][3 := 2] == [1, 1, 1, 2];
    assert HistogramOf([a, b, c, d, d]) == Histogram([a, b, c, d], [1, 1, 1, 2]);
    assert FirstMulti([1, 1, 1, 2]) == Some(3);
  }

  /** A track on frames 0, 1, 2, 2, 3 is not flagged. */
  lemma RevertingExample()
    ensures !FlagsSplit(HistogramOf([0, 1, 2, 2, 3]))
  {
    RevertingSplit(0, 1, 2, 3);
  }

  /** A track on frames 0, 1, 2, 3, 3 is flagged. */
  lemma PersistingExample()
    ensures FlagsSplit(HistogramOf([0, 1, 2, 3, 3]))
  {
    PersistingSplit(0, 1, 2, 3);
  }

  // ---------------------------------------------------------------------------
  // The detection loop
  // ---------------------------------------------------------------------------

  /** The test applied to one identifier inside the detection loop. */
  predicate Flagged(spots: seq<Spot>, t: string)
  {
    t != NoneTrack && FlagsSplit(HistogramOf(FramesOf(spots, t)))
  }

  /** Keeping the flagged identifiers of the table's identifier list keeps
      exactly the tracks other than 'None' whose records satisfy the
      division-candidate condition. */
  lemma SplitIsFlagged(spots: seq<Spot>, ids: seq<string>, split: seq<string>)
    requires forall t :: t in ids <==> t in TrackIds(spots)
    requires forall t :: t in split <==> t in ids && Flagged(spots, t)
    ensures forall t :: t in split <==>
      t in TrackIds(spots) && t != NoneTrack && SplitPersists(FramesOf(spots, t))
  {
    forall t
      ensures t in split <==>
        t in TrackIds(spots) && t != NoneTrack && SplitPersists(FramesOf(spots, t))
    {
      FlagsSplitIff(FramesOf(spots, t));
    }
  }

  /** One more identifier of the list is kept exactly when it is flagged. */
  lemma SplitStep(spots: seq<Spot>, ids: seq<string>, split: seq<string>, i: nat, next: seq<string>)
    requires i < |ids|
    requires forall t :: t in split <==> t in ids[..i] && Flagged(spots, t)
    requires next == if Flagged(spots, ids[i]) then split + [ids[i]] else split
    ensures forall t :: t in next <==> t in ids[..i + 1] && Flagged(spots, t)
  {
    assert ids[..i + 1] == ids[..i] + [ids[i]];
  }

  /** Every identifier taken from the first `i` of an ascending list lies
      below its `i`-th. */
  lemma FlaggedBelowNext(ids: seq<string>, split: seq<string>, i: nat)
    requires StrictlyAscending(ids) && i < |ids|
    requires forall t :: t in split ==> t in ids[..i]
    ensures forall t :: t in split ==> LexLess(t, ids[i])
  {
    forall t | t in split
      ensures LexLess(t, ids[i])
    {
      var k :| 0 <= k < i && ids[k] == t;
    }
  }

  /** The loop of src/TrackMate_filter.py over np.unique(df['TRACK_ID']):
      every identifier other than 'None' whose records satisfy the
      division-candidate condition is appended to `split`. */
  method DetectSplitTracks(spots: seq<Spot>) returns (split: seq<string>)
    ensures StrictlyAscending(split)
    ensures forall i, j :: 0 <= i < j < |split| ==> split[i] != split[j]
    ensures forall t :: t in split <==>
      t in TrackIds(spots) && t != NoneTrack && SplitPersists(FramesOf(spots, t))
  {
    var ids := UniqueIds(spots);
    split := [];
    var i := 0;
    while i < |ids|
      invariant 0 <= i <= |ids|
      invariant StrictlyAscending(split)
      invariant forall t :: t in split <==> t in ids[..i] && Flagged(spots, t)
      invariant i < |ids| ==> forall t :: t in split ==> LexLess(t, ids[i])
    {
      var track := ids[i];
      var next := split;
      if track != NoneTrack {
        var h := HistogramOf(FramesOf(spots, track));
        if FlagsSplit(h) {
          AscendingSnoc(split, track);
          next := split + [track];
        }
      }
      SplitStep(spots, ids, split, i, next);
      split := next;
      i := i + 1;
      if i < |ids| {
        FlaggedBelowNext(ids, split, i);
      }
    }
    assert ids[..i] == ids;
    SplitIsFlagged(spots, ids, split);
    AscendingDistinct(split);
  }
}
