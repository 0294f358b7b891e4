/** Differencing two frames of equal geometry into a few rectangles, and patching one into the other. */
module Diff {
  import opened Bytes
  import opened Screen

  datatype Rect = Rect(x: nat, y: nat, w: nat, h: nat)

  /** Both frames hold `h` rows of `stride` bytes, each starting with `w` pixels. */
  predicate Comparable(a: seq<byte>, b: seq<byte>, w: nat, h: nat, s: nat) {
    s >= 4 * w && |a| >= h * s && |b| >= h * s
  }

  predicate Differs(a: seq<byte>, b: seq<byte>, s: nat, x: nat, y: nat) {
    PixelAt(a, s, x, y) != PixelAt(b, s, x, y)
  }

  ghost predicate RowChanged(a: seq<byte>, b: seq<byte>, w: nat, s: nat, y: nat) {
    exists x :: 0 <= x < w && Differs(a, b, s, x, y)
  }

  lemma RowInside(w: nat, h: nat, s: nat, y: nat)
    requires y < h && s >= 4 * w
    ensures y * s + 4 * w <= h * s
  {
    assert (y + 1) * s <= h * s;
  }

  function Row(p: seq<byte>, w: nat, s: nat, y: nat): seq<byte>
    requires y * s + 4 * w <= |p|
  {
    p[y * s..y * s + 4 * w]
  }

  /** Within two rows, pixel `x` differs. */
  predicate ColDiffers(ra: seq<byte>, rb: seq<byte>, x: nat)
    requires 4 * x + 4 <= |ra| && 4 * x + 4 <= |rb|
  {
    ra[4 * x..4 * x + 4] != rb[4 * x..4 * x + 4]
  }

  lemma RowPixel(p: seq<byte>, w: nat, s: nat, x: nat, y: nat)
    requires y * s + 4 * w <= |p| && x < w
    ensures var c := Row(p, w, s, y)[4 * x..4 * x + 4];
            PixelAt(p, s, x, y) == Bgra(c[0], c[1], c[2], c[3])
  {
  }

  lemma FourBytes(u: seq<byte>, v: seq<byte>)
    requires |u| == |v| == 4
    ensures u == v <==> Bgra(u[0], u[1], u[2], u[3]) == Bgra(v[0], v[1], v[2], v[3])
  {
  }

  lemma ColIsPixel(a: seq<byte>, b: seq<byte>, w: nat, h: nat, s: nat, x: nat, y: nat)
    requires Comparable(a, b, w, h, s) && x < w && y < h
    ensures y * s + 4 * w <= |a| && y * s + 4 * w <= |b|
    ensures ColDiffers(Row(a, w, s, y), Row(b, w, s, y), x) <==> Differs(a, b, s, x, y)
  {
    hide PixelAt;
    RowInside(w, h, s, y);
    RowPixel(a, w, s, x, y);
    RowPixel(b, w, s, x, y);
    FourBytes(Row(a, w, s, y)[4 * x..4 * x + 4], Row(b, w, s, y)[4 * x..4 * x + 4]);
  }

  /** Rows are equal exactly when all their pixels are. */
  lemma EqualRows(ra: seq<byte>, rb: seq<byte>, w: nat)
    requires |ra| == |rb| == 4 * w
    ensures ra == rb <==> forall x :: 0 <= x < w ==> !ColDiffers(ra, rb, x)
  {
    if forall x :: 0 <= x < w ==> !ColDiffers(ra, rb, x) {
      forall i | 0 <= i < |ra|
        ensures ra[i] == rb[i]
      {
        assert !ColDiffers(ra, rb, i / 4);
        assert ra[4 * (i / 4)..4 * (i / 4) + 4][i % 4] == rb[4 * (i / 4)..4 * (i / 4) + 4][i % 4];
      }
    }
  }

  method RowDiffers(a: seq<byte>, b: seq<byte>, w: nat, h: nat, s: nat, y: nat) returns (r: bool)
    requires Comparable(a, b, w, h, s) && y < h
    ensures r <==> RowChanged(a, b, w, s, y)
  {
    hide PixelAt, Differs;
    RowInside(w, h, s, y);
    var ra, rb := Row(a, w, s, y), Row(b, w, s, y);
    EqualRows(ra, rb, w);
    forall x | 0 <= x < w
      ensures ColDiffers(ra, rb, x) <==> Differs(a, b, s, x, y)
    {
      ColIsPixel(a, b, w, h, s, x, y);
    }
    r := ra != rb;
  }

  // ─── Column bounds ───────────────────────────────────────────────────────

  /** The first differing pixel in columns `lo` to `hi - 1`. */
  method Position(ra: seq<byte>, rb: seq<byte>, lo: nat, hi: nat) returns (r: Option<nat>)
    requires lo <= hi && 4 * hi <= |ra| && 4 * hi <= |rb|
    ensures r.None? ==> forall x :: lo <= x < hi ==> !ColDiffers(ra, rb, x)
    ensures r.Some? ==> lo <= r.value < hi && ColDiffers(ra, rb, r.value)
                        && forall x :: lo <= x < r.value ==> !ColDiffers(ra, rb, x)
  {
    for x := lo to hi
      invariant forall x' :: lo <= x' < x ==> !ColDiffers(ra, rb, x')
    {
      if ColDiffers(ra, rb, x) {
        return Some(x);
      }
    }
    return None;
  }

  /** The last one. */
  method RPosition(ra: seq<byte>, rb: seq<byte>, lo: nat, hi: nat) returns (r: Option<nat>)
    requires lo <= hi && 4 * hi <= |ra| && 4 * hi <= |rb|
    ensures r.None? ==> forall x :: lo <= x < hi ==> !ColDiffers(ra, rb, x)
    ensures r.Some? ==> lo <= r.value < hi && ColDiffers(ra, rb, r.value)
                        && forall x :: r.value < x < hi ==> !ColDiffers(ra, rb, x)
  {
    for x := hi downto lo
      invariant forall x' :: x <= x' < hi ==> !ColDiffers(ra, rb, x')
    {
      if ColDiffers(ra, rb, x) {
        return Some(x);
      }
    }
    return None;
  }

  /** Widen `[left, right]` (empty while `left > right`) to take in the differing pixels of one more row,
      looking only outside what it already covers. Each bound moves only onto a differing pixel. */
  method UpdateRowBounds(ra: seq<byte>, rb: seq<byte>, w: nat, left0: nat, right0: nat)
    returns (left: nat, right: nat)
    requires |ra| == |rb| == 4 * w && w > 0
    requires left0 <= right0 < w || (left0 == w && right0 == 0)
    ensures left <= right < w || (left == w && right == 0 && left0 == w)
    ensures forall x :: 0 <= x < w && ColDiffers(ra, rb, x) ==> left <= x <= right
    ensures left <= left0 && right0 <= right
    ensures left < w ==> left == left0 || ColDiffers(ra, rb, left)
    ensures left < w ==> (left0 <= right0 && right == right0) || ColDiffers(ra, rb, right)
    ensures left == w ==> forall x :: 0 <= x < w ==> !ColDiffers(ra, rb, x)
  {
    left, right := left0, right0;
    if left == 0 && right + 1 >= w {
      return;
    }
    if left > right {
      var first := Position(ra, rb, 0, w);
      if first.Some? {
        left := first.value;
        var last := RPosition(ra, rb, 0, w);
        right := last.GetOr(left);
      }
    } else {
      if left > 0 && ra[..4 * left] != rb[..4 * left] {
        var first := Position(ra, rb, 0, left);
        if first.Some? {
          left := first.value;
        }
      } else if left > 0 {
        forall x | 0 <= x < left
          ensures !ColDiffers(ra, rb, x)
        {
          assert ra[4 * x..4 * x + 4] == ra[..4 * left][4 * x..4 * x + 4];
          assert rb[4 * x..4 * x + 4] == rb[..4 * left][4 * x..4 * x + 4];
        }
      }
      if right + 1 < w && ra[4 * (right + 1)..] != rb[4 * (right + 1)..] {
        var last := RPosition(ra, rb, right + 1, w);
        if last.Some? {
          right := last.value;
        }
      } else if right + 1 < w {
        forall x | right < x < w
          ensures !ColDiffers(ra, rb, x)
        {
          var o := 4 * (right + 1);
          assert ra[4 * x..4 * x + 4] == ra[o..][4 * x - o..4 * x - o + 4];
          assert rb[4 * x..4 * x + 4] == rb[o..][4 * x - o..4 * x - o + 4];
        }
      }
    }
  }

  /** `[left, right]` is the exact column range of the differences in rows `top` to `end - 1`. */
  ghost predicate ColumnBox(a: seq<byte>, b: seq<byte>, w: nat, s: nat, top: nat, end: nat, left: nat, right: nat) {
    && left <= right < w
    && (forall x, y :: 0 <= x < w && top <= y < end && Differs(a, b, s, x, y) ==> left <= x <= right)
    && (exists y :: top <= y < end && Differs(a, b, s, left, y))
    && (exists y :: top <= y < end && Differs(a, b, s, right, y))
  }

  /** `dirty` tells which rows differ. */
  ghost predicate IsDirty(a: seq<byte>, b: seq<byte>, w: nat, h: nat, s: nat, dirty: seq<bool>) {
    && |dirty| == h
    && forall y :: 0 <= y < h ==> (dirty[y] <==> RowChanged(a, b, w, s, y))
  }

  /** The same, for row `y` of two frames. */
  method AddRow(a: seq<byte>, b: seq<byte>, w: nat, h: nat, s: nat, y: nat, left0: nat, right0: nat)
    returns (left: nat, right: nat)
    requires Comparable(a, b, w, h, s) && y < h && w > 0
    requires left0 <= right0 < w || (left0 == w && right0 == 0)
    ensures left <= right < w || (left == w && right == 0 && left0 == w)
    ensures forall x :: 0 <= x < w && Differs(a, b, s, x, y) ==> left <= x <= right
    ensures left <= left0 && right0 <= right
    ensures left < w ==> left == left0 || Differs(a, b, s, left, y)
    ensures left < w ==> (left0 <= right0 && right == right0) || Differs(a, b, s, right, y)
  {
    hide PixelAt, Differs;
    RowInside(w, h, s, y);
    var ra, rb := Row(a, w, s, y), Row(b, w, s, y);
    forall x | 0 <= x < w
      ensures ColDiffers(ra, rb, x) <==> Differs(a, b, s, x, y)
    {
      ColIsPixel(a, b, w, h, s, x, y);
    }
    left, right := UpdateRowBounds(ra, rb, w, left0, right0);
  }

  /** Row bounds folded over the dirty rows of a run, stopping early once they span the whole width. */
  method RunColumns(a: seq<byte>, b: seq<byte>, w: nat, h: nat, s: nat, dirty: seq<bool>, top: nat, bot: nat)
    returns (left: nat, right: nat)
    requires Comparable(a, b, w, h, s) && IsDirty(a, b, w, h, s, dirty)
    requires top <= bot < h && dirty[top]
    ensures ColumnBox(a, b, w, s, top, bot + 1, left, right)
  {
    hide PixelAt, Differs;
    left, right := w, 0;
    for yy := top to bot + 1
      invariant yy == top ==> left == w && right == 0
      invariant yy > top ==> ColumnBox(a, b, w, s, top, yy, left, right)
    {
      if dirty[yy] {
        ghost var l0, r0 := left, right;
        left, right := AddRow(a, b, w, h, s, yy, left, right);
        if left == 0 && right + 1 >= w {
          return;
        }
      }
    }
  }

  // ─── Runs of dirty rows ──────────────────────────────────────────────────

  const GAP := 4

  /** How many rows differ. */
  function Count(dirty: seq<bool>): nat {
    if dirty == [] then 0
    else Count(dirty[..|dirty| - 1]) + if dirty[|dirty| - 1] then 1 else 0
  }

  /** The first `y` rows have been classified. */
  ghost predicate Classified(dirty: seq<bool>, count: nat, h: nat, first: nat, last: nat) {
    && count == Count(dirty)
    && (forall y :: 0 <= y < |dirty| && dirty[y] ==> first <= y <= last)
    && if count == 0 then first == h && last == 0 && true !in dirty
       else first <= last < |dirty| && dirty[first] && dirty[last]
  }

  lemma CountAppend(dirty: seq<bool>, d: bool)
    ensures Count(dirty + [d]) == Count(dirty) + if d then 1 else 0
  {
    assert (dirty + [d])[..|dirty|] == dirty;
  }

  lemma ClassifyOne(dirty: seq<bool>, count: nat, h: nat, first: nat, last: nat, d: bool)
    requires Classified(dirty, count, h, first, last) && |dirty| < h
    ensures Classified(dirty + [d], if d then count + 1 else count, h,
                       if d && first == h then |dirty| else first, if d then |dirty| else last)
  {
    hide Count;
    CountAppend(dirty, d);
  }

  lemma NothingClassified(h: nat)
    ensures Classified([], 0, h, h, 0)
  {
  }

  method DirtyRows(a: seq<byte>, b: seq<byte>, w: nat, h: nat, s: nat)
    returns (dirty: seq<bool>, count: nat, first: nat, last: nat)
    requires Comparable(a, b, w, h, s)
    ensures IsDirty(a, b, w, h, s, dirty) && Classified(dirty, count, h, first, last)
  {
    hide PixelAt, Differs, Classified;
    var flags := new bool[h](_ => false);
    count, first, last := 0, h, 0;
    assert Classified([], 0, h, h, 0) by {
      NothingClassified(h);
    }
    for y := 0 to h
      invariant IsDirty(a, b, w, y, s, flags[..y])
      invariant Classified(flags[..y], count, h, first, last)
    {
      var isDirty := RowDiffers(a, b, w, h, s, y);
      ClassifyOne(flags[..y], count, h, first, last, isDirty);
      flags[y] := isDirty;
      if isDirty {
        count := count + 1;
        if first == h {
          first := y;
        }
        last := y;
      }
      assert flags[..y + 1] == flags[..y] + [isDirty];
    }
    dirty := flags[..];
    assert flags[..h] == dirty;
  }

  datatype Run = Run(top: nat, bot: nat)

  /** One of the rows `y` to `y + GAP`, none beyond `bot`, is dirty. */
  ghost predicate DirtySoon(dirty: seq<bool>, y: nat, bot: nat) {
    exists k :: y <= k <= y + GAP && k <= bot && k < |dirty| && dirty[k]
  }

  /** A run starts and ends with a dirty row and never has more than `GAP` clean rows in a row inside. */
  ghost predicate IsRun(dirty: seq<bool>, r: Run) {
    && r.top <= r.bot < |dirty| && dirty[r.top] && dirty[r.bot]
    && forall y :: r.top <= y <= r.bot ==> DirtySoon(dirty, y, r.bot)
  }

  /** More than `GAP` clean rows follow row `bot`, or only clean rows. */
  ghost predicate CleanAfter(dirty: seq<bool>, bot: nat) {
    forall y :: bot < y <= bot + GAP + 1 && y < |dirty| ==> !dirty[y]
  }

  /** The runs in order cover every dirty row before `end`, with more than `GAP` clean rows between them. */
  ghost predicate AreRuns(dirty: seq<bool>, end: nat, runs: seq<Run>) {
    && (forall i :: 0 <= i < |runs| ==> IsRun(dirty, runs[i]) && CleanAfter(dirty, runs[i].bot) && runs[i].bot < end)
    && (forall i, j :: 0 <= i < j < |runs| ==> runs[i].bot + GAP + 1 < runs[j].top)
    && (forall y :: 0 <= y < end && y < |dirty| && dirty[y] ==>
          exists i :: 0 <= i < |runs| && runs[i].top <= y <= runs[i].bot)
  }

  /** The first dirty row among the next `GAP`, as a distance. */
  method LookAhead(dirty: seq<bool>, y: nat, last: nat) returns (r: Option<nat>)
    requires y <= last < |dirty|
    ensures r.None? ==> forall z :: y < z <= y + GAP && z <= last ==> !dirty[z]
    ensures r.Some? ==> 1 <= r.value <= GAP && y + r.value <= last && dirty[y + r.value]
                        && forall z :: y < z < y + r.value ==> !dirty[z]
  {
    for k := 1 to GAP + 1
      invariant forall z :: y < z < y + k && z <= last ==> !dirty[z]
    {
      if y + k <= last && dirty[y + k] {
        return Some(k);
      }
    }
    return None;
  }

  lemma RunGrows(dirty: seq<bool>, start: nat, end: nat, y: nat)
    requires IsRun(dirty, Run(start, end)) && end < y <= end + GAP + 1 && y < |dirty| && dirty[y]
    ensures IsRun(dirty, Run(start, y))
  {
    forall z | start <= z <= y
      ensures DirtySoon(dirty, z, y)
    {
      if z <= end {
        assert DirtySoon(dirty, z, end);
      } else {
        assert z <= y <= z + GAP;
      }
    }
  }

  /** One run, from its first dirty row on: short clean stretches are skipped, a longer one ends it. */
  method OneRun(dirty: seq<bool>, start: nat, last: nat) returns (end: nat, y: nat)
    requires start <= last < |dirty| && dirty[start] && dirty[last]
    requires forall y' :: last < y' < |dirty| ==> !dirty[y']
    ensures start <= end < y <= last + 1
    ensures IsRun(dirty, Run(start, end)) && CleanAfter(dirty, end)
    ensures forall y' :: end < y' < y ==> !dirty[y']
  {
    end := start;
    y := start + 1;
    assert IsRun(dirty, Run(start, start));
    while y <= last
      invariant start <= end < y <= last + 1
      invariant IsRun(dirty, Run(start, end))
      invariant forall y' :: end < y' < y ==> !dirty[y']
      invariant y == end + 1 || (y <= end + GAP + 1 && y <= last && dirty[y])
    {
      if dirty[y] {
        RunGrows(dirty, start, end, y);
        end := y;
        y := y + 1;
      } else {
        var look := LookAhead(dirty, y, last);
        if look.None? {
          return;
        }
        y := y + look.value;
      }
    }
  }

  lemma RunsSkip(dirty: seq<bool>, y: nat, y': nat, runs: seq<Run>)
    requires AreRuns(dirty, y, runs) && y <= y'
    requires forall z :: y <= z < y' && z < |dirty| ==> !dirty[z]
    ensures AreRuns(dirty, y', runs)
  {
    hide IsRun, CleanAfter;
  }

  lemma IsRunTop(dirty: seq<bool>, r: Run)
    requires IsRun(dirty, r)
    ensures r.top < |dirty| && dirty[r.top]
  {
  }

  lemma RunsExtend(dirty: seq<bool>, start: nat, y: nat, runs: seq<Run>, r: Run)
    requires AreRuns(dirty, start, runs)
    requires r.top == start <= r.bot < y && IsRun(dirty, r) && CleanAfter(dirty, r.bot)
    requires forall y' :: r.bot < y' < y && y' < |dirty| ==> !dirty[y']
    ensures AreRuns(dirty, y, runs + [r])
  {
    var all := runs + [r];
    assert forall i :: 0 <= i < |runs| ==> runs[i].bot + GAP + 1 < start by {
      hide IsRun;
      assert dirty[r.top] by {
        assert IsRun(dirty, r);
        IsRunTop(dirty, r);
      }
    }
    hide IsRun, CleanAfter;
    forall y' | 0 <= y' < y && y' < |dirty| && dirty[y']
      ensures exists i :: 0 <= i < |all| && all[i].top <= y' <= all[i].bot
    {
      if y' >= start {
        assert all[|runs|] == r;
      } else {
        var i :| 0 <= i < |runs| && runs[i].top <= y' <= runs[i].bot;
        assert all[i] == runs[i];
      }
    }
  }

  lemma NoRuns(dirty: seq<bool>, first: nat)
    requires forall y :: 0 <= y < first && y < |dirty| ==> !dirty[y]
    ensures AreRuns(dirty, first, [])
  {
  }

  method FindRuns(dirty: seq<bool>, first: nat, last: nat) returns (runs: seq<Run>)
    requires first <= last < |dirty| && dirty[first] && dirty[last]
    requires forall y :: 0 <= y < |dirty| && dirty[y] ==> first <= y <= last
    ensures AreRuns(dirty, |dirty|, runs)
  {
    hide AreRuns, IsRun, CleanAfter;
    runs := [];
    var y := first;
    NoRuns(dirty, first);
    while y <= last
      invariant y <= last + 1
      invariant AreRuns(dirty, y, runs)
    {
      if !dirty[y] {
        RunsSkip(dirty, y, y + 1, runs);
        y := y + 1;
      } else {
        var start := y;
        var end;
        end, y := OneRun(dirty, start, last);
        RunsExtend(dirty, start, y, runs, Run(start, end));
        runs := runs + [Run(start, end)];
      }
    }
    RunsSkip(dirty, y, |dirty|, runs);
  }

  lemma RunsAreRuns(dirty: seq<bool>, end: nat, runs: seq<Run>)
    requires AreRuns(dirty, end, runs)
    ensures forall i :: 0 <= i < |runs| ==> IsRun(dirty, runs[i])
  {
  }

  // ─── Regions ─────────────────────────────────────────────────────────────

  /** `r` is the exact bounding box of the differences in its rows. */
  ghost predicate IsBox(a: seq<byte>, b: seq<byte>, w: nat, h: nat, s: nat, r: Rect) {
    && 0 < r.w && r.x + r.w <= w && 0 < r.h && r.y + r.h <= h
    && ColumnBox(a, b, w, s, r.y, r.y + r.h, r.x, r.x + r.w - 1)
    && RowChanged(a, b, w, s, r.y) && RowChanged(a, b, w, s, r.y + r.h - 1)
  }

  predicate RowIn(r: Rect, y: nat) {
    r.y <= y < r.y + r.h
  }

  /** Exact boxes, from top to bottom, sharing no row, that take in every difference. */
  ghost predicate AreRegions(a: seq<byte>, b: seq<byte>, w: nat, h: nat, s: nat, out: seq<Rect>) {
    && (forall i :: 0 <= i < |out| ==> IsBox(a, b, w, h, s, out[i]))
    && (forall i, j :: 0 <= i < j < |out| ==> out[i].y + out[i].h <= out[j].y)
    && (forall x, y :: 0 <= x < w && 0 <= y < h && Differs(a, b, s, x, y) ==>
          exists i :: 0 <= i < |out| && RowIn(out[i], y))
  }

  ghost predicate Matches(runs: seq<Run>, out: seq<Rect>) {
    |out| == |runs| && forall i :: 0 <= i < |out| ==> out[i].y == runs[i].top && out[i].y + out[i].h - 1 == runs[i].bot
  }

  /** How rows are grouped: one box when at least a quarter of the rows differ, else one per run. */
  ghost predicate Grouped(dirty: seq<bool>, out: seq<Rect>) {
    if Count(dirty) * 4 >= |dirty| then |out| <= 1
    else exists runs :: AreRuns(dirty, |dirty|, runs) && Matches(runs, out)
  }

  lemma NothingDirty(a: seq<byte>, b: seq<byte>, w: nat, h: nat, s: nat, dirty: seq<bool>)
    requires IsDirty(a, b, w, h, s, dirty) && true !in dirty
    ensures AreRegions(a, b, w, h, s, []) && Grouped(dirty, [])
  {
    hide PixelAt, Differs;
    assert forall y :: 0 <= y < h ==> !dirty[y];
    forall x, y | 0 <= x < w && 0 <= y < h
      ensures !Differs(a, b, s, x, y)
    {
      assert !dirty[y];
    }
    NoRuns(dirty, h);
    assert Matches([], []);
  }

  lemma OneBox(a: seq<byte>, b: seq<byte>, w: nat, h: nat, s: nat, dirty: seq<bool>,
               top: nat, bot: nat, left: nat, right: nat)
    requires IsDirty(a, b, w, h, s, dirty) && top <= bot < h && dirty[top] && dirty[bot]
    requires ColumnBox(a, b, w, s, top, bot + 1, left, right)
    ensures left <= right && IsBox(a, b, w, h, s, Rect(left, top, right - left + 1, bot - top + 1))
  {
    hide PixelAt, Differs;
    var r := Rect(left, top, right - left + 1, bot - top + 1);
    assert r.y + r.h == bot + 1 && r.y + r.h - 1 == bot && r.x + r.w - 1 == right;
  }

  lemma CoversAll(a: seq<byte>, b: seq<byte>, w: nat, h: nat, s: nat, dirty: seq<bool>,
                  top: nat, bot: nat, out: seq<Rect>)
    requires IsDirty(a, b, w, h, s, dirty) && forall y :: 0 <= y < h && dirty[y] ==> top <= y <= bot
    requires |out| == 1 && IsBox(a, b, w, h, s, out[0]) && out[0].y == top && out[0].h == bot - top + 1
    ensures AreRegions(a, b, w, h, s, out)
  {
    hide PixelAt, Differs, ColumnBox;
    forall x, y | 0 <= x < w && 0 <= y < h && Differs(a, b, s, x, y)
      ensures exists i :: 0 <= i < |out| && RowIn(out[i], y)
    {
      assert dirty[y] && RowIn(out[0], y);
    }
  }

  /** The third step of the program: the column box of each run. */
  method RunBoxes(a: seq<byte>, b: seq<byte>, w: nat, h: nat, s: nat, dirty: seq<bool>, runs: seq<Run>)
    returns (out: seq<Rect>)
    requires Comparable(a, b, w, h, s) && IsDirty(a, b, w, h, s, dirty)
    requires |dirty| == h && forall i :: 0 <= i < |runs| ==> IsRun(dirty, runs[i])
    ensures Matches(runs, out)
    ensures forall i :: 0 <= i < |out| ==> IsBox(a, b, w, h, s, out[i])
  {
    hide PixelAt, Differs, ColumnBox, IsBox, IsDirty, DirtySoon;
    out := [];
    for i := 0 to |runs|
      invariant Matches(runs[..i], out)
      invariant forall j :: 0 <= j < i ==> IsBox(a, b, w, h, s, out[j])
    {
      var Run(top, bot) := runs[i];
      var left, right := RunColumns(a, b, w, h, s, dirty, top, bot);
      OneBox(a, b, w, h, s, dirty, top, bot, left, right);
      if right >= left {
        out := out + [Rect(left, top, right - left + 1, bot - top + 1)];
      }
    }
    assert runs[..|runs|] == runs;
  }

  /** The boxes of the runs lie one below the other. */
  lemma BoxesOrdered(dirty: seq<bool>, end: nat, runs: seq<Run>, out: seq<Rect>)
    requires AreRuns(dirty, end, runs) && Matches(runs, out)
    ensures forall i, j :: 0 <= i < j < |out| ==> out[i].y + out[i].h <= out[j].y
  {
    hide IsRun, CleanAfter;
  }

  lemma RowIsBoxed(dirty: seq<bool>, runs: seq<Run>, out: seq<Rect>, y: nat)
    requires AreRuns(dirty, |dirty|, runs) && Matches(runs, out) && y < |dirty| && dirty[y]
    ensures exists i :: 0 <= i < |out| && RowIn(out[i], y)
  {
    hide IsRun, CleanAfter;
    var i :| 0 <= i < |runs| && runs[i].top <= y <= runs[i].bot;
    assert RowIn(out[i], y);
  }

  lemma RunsCover(a: seq<byte>, b: seq<byte>, w: nat, h: nat, s: nat, dirty: seq<bool>, runs: seq<Run>, out: seq<Rect>)
    requires IsDirty(a, b, w, h, s, dirty) && AreRuns(dirty, h, runs) && Matches(runs, out)
    requires forall i :: 0 <= i < |out| ==> IsBox(a, b, w, h, s, out[i])
    ensures AreRegions(a, b, w, h, s, out)
  {
    hide PixelAt, Differs, AreRuns, Matches, IsBox, RowIn;
    BoxesOrdered(dirty, h, runs, out);
    forall x, y | 0 <= x < w && 0 <= y < h && Differs(a, b, s, x, y)
      ensures exists i :: 0 <= i < |out| && RowIn(out[i], y)
    {
      assert RowChanged(a, b, w, s, y);
      RowIsBoxed(dirty, runs, out, y);
    }
  }

  /** What differencing two frames yields: the regions, and how their rows are grouped. */
  ghost predicate IsDiff(a: seq<byte>, b: seq<byte>, w: nat, h: nat, s: nat, out: seq<Rect>) {
    && AreRegions(a, b, w, h, s, out)
    && exists dirty :: IsDirty(a, b, w, h, s, dirty) && Grouped(dirty, out)
  }

  /** Tight, ordered, row-disjoint rectangles around everything that changed; none when nothing did. */
  method DiffRegions(a: seq<byte>, b: seq<byte>, w: nat, h: nat, s: nat) returns (out: seq<Rect>)
    requires Comparable(a, b, w, h, s)
    ensures IsDiff(a, b, w, h, s, out)
  {
    hide PixelAt, Differs, ColumnBox, AreRuns, IsRun;
    var dirty, count, first, last := DirtyRows(a, b, w, h, s);
    if count == 0 {
      NothingDirty(a, b, w, h, s, dirty);
      return [];
    }
    if count * 4 >= h {
      var left, right := RunColumns(a, b, w, h, s, dirty, first, last);
      OneBox(a, b, w, h, s, dirty, first, last, left, right);
      out := [Rect(left, first, right - left + 1, last - first + 1)];
      CoversAll(a, b, w, h, s, dirty, first, last, out);
      return;
    }
    var runs := FindRuns(dirty, first, last);
    RunsAreRuns(dirty, h, runs);
    out := RunBoxes(a, b, w, h, s, dirty, runs);
    RunsCover(a, b, w, h, s, dirty, runs, out);
  }

  /** No rectangle exactly when no visible pixel differs. */
  lemma EmptyIffEqual(a: seq<byte>, b: seq<byte>, w: nat, h: nat, s: nat, out: seq<Rect>)
    requires AreRegions(a, b, w, h, s, out)
    ensures out == [] <==> forall x, y :: 0 <= x < w && 0 <= y < h ==> !Differs(a, b, s, x, y)
  {
    hide PixelAt, Differs;
    if out != [] {
      var r := out[0];
      assert IsBox(a, b, w, h, s, r) && RowChanged(a, b, w, s, r.y);
      var x :| 0 <= x < w && Differs(a, b, s, x, r.y);
    }
  }

  // ─── The regions are determined by the two frames ────────────────────────

  ghost function Marks(dirty: seq<bool>): set<nat> {
    set y: nat | y < |dirty| && dirty[y]
  }

  lemma {:induction false} CountIsSize(dirty: seq<bool>)
    ensures Count(dirty) == |Marks(dirty)|
  {
    if dirty != [] {
      var n := |dirty| - 1;
      CountIsSize(dirty[..n]);
      assert Marks(dirty) == Marks(dirty[..n]) + if dirty[n] then {n} else {};
    }
  }

  /** The rows in which the frames differ. */
  ghost function ChangedRows(a: seq<byte>, b: seq<byte>, w: nat, h: nat, s: nat): set<nat> {
    set y: nat | y < h && RowChanged(a, b, w, s, y)
  }

  lemma CountIsChanged(a: seq<byte>, b: seq<byte>, w: nat, h: nat, s: nat, dirty: seq<bool>)
    requires IsDirty(a, b, w, h, s, dirty)
    ensures Count(dirty) == |ChangedRows(a, b, w, h, s)|
  {
    hide RowChanged, Count;
    CountIsSize(dirty);
    assert Marks(dirty) == ChangedRows(a, b, w, h, s);
  }

  lemma SoonDirty(dirty: seq<bool>, r: Run, y: nat) returns (k: nat)
    requires IsRun(dirty, r) && r.top <= y <= r.bot
    ensures y <= k <= y + GAP && k <= r.bot && k < |dirty| && dirty[k]
  {
    assert DirtySoon(dirty, y, r.bot);
    k :| y <= k <= y + GAP && k <= r.bot && k < |dirty| && dirty[k];
  }

  lemma RunEndsBefore(dirty: seq<bool>, r: Run, bot: nat)
    requires IsRun(dirty, r) && r.top <= bot <= r.bot && CleanAfter(dirty, bot)
    ensures bot == r.bot
  {
    if bot < r.bot {
      var k := SoonDirty(dirty, r, bot + 1);
    }
  }

  lemma RunOf(dirty: seq<bool>, runs: seq<Run>, i: nat)
    requires AreRuns(dirty, |dirty|, runs) && i < |runs|
    ensures IsRun(dirty, runs[i]) && CleanAfter(dirty, runs[i].bot) && runs[i].top <= runs[i].bot
  {
  }

  lemma RunsOrdered(dirty: seq<bool>, runs: seq<Run>, k: nat, i: nat)
    requires AreRuns(dirty, |dirty|, runs) && k < |runs| && i <= |runs|
    ensures k < i ==> runs[k].bot <= runs[i - 1].bot
    ensures i <= k ==> runs[i].top <= runs[k].top
  {
    hide IsRun, CleanAfter;
    if k < i {
      RunOf(dirty, runs, i - 1);
    } else {
      RunOf(dirty, runs, i);
    }
  }

  lemma RunStarts(dirty: seq<bool>, runs: seq<Run>, i: nat, y: nat)
    requires AreRuns(dirty, |dirty|, runs) && y < |dirty| && dirty[y]
    requires i <= |runs| && (i > 0 ==> runs[i - 1].bot < y)
    ensures i < |runs| && runs[i].top <= y
  {
    hide IsRun, CleanAfter;
    var k :| 0 <= k < |runs| && runs[k].top <= y <= runs[k].bot;
    RunsOrdered(dirty, runs, k, i);
  }

  lemma NextRun(dirty: seq<bool>, p: seq<Run>, q: seq<Run>, i: nat)
    requires AreRuns(dirty, |dirty|, p) && AreRuns(dirty, |dirty|, q)
    requires i < |p| && i <= |q| && (i > 0 ==> p[i - 1] == q[i - 1])
    ensures i < |q| && q[i].top <= p[i].top
  {
    hide DirtySoon, CleanAfter;
    assert IsRun(dirty, p[i]);
    RunStarts(dirty, q, i, p[i].top);
  }

  lemma {:induction false} RunsUnique(dirty: seq<bool>, p: seq<Run>, q: seq<Run>, i: nat)
    requires AreRuns(dirty, |dirty|, p) && AreRuns(dirty, |dirty|, q)
    requires i <= |p|
    ensures i <= |q| && p[..i] == q[..i]
  {
    hide IsRun, CleanAfter, AreRuns;
    if i > 0 {
      RunsUnique(dirty, p, q, i - 1);
      assert i > 1 ==> p[..i - 1][i - 2] == q[..i - 1][i - 2];
      NextRun(dirty, p, q, i - 1);
      NextRun(dirty, q, p, i - 1);
      RunOf(dirty, p, i - 1);
      RunOf(dirty, q, i - 1);
      if p[i - 1].bot <= q[i - 1].bot {
        RunEndsBefore(dirty, q[i - 1], p[i - 1].bot);
      } else {
        RunEndsBefore(dirty, p[i - 1], q[i - 1].bot);
      }
    }
  }

  lemma BoxUnique(a: seq<byte>, b: seq<byte>, w: nat, h: nat, s: nat, p: Rect, q: Rect)
    requires IsBox(a, b, w, h, s, p) && IsBox(a, b, w, h, s, q) && p.y == q.y && p.h == q.h
    ensures p == q
  {
    hide Differs;
  }

  lemma DirtySize(a: seq<byte>, b: seq<byte>, w: nat, h: nat, s: nat, dirty: seq<bool>)
    requires IsDirty(a, b, w, h, s, dirty)
    ensures |dirty| == h
  {
  }

  lemma DirtyUnique(a: seq<byte>, b: seq<byte>, w: nat, h: nat, s: nat, p: seq<bool>, q: seq<bool>)
    requires IsDirty(a, b, w, h, s, p) && IsDirty(a, b, w, h, s, q)
    ensures p == q
  {
    hide RowChanged;
  }

  /** Within four rows of row `y`, and still in the rectangle, some row differs. */
  ghost predicate ChangesSoon(a: seq<byte>, b: seq<byte>, w: nat, s: nat, r: Rect, y: nat) {
    exists k: nat :: y <= k <= y + 4 && k < r.y + r.h && RowChanged(a, b, w, s, k)
  }

  lemma MatchedShape(a: seq<byte>, b: seq<byte>, w: nat, h: nat, s: nat, dirty: seq<bool>,
                     runs: seq<Run>, out: seq<Rect>, i: nat, y: nat)
    requires IsDirty(a, b, w, h, s, dirty) && AreRuns(dirty, |dirty|, runs) && Matches(runs, out)
    requires i < |out| && RowIn(out[i], y)
    ensures ChangesSoon(a, b, w, s, out[i], y)
    ensures forall j :: i < j < |out| ==> out[i].y + out[i].h + 5 <= out[j].y
  {
    hide IsRun, CleanAfter, RowChanged;
    RunOf(dirty, runs, i);
    var k := SoonDirty(dirty, runs[i], y);
    assert RowChanged(a, b, w, s, k);
  }

  /** When at least a quarter of the rows differ there is one rectangle at most. Otherwise five clean rows or more lie
      between two rectangles, and inside one there are never five clean rows in a row. */
  lemma RegionsShape(a: seq<byte>, b: seq<byte>, w: nat, h: nat, s: nat, out: seq<Rect>)
    requires IsDiff(a, b, w, h, s, out)
    ensures 4 * |ChangedRows(a, b, w, h, s)| >= h ==> |out| <= 1
    ensures 4 * |ChangedRows(a, b, w, h, s)| < h ==>
              && (forall i, j :: 0 <= i < j < |out| ==> out[i].y + out[i].h + 5 <= out[j].y)
              && (forall i, y :: 0 <= i < |out| && out[i].y <= y < out[i].y + out[i].h ==>
                    ChangesSoon(a, b, w, s, out[i], y))
  {
    hide AreRuns, Matches, RowChanged, Differs, ColumnBox, ChangesSoon, Count, IsDirty;
    var dirty :| IsDirty(a, b, w, h, s, dirty) && Grouped(dirty, out);
    CountIsChanged(a, b, w, h, s, dirty);
    DirtySize(a, b, w, h, s, dirty);
    if Count(dirty) * 4 < h {
      var runs :| AreRuns(dirty, |dirty|, runs) && Matches(runs, out);
      forall i, y | 0 <= i < |out| && RowIn(out[i], y)
        ensures ChangesSoon(a, b, w, s, out[i], y)
        ensures forall j :: i < j < |out| ==> out[i].y + out[i].h + 5 <= out[j].y
      {
        MatchedShape(a, b, w, h, s, dirty, runs, out, i, y);
      }
      forall i, j | 0 <= i < j < |out|
        ensures out[i].y + out[i].h + 5 <= out[j].y
      {
        assert IsBox(a, b, w, h, s, out[i]);
        assert RowIn(out[i], out[i].y);
      }
    }
  }

  lemma RegionAt(a: seq<byte>, b: seq<byte>, w: nat, h: nat, s: nat, out: seq<Rect>, i: nat)
    requires AreRegions(a, b, w, h, s, out) && i < |out|
    ensures IsBox(a, b, w, h, s, out[i])
    ensures 0 < out[i].h && out[i].y + out[i].h <= h
    ensures RowChanged(a, b, w, s, out[i].y) && RowChanged(a, b, w, s, out[i].y + out[i].h - 1)
    ensures forall j :: i < j < |out| ==> out[i].y + out[i].h <= out[j].y
  {
    hide ColumnBox, Differs, RowChanged;
  }

  lemma RegionOf(a: seq<byte>, b: seq<byte>, w: nat, h: nat, s: nat, out: seq<Rect>, y: nat) returns (i: nat)
    requires AreRegions(a, b, w, h, s, out) && y < h && RowChanged(a, b, w, s, y)
    ensures i < |out| && RowIn(out[i], y)
  {
    hide IsBox, Differs;
    var x :| 0 <= x < w && Differs(a, b, s, x, y);
    i :| 0 <= i < |out| && RowIn(out[i], y);
  }

  lemma OneBoxUnique(a: seq<byte>, b: seq<byte>, w: nat, h: nat, s: nat, p: seq<Rect>, q: seq<Rect>)
    requires AreRegions(a, b, w, h, s, p) && AreRegions(a, b, w, h, s, q) && |p| <= 1 && |q| <= 1
    ensures p == q
  {
    hide AreRegions, IsBox, RowChanged;
    if p != [] {
      RegionAt(a, b, w, h, s, p, 0);
      var i := RegionOf(a, b, w, h, s, q, p[0].y);
      var j := RegionOf(a, b, w, h, s, q, p[0].y + p[0].h - 1);
    }
    if q != [] {
      RegionAt(a, b, w, h, s, q, 0);
      var i := RegionOf(a, b, w, h, s, p, q[0].y);
      var j := RegionOf(a, b, w, h, s, p, q[0].y + q[0].h - 1);
      BoxUnique(a, b, w, h, s, p[0], q[0]);
    }
  }

  lemma MatchedUnique(a: seq<byte>, b: seq<byte>, w: nat, h: nat, s: nat, runs: seq<Run>, p: seq<Rect>, q: seq<Rect>)
    requires AreRegions(a, b, w, h, s, p) && AreRegions(a, b, w, h, s, q)
    requires Matches(runs, p) && Matches(runs, q)
    ensures p == q
  {
    hide ColumnBox, PixelAt, Differs, RowChanged;
    forall i | 0 <= i < |p|
      ensures p[i] == q[i]
    {
      assert IsBox(a, b, w, h, s, p[i]) && IsBox(a, b, w, h, s, q[i]);
      BoxUnique(a, b, w, h, s, p[i], q[i]);
    }
  }

  /** Two frames determine their regions. */
  lemma RegionsUnique(a: seq<byte>, b: seq<byte>, w: nat, h: nat, s: nat, p: seq<Rect>, q: seq<Rect>)
    requires IsDiff(a, b, w, h, s, p) && IsDiff(a, b, w, h, s, q)
    ensures p == q
  {
    hide AreRegions, AreRuns, Matches, IsDirty, Count;
    var dirty :| IsDirty(a, b, w, h, s, dirty) && Grouped(dirty, p);
    var dirty' :| IsDirty(a, b, w, h, s, dirty') && Grouped(dirty', q);
    DirtyUnique(a, b, w, h, s, dirty, dirty');
    if Count(dirty) * 4 >= |dirty| {
      OneBoxUnique(a, b, w, h, s, p, q);
    } else {
      var runs :| AreRuns(dirty, |dirty|, runs) && Matches(runs, p);
      var runs' :| AreRuns(dirty, |dirty|, runs') && Matches(runs', q);
      RunsUnique(dirty, runs, runs', |runs|);
      RunsUnique(dirty, runs', runs, |runs'|);
      assert runs == runs[..|runs|] == runs'[..|runs|] == runs';
      MatchedUnique(a, b, w, h, s, runs, p, q);
    }
  }

  lemma OnePixelBox(a: seq<byte>, b: seq<byte>, w: nat, h: nat, s: nat, r: Rect, px: nat, py: nat)
    requires IsBox(a, b, w, h, s, r)
    requires forall x, y :: 0 <= x < w && 0 <= y < h && Differs(a, b, s, x, y) ==> x == px && y == py
    ensures r == Rect(px, py, 1, 1)
  {
    hide Differs;
  }

  /** A frame that differs from the one before in a single pixel has the one region of that pixel. */
  lemma OnePixelRegion(a: seq<byte>, b: seq<byte>, w: nat, h: nat, s: nat, out: seq<Rect>, px: nat, py: nat)
    requires AreRegions(a, b, w, h, s, out) && px < w && py < h && Differs(a, b, s, px, py)
    requires forall x, y :: 0 <= x < w && 0 <= y < h && Differs(a, b, s, x, y) ==> x == px && y == py
    ensures out == [Rect(px, py, 1, 1)]
  {
    hide Differs, AreRegions, IsBox;
    var k := RegionOf(a, b, w, h, s, out, py);
    forall i | 0 <= i < |out|
      ensures out[i] == Rect(px, py, 1, 1)
      ensures forall j :: i < j < |out| ==> out[i].y + out[i].h <= out[j].y
    {
      RegionAt(a, b, w, h, s, out, i);
      OnePixelBox(a, b, w, h, s, out[i], px, py);
    }
    assert |out| > 1 ==> out[0].y + out[0].h <= out[1].y;
  }

  function Area(out: seq<Rect>): nat {
    if out == [] then 0 else Area(out[..|out| - 1]) + out[|out| - 1].w * out[|out| - 1].h
  }

  lemma AreaAdds(out: seq<Rect>, r: Rect)
    ensures Area([]) == 0 && Area(out + [r]) == Area(out) + r.w * r.h
  {
    assert (out + [r])[..|out|] == out;
  }

  lemma MulMonotone(a: nat, b: nat, c: nat)
    requires a <= b
    ensures a * c <= b * c
  {
  }

  /** Sharing no row, the rectangles cover at most the whole frame. */
  lemma {:induction false} AreaBound(w: nat, out: seq<Rect>, bottom: nat)
    requires forall i :: 0 <= i < |out| ==> out[i].w <= w
    requires forall i, j :: 0 <= i < j < |out| ==> out[i].y + out[i].h <= out[j].y
    requires out != [] ==> out[|out| - 1].y + out[|out| - 1].h <= bottom
    ensures Area(out) <= w * bottom
  {
    if out != [] {
      var r := out[|out| - 1];
      AreaBound(w, out[..|out| - 1], r.y);
      MulMonotone(r.w, w, r.h);
      MulMonotone(r.y + r.h, bottom, w);
      assert w * r.y + w * r.h == (r.y + r.h) * w;
    }
  }

  lemma RegionsAreaBound(a: seq<byte>, b: seq<byte>, w: nat, h: nat, s: nat, out: seq<Rect>)
    requires AreRegions(a, b, w, h, s, out)
    ensures Area(out) <= w * h
  {
    hide PixelAt, Differs, ColumnBox;
    AreaBound(w, out, h);
  }

  // ─── Cutting out and patching in ─────────────────────────────────────────

  /** `sub` is the tightly packed copy of rectangle `r` of `p`. */
  ghost predicate IsSubRect(sub: seq<byte>, p: seq<byte>, s: nat, r: Rect) {
    && |sub| == r.h * (r.w * 4)
    && forall i, j :: 0 <= i < r.w && 0 <= j < r.h ==>
         PixelAt(sub, 4 * r.w, i, j) == PixelAt(p, s, r.x + i, r.y + j)
  }

  lemma PixelKept(out: seq<byte>, row: seq<byte>, stride: nat, i: nat, j: nat, yy: nat)
    requires |out| == yy * stride && 4 * i + 4 <= stride && j < yy
    ensures PixelAt(out + row, stride, i, j) == PixelAt(out, stride, i, j)
  {
    assert (j + 1) * stride <= yy * stride;
  }

  lemma PixelAppended(out: seq<byte>, p: seq<byte>, stride: nat, s: nat, i: nat, yy: nat, x: nat, y: nat)
    requires |out| == yy * stride && 4 * i + 4 <= stride
    requires y * s + x * 4 + stride <= |p|
    ensures PixelAt(out + p[y * s + x * 4..y * s + x * 4 + stride], stride, i, yy) == PixelAt(p, s, x + i, y)
  {
  }

  method ExtractSubrect(p: seq<byte>, w: nat, h: nat, s: nat, r: Rect) returns (out: seq<byte>)
    requires s >= 4 * w && |p| >= h * s
    requires r.x + r.w <= w && r.y + r.h <= h
    ensures IsSubRect(out, p, s, r)
  {
    hide PixelAt;
    out := [];
    ghost var stride := r.w * 4;
    for yy := 0 to r.h
      invariant |out| == yy * stride
      invariant forall i, j :: 0 <= i < r.w && 0 <= j < yy ==>
                  PixelAt(out, stride, i, j) == PixelAt(p, s, r.x + i, r.y + j)
    {
      RowInside(w, h, s, r.y + yy);
      var rowStart := (r.y + yy) * s + r.x * 4;
      var row := p[rowStart..rowStart + r.w * 4];
      forall i, j | 0 <= i < r.w && 0 <= j < yy + 1
        ensures PixelAt(out + row, stride, i, j) == PixelAt(p, s, r.x + i, r.y + j)
      {
        if j < yy {
          PixelKept(out, row, stride, i, j, yy);
        } else {
          PixelAppended(out, p, stride, s, i, yy, r.x, r.y + yy);
        }
      }
      assert (yy + 1) * stride == yy * stride + stride;
      out := out + row;
    }
  }

  /** The subframe that carries `r`. */
  function Patch(r: Rect, sub: seq<byte>): RenderEvent {
    RenderEvent.Subframe(GfxSubframe(r.x, r.y, r.w, r.h, 4 * r.w, sub))
  }

  ghost predicate IsPatch(b: seq<byte>, s: nat, r: Rect, ev: RenderEvent) {
    exists sub :: IsSubRect(sub, b, s, r) && ev == Patch(r, sub)
  }

  ghost predicate ArePatches(b: seq<byte>, s: nat, out: seq<Rect>, evs: seq<RenderEvent>) {
    |evs| == |out| && forall i :: 0 <= i < |out| ==> IsPatch(b, s, out[i], evs[i])
  }

  predicate Contains(r: Rect, x: nat, y: nat) {
    r.x <= x < r.x + r.w && r.y <= y < r.y + r.h
  }

  lemma PatchWrites(b: seq<byte>, s: nat, r: Rect, ev: RenderEvent, x: nat, y: nat)
    requires IsPatch(b, s, r, ev)
    ensures Writes(ev, x, y) == if Contains(r, x, y) then Some(PixelAt(b, s, x, y)) else None
  {
    hide PixelAt;
  }

  /** Patches write the new frame's pixels inside the rectangles and touch nothing else. */
  lemma {:induction false} PatchesWrite(b: seq<byte>, s: nat, out: seq<Rect>, evs: seq<RenderEvent>, x: nat, y: nat)
    requires ArePatches(b, s, out, evs)
    ensures LastWrite(evs, x, y)
         == if exists i :: 0 <= i < |out| && Contains(out[i], x, y) then Some(PixelAt(b, s, x, y)) else None
  {
    hide PixelAt, Writes, IsSubRect, IsPatch, Contains;
    if out != [] {
      var n := |out| - 1;
      PatchesWrite(b, s, out[..n], evs[..n], x, y);
      PatchWrites(b, s, out[n], evs[n], x, y);
      if i :| 0 <= i < |out| && Contains(out[i], x, y) && i < n {
        assert out[..n][i] == out[i];
      }
    }
  }

  lemma BoxContains(a: seq<byte>, b: seq<byte>, w: nat, h: nat, s: nat, r: Rect, x: nat, y: nat)
    requires IsBox(a, b, w, h, s, r) && x < w && RowIn(r, y) && Differs(a, b, s, x, y)
    ensures Contains(r, x, y)
  {
    hide Differs;
  }

  /** Patch correctness: over the old frame, the patches for the regions show the new frame on every visible pixel. */
  lemma PatchingYieldsNewFrame(a: seq<byte>, b: seq<byte>, w: nat, h: nat, s: nat,
                               out: seq<Rect>, evs: seq<RenderEvent>, x: nat, y: nat)
    requires AreRegions(a, b, w, h, s, out) && ArePatches(b, s, out, evs)
    requires x < w && y < h
    ensures Over(Some(PixelAt(a, s, x, y)), LastWrite(evs, x, y)) == Some(PixelAt(b, s, x, y))
  {
    hide PixelAt, ArePatches, LastWrite, ColumnBox;
    PatchesWrite(b, s, out, evs, x, y);
    if Differs(a, b, s, x, y) {
      var i :| 0 <= i < |out| && RowIn(out[i], y);
      assert IsBox(a, b, w, h, s, out[i]);
      BoxContains(a, b, w, h, s, out[i], x, y);
    }
  }
}
