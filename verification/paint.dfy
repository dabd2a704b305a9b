/** The arithmetic of `PianoRoll.paintEvent`: the visible slice found by two
    binary searches, the level-of-detail choice, the per-note clip, highlight
    and colour decisions, and the progress fraction. Drawing itself is left
    out; each decision is returned as a value. */
module Paint {
  import opened Notes
  import Search
  import Lod
  import Keybed

  /** `ph`: height of the keybed strip in pixels. */
  const KeybedHeight: real := 80.0
  /** `self.speed`: fall speed in pixels per second. */
  const Speed: real := 350.0
  /** Seconds before `elapsed` that the range query still takes in. */
  const LookBack: real := 1.0
  /** Sounding notes get a highlight strip only below this visible count. */
  const HighlightBelow: nat := 1000

  /** Height of the area above the keybed. */
  function Playfield(h: real): real {
    h - KeybedHeight
  }

  /** `view_time`: the seconds of music the playfield shows. */
  function ViewTime(h: real): real {
    Playfield(h) / Speed
  }

  // ---------------------------------------------------------------------
  // The visible slice

  /** NumPy's `a[i:j]` for in-range bounds: empty when they cross. */
  function Slice<T>(s: seq<T>, i: nat, j: nat): seq<T>
    requires i <= |s| && j <= |s|
  {
    if i <= j then s[i..j] else []
  }

  /** Reference: the rows whose start lies in `[lo, hi]`, in table order. */
  function InWindow(rows: seq<Row>, lo: real, hi: real): (r: seq<Row>)
    ensures forall x :: x in r ==> x in rows && lo <= x.start <= hi
  {
    if |rows| == 0 then []
    else (if lo <= rows[0].start <= hi then [rows[0]] else []) + InWindow(rows[1..], lo, hi)
  }

  lemma {:induction false} InWindowAppend(a: seq<Row>, b: seq<Row>, lo: real, hi: real)
    ensures InWindow(a + b, lo, hi) == InWindow(a, lo, hi) + InWindow(b, lo, hi)
  {
    if |a| > 0 {
      assert (a + b)[0] == a[0];
      assert (a + b)[1..] == a[1..] + b;
      InWindowAppend(a[1..], b, lo, hi);
      var head := if lo <= a[0].start <= hi then [a[0]] else [];
      assert InWindow(a + b, lo, hi) == head + InWindow(a[1..] + b, lo, hi);
      assert InWindow(a, lo, hi) == head + InWindow(a[1..], lo, hi);
    } else {
      assert a + b == b;
    }
  }

  lemma {:induction false} InWindowNone(rows: seq<Row>, lo: real, hi: real)
    requires forall k :: 0 <= k < |rows| ==> !(lo <= rows[k].start <= hi)
    ensures InWindow(rows, lo, hi) == []
  {
    if |rows| > 0 {
      assert forall k :: 0 <= k < |rows[1..]| ==> rows[1..][k] == rows[k + 1];
      InWindowNone(rows[1..], lo, hi);
    }
  }

  lemma {:induction false} InWindowAll(rows: seq<Row>, lo: real, hi: real)
    requires forall k :: 0 <= k < |rows| ==> lo <= rows[k].start <= hi
    ensures InWindow(rows, lo, hi) == rows
  {
    if |rows| > 0 {
      assert forall k :: 0 <= k < |rows[1..]| ==> rows[1..][k] == rows[k + 1];
      InWindowAll(rows[1..], lo, hi);
      assert rows == [rows[0]] + rows[1..];
    }
  }

  /** Rows below the window, then rows inside it, then rows above it: the
      window holds exactly the middle part. */
  lemma WindowOfThree(below: seq<Row>, inside: seq<Row>, above: seq<Row>, lo: real, hi: real)
    requires forall k :: 0 <= k < |below| ==> below[k].start < lo
    requires forall k :: 0 <= k < |inside| ==> lo <= inside[k].start <= hi
    requires forall k :: 0 <= k < |above| ==> hi < above[k].start
    ensures InWindow(below + inside + above, lo, hi) == inside
  {
    InWindowAppend(below + inside, above, lo, hi);
    InWindowAppend(below, inside, lo, hi);
    InWindowNone(below, lo, hi);
    InWindowAll(inside, lo, hi);
    InWindowNone(above, lo, hi);
    assert [] + inside + [] == inside;
  }

  /** A table whose first `i` starts lie below `lo` and whose first `j`
      starts lie at most `hi` has exactly `rows[i:j]` in the window. */
  lemma WindowIsSlice(rows: seq<Row>, lo: real, hi: real, i: nat, j: nat)
    requires i <= |rows| && j <= |rows|
    requires forall k :: 0 <= k < |rows| ==> (rows[k].start < lo <==> k < i)
    requires forall k :: 0 <= k < |rows| ==> (rows[k].start <= hi <==> k < j)
    ensures InWindow(rows, lo, hi) == Slice(rows, i, j)
  {
    if i <= j {
      var below, inside, above := rows[..i], rows[i..j], rows[j..];
      assert rows == below + inside + above;
      forall k | 0 <= k < |below|
        ensures below[k].start < lo
      {
        assert below[k] == rows[k];
      }
      forall k | 0 <= k < |inside|
        ensures lo <= inside[k].start <= hi
      {
        assert inside[k] == rows[i + k];
      }
      forall k | 0 <= k < |above|
        ensures hi < above[k].start
      {
        assert above[k] == rows[j + k];
      }
      WindowOfThree(below, inside, above, lo, hi);
    } else {
      InWindowNone(rows, lo, hi);
    }
  }

  /** When the look-back bound lies above the look-ahead bound the window
      holds nothing. */
  lemma {:induction false} CrossedWindowEmpty(rows: seq<Row>, lo: real, hi: real)
    requires hi < lo
    ensures InWindow(rows, lo, hi) == []
  {
    if |rows| > 0 {
      CrossedWindowEmpty(rows[1..], lo, hi);
    }
  }

  /** `idx_s`, `idx_e` and `visible`: for a table sorted by start, the slice
      between the two insertion points is exactly the rows starting in
      `[elapsed - 1, elapsed + view_time]`; it is empty when the bounds cross. */
  method VisibleSlice(rows: seq<Row>, startTimes: seq<real>, h: real, elapsed: real)
    returns (visible: seq<Row>)
    requires SortedByStart(rows) && startTimes == Starts(rows)
    ensures visible == InWindow(rows, elapsed - LookBack, elapsed + ViewTime(h))
    ensures elapsed + ViewTime(h) < elapsed - LookBack ==> visible == []
  {
    var lo, hi := elapsed - LookBack, elapsed + ViewTime(h);
    assert |startTimes| == |rows|;
    assert forall k :: 0 <= k < |rows| ==> startTimes[k] == rows[k].start;
    assert Sorted(startTimes);
    var idxS := Search.BisectLeft(startTimes, lo);
    var idxE := Search.BisectRight(startTimes, hi);
    assert forall k :: 0 <= k < |rows| ==> (rows[k].start < lo <==> k < idxS);
    assert forall k :: 0 <= k < |rows| ==> (rows[k].start <= hi <==> k < idxE);
    visible := Slice(rows, idxS, idxE);
    WindowIsSlice(rows, lo, hi, idxS, idxE);
    if hi < lo {
      CrossedWindowEmpty(rows, lo, hi);
    }
  }

  // ---------------------------------------------------------------------
  // Per-note decisions

  /** What the loop does with one note of the thinned slice. */
  datatype NoteDraw =
    | Skip
    | Draw(x: real, yTop: real, yBot: real, hue: int, highlight: bool)

  /** `(pitch * 14) % 360`, the hue of the note's colour. */
  function Hue(note: int): (hue: int)
    ensures 0 <= hue < 360
  {
    (note * 14) % 360
  }

  /** Decides one note: skipped when its rectangle lies wholly above the
      playfield (it starts after the look-ahead) or wholly in the keybed (it
      has ended); otherwise placed over its key, `speed` pixels per second
      of duration high, highlighted when it is sounding and fewer than 1000
      notes are visible. */
  function DecideNote(w: real, h: real, elapsed: real, noteCount: nat, row: Row): (d: NoteDraw)
    ensures d.Skip? <==> row.start > elapsed + ViewTime(h) || row.start + row.dur < elapsed
    ensures d.Draw? ==> d.x == Keybed.KeyLeft(row.note - Keybed.LowestNote, w)
    ensures d.Draw? ==> d.hue == Hue(row.note)
    ensures d.Draw? ==> 0.0 <= d.yBot && d.yTop <= Playfield(h)
    ensures d.Draw? ==> d.yBot - d.yTop == row.dur * Speed
    ensures d.Draw? ==> (d.yBot == Playfield(h) <==> row.start == elapsed)
    ensures d.Draw? ==> (d.yTop == Playfield(h) <==> row.start + row.dur == elapsed)
    ensures d.Draw? ==>
              (d.highlight <==> noteCount < HighlightBelow && row.start <= elapsed <= row.start + row.dur)
  {
    var yBot := Playfield(h) - (row.start - elapsed) * Speed;
    var yTop := Playfield(h) - (row.start + row.dur - elapsed) * Speed;
    if yBot < 0.0 || yTop > Playfield(h) then Skip
    else
      var x := ((row.note - Keybed.LowestNote) as real) * Keybed.KeyWidth(w);
      var sounding := row.start <= elapsed <= row.start + row.dur;
      Draw(x, yTop, yBot, Hue(row.note), noteCount < HighlightBelow && sounding)
  }

  /** Notes fall at `speed` pixels per second: between two frames that both
      draw a note, both of its edges move down by the time passed times the
      speed, whatever the visible counts. */
  lemma FallsAtSpeed(w: real, h: real, e1: real, e2: real, c1: nat, c2: nat, row: Row)
    requires DecideNote(w, h, e1, c1, row).Draw? && DecideNote(w, h, e2, c2, row).Draw?
    ensures DecideNote(w, h, e2, c2, row).yBot - DecideNote(w, h, e1, c1, row).yBot == (e2 - e1) * Speed
    ensures DecideNote(w, h, e2, c2, row).yTop - DecideNote(w, h, e1, c1, row).yTop == (e2 - e1) * Speed
  {
  }

  /** The hue cycles with period 180 pitches, so the 88 keys of a piano,
      indeed any 180 consecutive pitches, all get different hues. */
  lemma HueCycle(p: int, q: int)
    ensures Hue(p + 180) == Hue(p)
    ensures p < q < p + 180 ==> Hue(p) != Hue(q)
  {
    assert (p + 180) * 14 == p * 14 + 7 * 360;
    if p < q < p + 180 {
      var d := q - p;
      var k := (q * 14) / 360 - (p * 14) / 360;
      assert Hue(q) - Hue(p) == 14 * d - 360 * k;
      HueStep(d, k);
    }
  }

  /** A pitch step of 1 to 179 never moves the hue by a whole number of turns:
      `14 * d` is a multiple of 360 only for multiples of 180. */
  lemma HueStep(d: int, k: int)
    requires 0 < d < 180
    ensures 14 * d != 360 * k
  {
  }

  /** The thinned slice's decisions for one frame. */
  function DecideAll(w: real, h: real, elapsed: real, noteCount: nat, shown: seq<Row>): (ds: seq<NoteDraw>)
    ensures |ds| == |shown|
    ensures forall k :: 0 <= k < |shown| ==> ds[k] == DecideNote(w, h, elapsed, noteCount, shown[k])
  {
    seq(|shown|, k requires 0 <= k < |shown| => DecideNote(w, h, elapsed, noteCount, shown[k]))
  }

  // ---------------------------------------------------------------------
  // Progress

  function Last(xs: seq<real>): real
    requires |xs| > 0
  {
    xs[|xs| - 1]
  }

  function Min(a: real, b: real): real {
    if a <= b then a else b
  }

  /** What the progress step of a frame ends in: no bar for an empty
      timeline, a bar filled to `fraction`, or Python's `ZeroDivisionError`
      when the last start is exactly -1. */
  datatype ProgressBar = NoBar | Bar(fraction: real) | ZeroDivision

  /** `min(elapsed / (start_times[-1] + 1), 1.0)` when there are notes. The
      denominator uses the last start, not the last end. */
  function Progress(startTimes: seq<real>, elapsed: real): (p: ProgressBar)
    ensures p.NoBar? <==> |startTimes| == 0
    ensures p.ZeroDivision? <==> |startTimes| > 0 && Last(startTimes) == -1.0
    ensures p.Bar? ==> p.fraction <= 1.0
    ensures p.Bar? && 0.0 <= elapsed && 0.0 <= Last(startTimes) ==> 0.0 <= p.fraction
  {
    if |startTimes| == 0 then NoBar
    else if Last(startTimes) + 1.0 == 0.0 then ZeroDivision
    else Bar(Min(elapsed / (Last(startTimes) + 1.0), 1.0))
  }

  /** The bar never shrinks while time goes forward. */
  lemma ProgressMonotone(startTimes: seq<real>, e1: real, e2: real)
    requires |startTimes| > 0 && 0.0 <= Last(startTimes)
    requires e1 <= e2
    ensures Progress(startTimes, e1).fraction <= Progress(startTimes, e2).fraction
  {
    var d := Last(startTimes) + 1.0;
    assert e2 / d - e1 / d == (e2 - e1) / d;
  }

  /** The bar is full exactly from one second after the last note starts. */
  lemma ProgressFullIff(startTimes: seq<real>, elapsed: real)
    requires |startTimes| > 0 && 0.0 <= Last(startTimes)
    ensures Progress(startTimes, elapsed).fraction == 1.0 <==> elapsed >= Last(startTimes) + 1.0
  {
    var d := Last(startTimes) + 1.0;
    assert elapsed / d >= 1.0 <==> elapsed >= d;
  }

  // ---------------------------------------------------------------------
  // One frame

  /** The decisions of one frame for a `w` by `h` widget at time `elapsed`:
      the mode and decisions follow the visible window's size, the thinned
      slice is what gets decided, no note is highlighted in degraded mode, a
      note of the slice is skipped only when it has already ended, and the
      progress outcome is that of the start list, so a timeline of
      non-negative starts always gets a bar at most full. */
  method PaintFrame(rows: seq<Row>, startTimes: seq<real>, w: real, h: real, elapsed: real)
    returns (mode: Lod.RenderMode, notes: seq<NoteDraw>, progress: ProgressBar)
    requires SortedByStart(rows) && startTimes == Starts(rows)
    ensures var visible := InWindow(rows, elapsed - LookBack, elapsed + ViewTime(h));
            && mode == Lod.ModeFor(|visible|)
            && notes == DecideAll(w, h, elapsed, |visible|, Lod.Thin(visible))
    ensures forall k :: 0 <= k < |notes| && notes[k].Draw? && notes[k].highlight ==> mode == Lod.Smooth
    ensures var shown := Lod.Thin(InWindow(rows, elapsed - LookBack, elapsed + ViewTime(h)));
            forall k :: 0 <= k < |notes| && notes[k].Skip? ==>
              shown[k] in rows && shown[k].start + shown[k].dur < elapsed
    ensures progress == Progress(startTimes, elapsed)
    ensures progress.NoBar? <==> |rows| == 0
    ensures (forall k :: 0 <= k < |rows| ==> 0.0 <= rows[k].start) && |rows| > 0 ==>
              progress.Bar? && progress.fraction <= 1.0
  {
    var visible := VisibleSlice(rows, startTimes, h, elapsed);
    var noteCount := |visible|;
    mode := Lod.ModeFor(noteCount);
    var shown := Lod.Thin(visible);
    notes := DecideAll(w, h, elapsed, noteCount, shown);
    DecisionsOfWindow(rows, w, h, elapsed, visible);
    progress := Progress(startTimes, elapsed);
    ProgressOfTable(rows, startTimes, elapsed);
  }

  /** Deciding the thinned window: a highlight only below the highlight
      count, and a skip only for a row of the table that has ended. */
  lemma DecisionsOfWindow(rows: seq<Row>, w: real, h: real, elapsed: real, visible: seq<Row>)
    requires visible == InWindow(rows, elapsed - LookBack, elapsed + ViewTime(h))
    ensures var shown := Lod.Thin(visible);
            var ds := DecideAll(w, h, elapsed, |visible|, shown);
            && (forall k :: 0 <= k < |ds| && ds[k].Draw? && ds[k].highlight ==> |visible| < HighlightBelow)
            && (forall k :: 0 <= k < |ds| && ds[k].Skip? ==>
                  shown[k] in rows && shown[k].start + shown[k].dur < elapsed)
  {
    var shown := Lod.Thin(visible);
    var ds := DecideAll(w, h, elapsed, |visible|, shown);
    forall k | 0 <= k < |ds|
      ensures ds[k].Draw? && ds[k].highlight ==> |visible| < HighlightBelow
      ensures ds[k].Skip? ==> shown[k] in rows && shown[k].start + shown[k].dur < elapsed
    {
      assert shown[k] in visible;
      assert ds[k] == DecideNote(w, h, elapsed, |visible|, shown[k]);
    }
  }

  /** The progress outcome of a table's start column: a bar exactly when the
      table has rows, and a bar at most full when every start is
      non-negative. */
  lemma ProgressOfTable(rows: seq<Row>, startTimes: seq<real>, elapsed: real)
    requires startTimes == Starts(rows)
    ensures Progress(startTimes, elapsed).NoBar? <==> |rows| == 0
    ensures (forall k :: 0 <= k < |rows| ==> 0.0 <= rows[k].start) && |rows| > 0 ==>
              Progress(startTimes, elapsed).Bar? && Progress(startTimes, elapsed).fraction <= 1.0
  {
    if |rows| > 0 {
      assert Last(startTimes) == rows[|rows| - 1].start;
    }
  }
}
