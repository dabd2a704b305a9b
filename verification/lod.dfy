/** The level-of-detail policy of `PianoRoll.paintEvent`: above 2000 visible
    notes antialiasing is switched off and the slice is thinned to every
    `max(1, n // 3000)`-th note. */
module Lod {

  /** Above this many visible notes the frame is drawn degraded. */
  const DegradeAbove: nat := 2000

  /** Whether the frame is drawn with antialiasing. */
  datatype RenderMode = Smooth | Degraded

  function ModeFor(n: nat): RenderMode {
    if n > DegradeAbove then Degraded else Smooth
  }

  /** `max(1, n // 3000)`. */
  function Stride(n: nat): (step: nat)
    ensures step >= 1
    ensures step * 3000 <= n || step == 1
    ensures n < (step + 1) * 3000
  {
    if n / 3000 > 1 then n / 3000 else 1
  }

  /** Python's `s[::step]`: the elements at positions 0, step, 2*step, ...,
      in order; there are `ceil(|s| / step)` of them. */
  function EveryNth<T>(s: seq<T>, step: nat): (r: seq<T>)
    requires step >= 1
    ensures |r| == (|s| + step - 1) / step
    ensures forall k :: 0 <= k < |r| ==> k * step < |s| && r[k] == s[k * step]
    decreases |s|
  {
    if |s| == 0 then
      DivUnique(step - 1, step, 0, step - 1);
      []
    else if |s| <= step then
      DivUnique(|s| + step - 1, step, 1, |s| - 1);
      [s[0]]
    else
      var rest := EveryNth(s[step..], step);
      DivShift(|s| - 1, step);
      ShiftedPositions(s, step, rest);
      [s[0]] + rest
  }

  /** Prepending the first element to the picks from `s[step..]` gives the
      picks from `s`. */
  lemma ShiftedPositions<T>(s: seq<T>, step: nat, rest: seq<T>)
    requires 1 <= step < |s|
    requires forall k :: 0 <= k < |rest| ==> k * step < |s| - step && rest[k] == s[step..][k * step]
    ensures forall k :: 0 <= k < |rest| + 1 ==> k * step < |s| && ([s[0]] + rest)[k] == s[k * step]
  {
    forall k | 0 <= k < |rest| + 1
      ensures k * step < |s| && ([s[0]] + rest)[k] == s[k * step]
    {
      if k > 0 {
        MulShift(k, step);
        assert ([s[0]] + rest)[k] == rest[k - 1] == s[step..][(k - 1) * step];
      }
    }
  }

  lemma MulShift(k: int, b: int)
    ensures (k - 1) * b + b == k * b
  {
  }

  lemma MulDiff(x: int, y: int, b: int)
    ensures (x - y) * b == x * b - y * b
  {
  }

  lemma MulAtLeast(k: int, b: int)
    requires k >= 1 && b >= 1
    ensures k * b >= b
  {
    assert (k - 1) * b >= 0;
  }

  /** Integer division is the unique quotient with a remainder in `[0, b)`. */
  lemma DivUnique(a: int, b: int, q: int, r: int)
    requires b >= 1 && 0 <= r < b && a == q * b + r
    ensures a / b == q
  {
    var q', r' := a / b, a % b;
    assert a == q' * b + r';
    var k := q - q';
    MulDiff(q, q', b);
    assert k * b == r' - r;
    if k >= 1 {
      MulAtLeast(k, b);
    } else if k <= -1 {
      MulAtLeast(-k, b);
      MulDiff(0, k, b);
    }
  }

  lemma DivShift(a: nat, b: nat)
    requires b >= 1
    ensures (a + b) / b == a / b + 1
  {
    var q, r := a / b, a % b;
    MulShift(q + 1, b);
    DivUnique(a + b, b, q + 1, r);
  }

  lemma DivBelow(a: nat, b: nat, c: nat)
    requires b >= 1 && a < c * b
    ensures a / b < c
  {
    var q := a / b;
    assert q * b <= a;
    if q >= c {
      MulDiff(q, c, b);
      if q > c {
        MulAtLeast(q - c, b);
      }
    }
  }

  /** Taking every `b`-th element never yields more elements than there are. */
  lemma CeilAtMost(n: nat, b: nat)
    requires b >= 1
    ensures (n + b - 1) / b <= n
  {
    if n == 0 {
      DivUnique(b - 1, b, 0, b - 1);
    } else {
      MulAtLeast(b, n);
      MulDiff(n + 1, n, b);
      assert (n + 1) * b == n * b + b;
      assert n * b >= n;
      DivBelow(n + b - 1, b, n + 1);
    }
  }

  /** Stride arithmetic keeps the thinned slice small: never more than 5999
      notes for any slice above the threshold. */
  lemma ThinnedAtMost(n: nat)
    requires n > DegradeAbove
    ensures (n + Stride(n) - 1) / Stride(n) <= 5999
  {
    var step := Stride(n);
    if step == 1 {
      assert n < 6000;
    } else {
      assert n < (step + 1) * 3000;
      assert n + step - 1 < 5999 * step;
      DivBelow(n + step - 1, step, 5999);
    }
  }

  /** The notes of the slice actually drawn: the whole slice up to the
      threshold, every `Stride`-th note above it. */
  function Thin<T>(visible: seq<T>): (shown: seq<T>)
    ensures |visible| <= DegradeAbove ==> shown == visible
    ensures |shown| <= |visible| && |shown| <= 5999
    ensures |visible| > DegradeAbove ==>
              |shown| == (|visible| + Stride(|visible|) - 1) / Stride(|visible|)
    ensures |visible| > DegradeAbove ==>
              forall k :: 0 <= k < |shown| ==>
                k * Stride(|visible|) < |visible| && shown[k] == visible[k * Stride(|visible|)]
  {
    if |visible| > DegradeAbove then
      var n, step := |visible|, Stride(|visible|);
      var picked := EveryNth(visible, step);
      ThinnedAtMost(n);
      CeilAtMost(n, step);
      assert |picked| <= n && |picked| <= 5999;
      picked
    else
      visible
  }

  /** The thresholds of the policy at work: 2000 notes stay smooth and whole,
      2001 degrade with stride 1 (nothing dropped), 9000 keep every third note,
      3000 of them. */
  lemma ThresholdExamples<T>(v2000: seq<T>, v2001: seq<T>, v9000: seq<T>)
    requires |v2000| == 2000 && |v2001| == 2001 && |v9000| == 9000
    ensures ModeFor(2000) == Smooth && Thin(v2000) == v2000
    ensures ModeFor(2001) == Degraded && Stride(2001) == 1 && Thin(v2001) == v2001
    ensures Stride(9000) == 3 && |Thin(v9000)| == 3000
  {
    var shown := Thin(v2001);
    assert forall k :: 0 <= k < |shown| ==> shown[k] == v2001[k];
  }
}
