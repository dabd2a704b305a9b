/** The keybed of `PianoRoll.draw_piano`: 88 equal white cells across the
    width and a narrower, shorter black cell over each black key.

    The code picks black keys by `(i + 21) % 12 in [1, 4, 6, 9, 11]`. Those
    offsets are the black keys counted from A, the lowest piano key, but
    `i + 21` counts from C, so the test marks A0 (key 0) black and leaves
    A#0 (key 1) white. `IsBlackAsWritten` models the test as written and
    `AsWrittenMarksLowKeyBlack` and `AsWrittenBlackCells` exhibit the
    discrepancy; `IsBlackKey` is the corrected test. `BlackCells` draws the
    cells under either test. */
module Keybed {

  /** Keys on the keybed. */
  const KeyCount: nat := 88
  /** MIDI note number of key 0 (A0). */
  const LowestNote: int := 21

  /** `QRectF(x, y, width, height)`. */
  datatype Rect = Rect(x: real, y: real, width: real, height: real)

  /** `kw = w / 88.0`. */
  function KeyWidth(w: real): real {
    w / 88.0
  }

  /** The left edge of key cell `i`. */
  function KeyLeft(i: int, w: real): real {
    (i as real) * KeyWidth(w)
  }

  /** The 88 white cells, one per key, each `kw` wide and `ph` high on the
      bottom strip of a `w` by `h` widget. */
  function WhiteCells(w: real, h: real, ph: real): (cells: seq<Rect>)
    ensures |cells| == KeyCount
    ensures forall i :: 0 <= i < |cells| ==>
              cells[i].x == KeyLeft(i, w) && cells[i].width == KeyWidth(w)
              && cells[i].y == h - ph && cells[i].height == ph
  {
    seq(KeyCount, i requires 0 <= i < KeyCount => Rect(KeyLeft(i, w), h - ph, KeyWidth(w), ph))
  }

  /** The white cells tile the full width: the first starts at 0, each ends
      where the next begins, and the last ends at `w`. */
  lemma WhiteCellsTile(w: real, h: real, ph: real)
    ensures WhiteCells(w, h, ph)[0].x == 0.0
    ensures forall i :: 0 <= i < KeyCount - 1 ==>
              WhiteCells(w, h, ph)[i].x + WhiteCells(w, h, ph)[i].width == WhiteCells(w, h, ph)[i + 1].x
    ensures WhiteCells(w, h, ph)[KeyCount - 1].x + WhiteCells(w, h, ph)[KeyCount - 1].width == w
  {
    var cells := WhiteCells(w, h, ph);
    forall i | 0 <= i < KeyCount - 1
      ensures cells[i].x + cells[i].width == cells[i + 1].x
    {
      assert (i as real) * KeyWidth(w) + KeyWidth(w) == ((i + 1) as real) * KeyWidth(w);
    }
  }

  /** Which black-key test the keybed applies: the one the code runs, or
      the corrected one. */
  datatype BlackKeyTest = AsWritten | Corrected

  /** The black-key test as the code writes it. */
  predicate IsBlackAsWritten(i: int) {
    (i + LowestNote) % 12 in {1, 4, 6, 9, 11}
  }

  /** The corrected test: the MIDI pitch class of key `i` is a sharp
      (C#, D#, F#, G# or A#). */
  predicate IsBlackKey(i: int) {
    (i + LowestNote) % 12 in {1, 3, 6, 8, 10}
  }

  predicate Marks(test: BlackKeyTest, i: int) {
    match test
    case AsWritten => IsBlackAsWritten(i)
    case Corrected => IsBlackKey(i)
  }

  /** The black cell drawn for key `i`: 70% of a key wide, 60% of the keybed
      high, centred on the left edge of cell `i`. */
  function BlackCell(i: int, w: real, h: real, ph: real): (r: Rect)
    ensures r.x + r.width / 2.0 == KeyLeft(i, w)
    ensures r.width == 0.7 * KeyWidth(w) && r.height == 0.6 * ph
    ensures r.y == h - ph
  {
    Rect(KeyLeft(i, w) - KeyWidth(w) * 0.35, h - ph, KeyWidth(w) * 0.7, ph * 0.6)
  }

  /** Keys `i`, `i + 1`, ..., 87 that `test` marks black, in order. */
  function BlackKeysFrom(test: BlackKeyTest, i: nat): (keys: seq<nat>)
    requires i <= KeyCount
    ensures forall k :: k in keys <==> i <= k < KeyCount && Marks(test, k)
    ensures forall a, b :: 0 <= a < b < |keys| ==> keys[a] < keys[b]
    decreases KeyCount - i
  {
    if i == KeyCount then []
    else if Marks(test, i) then
      var rest := BlackKeysFrom(test, i + 1);
      assert forall b :: 0 <= b < |rest| ==> rest[b] in rest;
      [i] + rest
    else BlackKeysFrom(test, i + 1)
  }

  /** The black cells the second loop of `draw_piano` draws under `test`,
      left to right. */
  function BlackCells(test: BlackKeyTest, w: real, h: real, ph: real): (cells: seq<Rect>)
    ensures |cells| == |BlackKeysFrom(test, 0)|
    ensures forall j :: 0 <= j < |cells| ==> cells[j] == BlackCell(BlackKeysFrom(test, 0)[j], w, h, ph)
  {
    var keys := BlackKeysFrom(test, 0);
    seq(|keys|, j requires 0 <= j < |keys| => BlackCell(keys[j], w, h, ph))
  }

  /** As written, the lowest key A0 is drawn black, its black cell hangs off
      the left edge of the keybed, and A#0 is left white. */
  lemma AsWrittenMarksLowKeyBlack(w: real, h: real, ph: real)
    requires w > 0.0
    ensures IsBlackAsWritten(0) && BlackCell(0, w, h, ph).x < 0.0
    ensures !IsBlackAsWritten(1)
  {
  }

  /** The keys the code darkens are A, B, C#, E and F# of each octave
      counted from A0, that is `i % 12` in `{0, 2, 4, 7, 9}`; its first black
      cell belongs to A0 and starts left of the keybed. */
  lemma {:induction false} AsWrittenBlackCells(w: real, h: real, ph: real)
    requires w > 0.0
    ensures forall k :: k in BlackKeysFrom(AsWritten, 0) <==> 0 <= k < KeyCount && k % 12 in {0, 2, 4, 7, 9}
    ensures |BlackCells(AsWritten, w, h, ph)| > 0
    ensures BlackCells(AsWritten, w, h, ph)[0].x < 0.0
  {
    AsWrittenOffsets();
    var keys := BlackKeysFrom(AsWritten, 0);
    assert IsBlackAsWritten(0);
    assert 0 in keys;
    var j :| 0 <= j < |keys| && keys[j] == 0;
    assert j == 0;
  }

  lemma AsWrittenOffsets()
    ensures forall i :: IsBlackAsWritten(i) <==> i % 12 in {0, 2, 4, 7, 9}
  {
  }

  /** The corrected test follows the piano's layout: the offsets the code
      lists are counted from the lowest key, both end keys (A0 and C8) are
      white, and every black key sits between two white keys. */
  lemma BlackKeysMatchPianoLayout()
    ensures forall i :: IsBlackKey(i) <==> i % 12 in {1, 4, 6, 9, 11}
    ensures !IsBlackKey(0) && !IsBlackKey(KeyCount - 1)
    ensures forall i :: 0 <= i < KeyCount && IsBlackKey(i) ==>
              1 <= i < KeyCount - 1 && !IsBlackKey(i - 1) && !IsBlackKey(i + 1)
  {
  }

  /** With the corrected test every black cell lies within the keybed. */
  lemma BlackCellsInside(w: real, h: real, ph: real)
    requires w >= 0.0
    ensures forall r :: r in BlackCells(Corrected, w, h, ph) ==> 0.0 <= r.x && r.x + r.width <= w
  {
    var keys := BlackKeysFrom(Corrected, 0);
    var cells := BlackCells(Corrected, w, h, ph);
    forall j | 0 <= j < |cells|
      ensures 0.0 <= cells[j].x && cells[j].x + cells[j].width <= w
    {
      assert keys[j] in keys;
      InsideBounds(keys[j], w);
    }
  }

  lemma InsideBounds(i: int, w: real)
    requires 0 <= i < KeyCount && IsBlackKey(i) && w >= 0.0
    ensures 0.0 <= KeyLeft(i, w) - KeyWidth(w) * 0.35
    ensures KeyLeft(i, w) - KeyWidth(w) * 0.35 + KeyWidth(w) * 0.7 <= w
  {
    var kw := KeyWidth(w);
    assert 1 <= i <= 86;
    assert (i as real) * kw >= kw;
    assert (i as real) * kw <= 86.0 * kw;
    assert 88.0 * kw == w;
    assert KeyLeft(i, w) == (i as real) * kw;
    assert kw >= 0.0;
  }
}
