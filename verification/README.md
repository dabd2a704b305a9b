# Falling-notes piano roll: the note-timeline engine in Dafny

This project models the core of a "falling notes" MIDI player (`beta3.py`,
class `PianoRoll` and one method of `SynthesiaApp`). It covers:

- **Loading** (`load_midi`). A first loop counts the key presses and
  preallocates a table with one row per press. A second loop walks the
  merged message stream with a pitch → open-start map and writes
  `[note, start, duration]` rows into that table. The table is then sorted
  by start and its start column is read off.
- **Range query** (`paintEvent`). `bisect_left` and `bisect_right` on the
  start list pick the rows starting in `[elapsed - 1, elapsed + view_time]`.
- **Level of detail.** Above 2000 visible notes, antialiasing is switched off
  and the slice is thinned to every `max(1, n // 3000)`-th note.
- **Per-note decisions.** Each note is clipped against the playfield and
  placed over its key. It gets the hue `(pitch * 14) % 360` and a highlight
  strip when it is sounding and fewer than 1000 notes are visible.
- **Keybed** (`draw_piano`). 88 white cells, plus a narrower, shorter black
  cell over each key the code's black-key test marks (see **Black keys**
  below).
- **Progress bar.** The fill fraction is `min(elapsed / (last start + 1), 1)`.
- **Recent-files list** (`save_history`). The opened path moves to the front
  and the list is cut to ten entries.

Modules, one per concern:

| module | file | what it holds |
|---|---|---|
| `Notes` | `notes.dfy` | messages, table rows, predicates |
| `Pairing` | `pairing.dfy` | the pairing loop as a fold, and a declarative reference for it |
| `Sorting` | `sorting.dfy` | the sort by start column |
| `Search` | `search.dfy` | the two bisections |
| `Lod` | `lod.dfy` | the level-of-detail policy |
| `Keybed` | `keybed.dfy` | the keybed |
| `Paint` | `paint.dfy` | one frame's decisions |
| `Loader` | `loader.dfy` | the loader methods |
| `History` | `history.dfy` | the recent-files list |

Some behaviour of the program is easy to miss when reading it, and the model
states it as the code has it:

- **Blank rows.** The table keeps one row per press, not one per matched
  pair. Presses that are never released leave blank `(0, 0, 0)` rows. These
  rows are sorted along with the rest (`Pairing.PairedTable`,
  `Loader.LoadMidi`).
- **Note numbers.** Rows hold the raw MIDI note number. The `- 21` shift to
  a key index happens only when the x position is computed (line 133). So
  two keys 60 and 62 load as notes 60 and 62 (`Loader.TwoNoteScenario`).
- **Progress denominator.** It is the last *start* plus one second, not the
  last start plus its duration.
  - An empty timeline draws no bar at all.
  - A last start of exactly -1 makes Python raise `ZeroDivisionError`, and
    `Paint.Progress` returns that outcome.
- **Hues.** The hue `(pitch * 14) % 360` repeats every 180 pitches, not every
  octave (`Paint.HueCycle`).
- **Black keys.** The offsets `{1, 4, 6, 9, 11}` are applied to `(i + 21) % 12`
  rather than to the key index. The keybed is modelled under both tests:
  `Keybed.BlackCells(AsWritten, …)` is the cell list the code draws, and
  `Keybed.BlackCells(Corrected, …)` is the piano's layout (see Findings).

## Model

| member | source | states |
|---|---|---|
| Pairing.Run | beta3.py:55-69 | The preallocated table never changes size, whatever the messages: it keeps `note_count` rows. |
| Pairing.RunMatchesPairs | beta3.py:58-69 | After any prefix of the stream whose presses fit the table, the loop agrees with the reference. Its clock is the sum of the time deltas. Its map holds exactly the keys whose latest press/release message is a press, each at that press's time. Its next-row index counts the rows written. The table holds the reference rows in release order, followed by blank rows. |
| Pairing.RunBound | beta3.py:49-69 | Rows written plus keys still held never outnumber the presses counted so far. |
| Pairing.PairedTable | beta3.py:49-69 | The first loop's count is exactly large enough. The table has one row per press. The `idx < note_count` guard never drops a release. The reference rows come first and every other row stays `(0, 0, 0)`. |
| Pairing.RowsWellFormed | beta3.py:58-68 | With messages in time order, every row starts at a non-negative time, has a non-negative duration and ends no later than the stream. |
| Pairing.RepeatedPressOverwrites | beta3.py:62-63 | A second press of a held key replaces its open start with the new time ("last press wins") and writes no row. |
| Pairing.ZeroVelocityReleases | beta3.py:64 | A `note_on` with velocity 0 has exactly the effect of a `note_off` for the same key. |
| Pairing.UnmatchedReleaseIgnored | beta3.py:64-65 | Releasing a key that is not held changes nothing but the clock. |
| Pairing.HeldAtEndDropped | beta3.py:60-69 | After a press of a key, any messages that never release that key keep every earlier row in place and add no row for that key. A press still held when the stream ends never reaches the table. |
| Loader.CountNotes | beta3.py:49-53 | The first loop returns the number of `note_on` messages with positive velocity. |
| Loader.PairNotes | beta3.py:55-69 | Given that count, the second loop returns the reference rows in release order followed by blank rows, with no row lost. |
| Loader.LoadMidi | beta3.py:49-72 | The loaded table has one row per press and is sorted by start. It is a permutation of the reference rows plus the blank rows. The start list is its start column, sorted. With messages in time order, no start or duration is negative. |
| Loader.TwoNoteScenario | beta3.py:55-72 | Keys 60 and 62 pressed at 0 s and 0.2 s and released at 0.5 s and 0.9 s load as `[60, 0, 0.5]` then `[62, 0.2, 0.7]`. |
| Sorting.Insert | beta3.py:71 | Inserting a row into a table sorted by start keeps it sorted. It adds exactly that row to the multiset and nothing else. |
| Sorting.SortByStart | beta3.py:71 | The reordered table is sorted by start and is a permutation of the input. |
| Sorting.StartColumnIndependentOfTies | beta3.py:71-72 | Any two start-sorted permutations of the same rows have the same start column. So the unstable sort's tie order never shows in `start_times`. |
| Search.BisectLeft | beta3.py:113 | On a sorted list, the result splits it into entries below `x` and entries at least `x`. It equals the number of entries below `x`. |
| Search.BisectRight | beta3.py:114 | On a sorted list, the result splits it into entries at most `x` and entries above `x`. It equals the number of entries at most `x`. |
| Paint.WindowIsSlice | beta3.py:113-115 | If the first `i` starts lie below the lower bound and the first `j` starts lie at most the upper bound, then `rows[i:j]` is exactly the rows starting inside the window. It is empty when `j < i`. |
| Paint.CrossedWindowEmpty | beta3.py:113-115 | A window whose lower bound exceeds its upper bound holds no rows. |
| Paint.VisibleSlice | beta3.py:108-115 | On a start-sorted table, the slice between the two insertion points is exactly the rows whose start lies in `[elapsed - 1, elapsed + (h - 80) / 350]`, in table order. It is empty when that interval is empty. |
| Lod.Stride | beta3.py:124 | The stride is at least 1. It is the floor of `n / 3000` whenever that quotient exceeds 1, and 1 otherwise. |
| Lod.EveryNth | beta3.py:125 | `s[::step]` has `ceil(len(s) / step)` elements. Element `k` is `s[k * step]`. |
| Lod.ThinnedAtMost | beta3.py:121-125 | Above the threshold, the thinned slice never has more than 5999 notes, however many are visible. |
| Lod.Thin | beta3.py:118-127 | Up to 2000 visible notes, the slice is drawn whole. Above that, every stride-th note is drawn, in order: the count is the ceiling of `n / stride`, at most `n` and at most 5999. |
| Lod.ThresholdExamples | beta3.py:118-127 | 2000 notes stay smooth and whole. 2001 notes degrade with stride 1 and lose nothing. 9000 notes keep every third note, 3000 of them. |
| Paint.Hue | beta3.py:142 | The hue lies in `[0, 360)`. |
| Paint.HueCycle | beta3.py:142 | Hues repeat after 180 pitches. Any two pitches fewer than 180 apart get different hues. |
| Paint.DecideNote | beta3.py:132-147 | A note is skipped exactly when it starts after the look-ahead or has already ended. A drawn note sits at the left edge of key `note - 21` with hue `Hue(note)`. It overlaps the playfield: its bottom edge is not above the playfield top and its top edge is not below the keybed line. It is `350` pixels high per second of duration. Its bottom edge is on the keybed line exactly when the note starts, and its top edge is there exactly when the note ends. It is highlighted exactly when it is sounding and fewer than 1000 notes are visible. |
| Paint.FallsAtSpeed | beta3.py:134-135 | Between two frames that both draw a note, its bottom and top edges both move down by exactly the time passed times 350 pixels per second. |
| Paint.DecideAll | beta3.py:131-150 | There is one decision per drawn note, in slice order. |
| Paint.Progress | beta3.py:155-157 | There is no bar exactly when the start list is empty. A division by zero happens exactly when the last start is -1. Otherwise the fraction is at most 1, and it is non-negative once time and the last start are. |
| Paint.ProgressMonotone | beta3.py:156-157 | With a non-negative last start, the bar never shrinks as time goes forward. |
| Paint.ProgressFullIff | beta3.py:156-157 | With a non-negative last start, the bar is full exactly from one second after the last note starts. |
| Paint.PaintFrame | beta3.py:101-159 | A frame's render mode and note decisions are those of the visible window and its thinned slice. No note is highlighted in degraded mode. A note of the slice is skipped only when it has already ended. The progress outcome is exactly `Paint.Progress` of the start list, so the bar lemmas apply to every frame. A non-empty timeline of non-negative starts always gets a bar at most full, and an empty one gets none. |
| Keybed.WhiteCells | beta3.py:86-92 | There are 88 white cells. Cell `i` starts at `i * w / 88`, is `w / 88` wide and fills the `ph`-high keybed strip. |
| Keybed.WhiteCellsTile | beta3.py:86-92 | The white cells tile the width exactly: the first starts at 0, each ends where the next begins, and the last ends at `w`. |
| Keybed.BlackCell | beta3.py:98-99 | A black cell is 70% of a key wide and 60% of the keybed high. It is centred on the left edge of its key's cell. |
| Keybed.BlackKeysFrom | beta3.py:95-97 | Under either test, the keys are listed in increasing order. A key is listed exactly when it is in range and the test marks it black. |
| Keybed.BlackCells | beta3.py:94-99 | Under either test, there is one black cell per listed key, left to right. Under the test as written, this is the list of cells the code draws. |
| Keybed.AsWrittenMarksLowKeyBlack | beta3.py:95-99 | As written, key 0 (A0) counts as black, its black cell starts left of the keybed, and key 1 (A#0) counts as white. |
| Keybed.AsWrittenBlackCells | beta3.py:94-99 | As written, the darkened keys are exactly those with `i % 12` in `{0, 2, 4, 7, 9}` (A, B, C#, E and F# counted from A0). The first black cell drawn is A0's, and it starts left of the keybed. |
| Keybed.BlackKeysMatchPianoLayout | beta3.py:96-97 | The corrected test marks key `i` black exactly when `i % 12` is one of `{1, 4, 6, 9, 11}`, the offsets the code lists. Both end keys are white. Every black key lies between two white keys. |
| Keybed.BlackCellsInside | beta3.py:94-99 | With the corrected test, every black cell lies within the keybed's width. |
| History.RemoveFirstCounts | beta3.py:224 | `remove` takes out exactly one occurrence of the path when there is one and leaves the list unchanged otherwise. |
| History.RemoveFirstKeepsDistinct | beta3.py:224 | Removing from a list without duplicates leaves a list without duplicates that no longer contains the path. |
| History.Save | beta3.py:224-226 | The saved list starts with the opened path, followed by the old list without its first occurrence of that path, in the old order. It holds at most ten entries. A later duplicate of the path stays. |
| History.SaveRemovesOnlyFirst | beta3.py:224-226 | Saving path 1 over the stored list `[1, 2, 1]` gives `[1, 2, 1]`: `remove` drops only the first copy, so the later one stays. |
| History.SaveKeepsDistinct | beta3.py:224-226 | A history without duplicates stays without duplicates. |
| History.SaveIdempotent | beta3.py:224-226 | Opening the same file twice in a row leaves the same list as opening it once. |

## Left out

- Reading the MIDI file with `mido` is not modelled. Ticks are not converted
  to seconds and tempo maps are not handled: each message arrives as a type,
  a note number, a velocity and a time delta in seconds.
- Per-track and merged streams are one stream. The first loop walks
  `mid.tracks` and the second walks the merged `mid`. Both are modelled over
  the same message sequence, since merging only reorders the same messages.
  Meta messages become `OtherMessage`, which only advances the clock.
- Float arithmetic is not modelled. Times are exact reals. The `float32`
  table and the float32-to-float round trip of the start list are not
  modelled, nor is rounding in the geometry.
- Drawing is left out. Everything that calls `QPainter` is out of the model:
  fills, pens, brushes, the highlight strip's rectangle and the keybed's
  drawing. The model returns each decision as a value instead.
  - The note rectangle's drawn width `kw - 1` is not modelled.
  - The highlight strip's fixed position is not modelled.
- The wall clock is not modelled. `time.time()` becomes the `elapsed`
  parameter.
- `QTimer`, `keyPressEvent`, audio playback with `pygame`, the menu and
  window code, and `load_history` are outside the modelled core.
- Reading and writing the history JSON file is left out, including the
  silent `except: pass` paths. `History.Save` models only the list update.
- The `is_playing` guard at the top of `paintEvent` is not modelled.
  `Paint.PaintFrame` models a frame that is drawn.
- Console logging is left out: the two messages `load_midi` writes to the
  console (lines 46 and 76) have no effect on the table.

## Findings

| source | as written | input that shows it | evidently intended | confidence | as-written member | corrected member |
|---|---|---|---|---|---|---|
| beta3.py:96-97 | key `i` is black when `(i + 21) % 12` is in `{1, 4, 6, 9, 11}` | `i = 0` (A0) is drawn black, and its cell starts left of the keybed. `i = 1` (A#0) is drawn white. | black when `i % 12` is in `{1, 4, 6, 9, 11}` (offsets from A0), equivalently `(i + 21) % 12` in `{1, 3, 6, 8, 10}` | high (not executed) | Keybed.AsWrittenBlackCells | Keybed.BlackCellsInside |
