/** The values the piano roll works on: the timed MIDI messages it reads and
    the `[note, start, duration]` rows of its note table. */
module Notes {

  datatype Option<T> = None | Some(value: T)

  /** The message types the loader tells apart; every other MIDI or meta
      message only advances the clock. */
  datatype Kind = NoteOn | NoteOff | OtherMessage

  /** One message of the merged stream: its type, note number, velocity
      (0..127 in MIDI) and the time in seconds since the previous message. */
  datatype Event = Event(kind: Kind, note: int, velocity: nat, delta: real)

  /** One row of the note table: the raw MIDI note number, the start time and
      the duration, both in seconds. */
  datatype Row = Row(note: int, start: real, dur: real)

  /** A row of the preallocated table that the loader never filled. */
  const BlankRow := Row(0, 0.0, 0.0)

  /** A key press: `note_on` with a positive velocity. */
  predicate Opens(e: Event) {
    e.kind == NoteOn && e.velocity > 0
  }

  /** A key release: `note_off`, or `note_on` with velocity 0. */
  predicate Closes(e: Event) {
    e.kind == NoteOff || (e.kind == NoteOn && e.velocity == 0)
  }

  /** The start column of a table. */
  function Starts(rows: seq<Row>): seq<real> {
    seq(|rows|, i requires 0 <= i < |rows| => rows[i].start)
  }

  predicate SortedByStart(rows: seq<Row>) {
    forall i, j :: 0 <= i < j < |rows| ==> rows[i].start <= rows[j].start
  }

  predicate Sorted(xs: seq<real>) {
    forall i, j :: 0 <= i < j < |xs| ==> xs[i] <= xs[j]
  }

  /** Messages never go back in time. */
  predicate NonNegativeDeltas(es: seq<Event>) {
    forall i :: 0 <= i < |es| ==> es[i].delta >= 0.0
  }
}
