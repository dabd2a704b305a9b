/** `PianoRoll.load_midi` without the file and the clock: count the presses,
    pair presses with releases into a preallocated table, sort the table by
    start time and read off the start list. */
module Loader {
  import opened Notes
  import opened Pairing
  import Sorting

  /** The first loop of the loader: the number of presses in the stream. */
  method CountNotes(es: seq<Event>) returns (noteCount: nat)
    ensures noteCount == CountOpens(es)
  {
    noteCount := 0;
    for i := 0 to |es|
      invariant noteCount == CountOpens(es[..i])
    {
      assert es[..i + 1][..i] == es[..i];
      if es[i].kind == NoteOn && es[i].velocity > 0 {
        noteCount := noteCount + 1;
      }
    }
    assert es[..|es|] == es;
  }

  /** The second loop of the loader: with a table of one row per press, the
      paired rows of the reference in release order, then blank rows. */
  method PairNotes(es: seq<Event>, noteCount: nat) returns (table: seq<Row>)
    requires noteCount == CountOpens(es)
    ensures |Pairs(es)| <= noteCount
    ensures table == Pairs(es) + Blank(noteCount - |Pairs(es)|)
  {
    var active: map<int, real> := map[];
    var idx := 0;
    table := Blank(noteCount);
    var currentTime := 0.0;
    for i := 0 to |es|
      invariant State(active, idx, table, currentTime) == Run(es[..i], noteCount)
    {
      assert es[..i + 1][..i] == es[..i];
      var msg := es[i];
      currentTime := currentTime + msg.delta;
      if msg.kind == NoteOn && msg.velocity > 0 {
        active := active[msg.note := currentTime];
      } else if msg.kind == NoteOff || (msg.kind == NoteOn && msg.velocity == 0) {
        if msg.note in active {
          var st := active[msg.note];
          active := active - {msg.note};
          if idx < noteCount {
            table := table[idx := Row(msg.note, st, currentTime - st)];
            idx := idx + 1;
          }
        }
      }
    }
    assert es[..|es|] == es;
    PairedTable(es);
  }

  /** The sorted note table and its start list for the message stream `es`:
      one row per press, the paired rows of the reference plus blank
      `(0, 0, 0)` rows, in start order; with messages in time order no start
      or duration is negative. */
  method LoadMidi(es: seq<Event>) returns (notes: seq<Row>, startTimes: seq<real>)
    ensures |notes| == CountOpens(es)
    ensures SortedByStart(notes)
    ensures |Pairs(es)| <= CountOpens(es)
    ensures multiset(notes) == multiset(Pairs(es) + Blank(CountOpens(es) - |Pairs(es)|))
    ensures startTimes == Starts(notes) && Sorted(startTimes)
    ensures NonNegativeDeltas(es) ==> forall r :: r in notes ==> 0.0 <= r.start && 0.0 <= r.dur
  {
    var noteCount := CountNotes(es);
    var table := PairNotes(es, noteCount);
    notes := Sorting.SortByStart(table);
    SortedStarts(table, notes);
    startTimes := Starts(notes);
    if NonNegativeDeltas(es) {
      SortedRowsWellFormed(es, table, notes);
    }
  }

  /** A sorted permutation of the table has the table's length and a sorted
      start column. */
  lemma SortedStarts(table: seq<Row>, notes: seq<Row>)
    requires SortedByStart(notes) && multiset(notes) == multiset(table)
    ensures |notes| == |table|
    ensures Sorted(Starts(notes))
  {
    assert |notes| == |multiset(notes)| == |table|;
  }

  lemma SortedRowsWellFormed(es: seq<Event>, table: seq<Row>, notes: seq<Row>)
    requires NonNegativeDeltas(es)
    requires |Pairs(es)| <= |table|
    requires table == Pairs(es) + Blank(|table| - |Pairs(es)|)
    requires multiset(notes) == multiset(table)
    ensures forall r :: r in notes ==> 0.0 <= r.start && 0.0 <= r.dur
  {
    RowsWellFormed(es);
    forall r | r in notes
      ensures 0.0 <= r.start && 0.0 <= r.dur
    {
      assert r in multiset(notes);
      assert r in table;
      var k :| 0 <= k < |table| && table[k] == r;
      if k >= |Pairs(es)| {
        assert r == BlankRow;
      } else {
        assert r in Pairs(es);
      }
    }
  }

  lemma RunSnoc(es: seq<Event>, e: Event, noteCount: nat)
    ensures Run(es + [e], noteCount) == Step(Run(es, noteCount), e)
  {
    assert (es + [e])[..|es|] == es;
  }

  const E0 := Event(NoteOn, 60, 80, 0.0)
  const E1 := Event(NoteOn, 62, 90, 0.2)
  const E2 := Event(NoteOff, 60, 0, 0.3)
  const E3 := Event(NoteOff, 62, 0, 0.4)

  lemma ScenarioFirstTwo()
    ensures Run([E0, E1], 2) == State(map[60 := 0.0, 62 := 0.2], 0, [BlankRow, BlankRow], 0.2)
  {
    assert Blank(2) == [BlankRow, BlankRow];
    RunSnoc([], E0, 2);
    assert [E0] == [] + [E0];
    RunSnoc([E0], E1, 2);
    assert [E0, E1] == [E0] + [E1];
  }

  lemma ScenarioAll()
    ensures Run([E0, E1, E2, E3], 2).table == [Row(60, 0.0, 0.5), Row(62, 0.2, 0.7)]
  {
    ScenarioFirstTwo();
    RunSnoc([E0, E1], E2, 2);
    assert [E0, E1, E2] == [E0, E1] + [E2];
    var s3 := Run([E0, E1, E2], 2);
    assert s3 == State(map[62 := 0.2], 1, [Row(60, 0.0, 0.5), BlankRow], 0.5);
    RunSnoc([E0, E1, E2], E3, 2);
    assert [E0, E1, E2, E3] == [E0, E1, E2] + [E3];
  }

  /** Two keys pressed at 0 s and 0.2 s and released at 0.5 s and 0.9 s give
      the rows `[60, 0, 0.5]` and `[62, 0.2, 0.7]`, with raw note numbers. */
  lemma TwoNoteScenario()
    ensures Sorting.SortByStart(Pair([E0, E1, E2, E3])) == [Row(60, 0.0, 0.5), Row(62, 0.2, 0.7)]
  {
    var es := [E0, E1, E2, E3];
    CountOpensSnoc([], E0);
    CountOpensSnoc([E0], E1);
    CountOpensSnoc([E0, E1], E2);
    CountOpensSnoc([E0, E1, E2], E3);
    assert [E0] == [] + [E0];
    assert [E0, E1] == [E0] + [E1];
    assert [E0, E1, E2] == [E0, E1] + [E2];
    assert es == [E0, E1, E2] + [E3];
    assert CountOpens(es) == 2;
    ScenarioAll();
    var a, b := Row(60, 0.0, 0.5), Row(62, 0.2, 0.7);
    assert [a, b][1..] == [b];
    assert Sorting.SortByStart([b]) == [b];
    assert Sorting.SortByStart([a, b]) == Sorting.Insert(a, [b]) == [a, b];
  }
}
