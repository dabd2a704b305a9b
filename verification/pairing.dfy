/** The note-pairing loop of `PianoRoll.load_midi`: a fold over the merged
    message stream that keeps a pitch -> open-start map and fills a
    preallocated table, compared with a declarative reference that says which
    rows the table must hold. */
module Pairing {
  import opened Notes

  /** Loader state after a prefix of the stream: the open starts by raw note
      number, the next free row, the preallocated table and the clock. */
  datatype State = State(active: map<int, real>, idx: nat, table: seq<Row>, now: real)

  function Blank(n: nat): (r: seq<Row>)
    ensures |r| == n
    ensures forall i :: 0 <= i < n ==> r[i] == BlankRow
  {
    seq(n, _ => BlankRow)
  }

  /** First loop of the loader: how many rows to preallocate. */
  function CountOpens(es: seq<Event>): nat {
    if |es| == 0 then 0
    else CountOpens(es[..|es| - 1]) + (if Opens(es[|es| - 1]) then 1 else 0)
  }

  function Init(noteCount: nat): State {
    State(map[], 0, Blank(noteCount), 0.0)
  }

  /** One iteration of the second loop of the loader. */
  function Step(s: State, e: Event): (r: State)
    ensures |r.table| == |s.table|
  {
    var now := s.now + e.delta;
    if Opens(e) then
      s.(active := s.active[e.note := now], now := now)
    else if Closes(e) && e.note in s.active then
      var st := s.active[e.note];
      var active := s.active - {e.note};
      if s.idx < |s.table| then
        State(active, s.idx + 1, s.table[s.idx := Row(e.note, st, now - st)], now)
      else
        State(active, s.idx, s.table, now)
    else
      s.(now := now)
  }

  /** The loader's state after the messages `es`, with `noteCount` rows. */
  function Run(es: seq<Event>, noteCount: nat): (s: State)
    ensures |s.table| == noteCount
  {
    if |es| == 0 then Init(noteCount)
    else Step(Run(es[..|es| - 1], noteCount), es[|es| - 1])
  }

  /** The table the loader fills, before it is sorted. */
  function Pair(es: seq<Event>): seq<Row> {
    Run(es, CountOpens(es)).table
  }

  // ---------------------------------------------------------------------
  // Reference: which rows the table must hold, stated without the map.

  /** Absolute time after the messages `es`. */
  function Time(es: seq<Event>): real {
    if |es| == 0 then 0.0 else Time(es[..|es| - 1]) + es[|es| - 1].delta
  }

  /** The message presses or releases the key with raw note number `p`. */
  predicate Touches(e: Event, p: int) {
    e.note == p && (Opens(e) || Closes(e))
  }

  /** Position of the latest message in `es` that presses or releases `p`. */
  function LastTouch(es: seq<Event>, p: int): (r: Option<nat>)
    ensures r.Some? ==> r.value < |es| && Touches(es[r.value], p)
    ensures r.Some? ==> forall k :: r.value < k < |es| ==> !Touches(es[k], p)
    ensures r.None? ==> forall k :: 0 <= k < |es| ==> !Touches(es[k], p)
  {
    if |es| == 0 then None
    else if Touches(es[|es| - 1], p) then Some(|es| - 1)
    else LastTouch(es[..|es| - 1], p)
  }

  /** The key `p` is held after `es` exactly when the latest message touching
      it is a press, and it was pressed at the time of that message. */
  function OpenStart(es: seq<Event>, p: int): Option<real> {
    match LastTouch(es, p)
    case None => None
    case Some(i) => if Opens(es[i]) then Some(Time(es[..i + 1])) else None
  }

  /** One row per release whose key is held, in the order of the releases:
      the raw note, the time of the press and the time held. */
  function Pairs(es: seq<Event>): seq<Row> {
    if |es| == 0 then []
    else
      var pre, e := es[..|es| - 1], es[|es| - 1];
      Pairs(pre) +
        match OpenStart(pre, e.note)
        case Some(st) => if Closes(e) then [Row(e.note, st, Time(es) - st)] else []
        case None => []
  }

  function Lookup(m: map<int, real>, p: int): Option<real> {
    if p in m then Some(m[p]) else None
  }

  // ---------------------------------------------------------------------
  // Lemmas

  lemma OpenStartSnoc(es: seq<Event>, p: int)
    requires |es| > 0
    ensures var pre, e := es[..|es| - 1], es[|es| - 1];
            OpenStart(es, p) ==
              if Touches(e, p) then (if Opens(e) then Some(Time(es)) else None)
              else OpenStart(pre, p)
  {
    var pre, e := es[..|es| - 1], es[|es| - 1];
    if !Touches(e, p) {
      match LastTouch(pre, p)
      case None =>
      case Some(i) =>
        assert es[..i + 1] == pre[..i + 1];
    } else {
      assert es[..|es|] == es;
    }
  }

  lemma CountOpensSnoc(es: seq<Event>, e: Event)
    ensures CountOpens(es + [e]) == CountOpens(es) + (if Opens(e) then 1 else 0)
  {
    assert (es + [e])[..|es|] == es;
  }

  /** Filled rows plus held keys never outnumber the presses seen so far,
      whatever the table size. */
  lemma {:induction false} RunBound(es: seq<Event>, noteCount: nat)
    ensures Run(es, noteCount).idx + |Run(es, noteCount).active| <= CountOpens(es)
  {
    if |es| > 0 {
      var pre, e := es[..|es| - 1], es[|es| - 1];
      RunBound(pre, noteCount);
      var s := Run(pre, noteCount);
      if Opens(e) {
        assert |s.active[e.note := s.now + e.delta]| <= |s.active| + 1;
      } else if Closes(e) && e.note in s.active {
        var rest := s.active - {e.note};
        assert rest.Keys + {e.note} == s.active.Keys;
        assert |rest| + 1 == |s.active|;
      }
    }
  }

  lemma FillNext(done: seq<Row>, k: nat, row: Row)
    requires k > 0
    ensures (done + Blank(k))[|done| := row] == (done + [row]) + Blank(k - 1)
  {
  }

  /** The loader state `s` agrees with the reference after `es`: the clock is
      the sum of deltas, the map holds exactly the reference's open starts, the
      first rows are the reference's rows in release order and every other
      row is still blank. */
  ghost predicate Agrees(es: seq<Event>, s: State) {
    && |Pairs(es)| <= |s.table|
    && s.now == Time(es)
    && s.idx == |Pairs(es)|
    && s.table == Pairs(es) + Blank(|s.table| - |Pairs(es)|)
    && forall p :: Lookup(s.active, p) == OpenStart(es, p)
  }

  lemma StepAgreesOnMap(es: seq<Event>, s: State)
    requires |es| > 0
    requires Agrees(es[..|es| - 1], s)
    ensures forall p :: Lookup(Step(s, es[|es| - 1]).active, p) == OpenStart(es, p)
  {
    forall p
      ensures Lookup(Step(s, es[|es| - 1]).active, p) == OpenStart(es, p)
    {
      OpenStartSnoc(es, p);
    }
  }

  lemma StepAgreesOnRelease(es: seq<Event>, s: State)
    requires |es| > 0
    requires Agrees(es[..|es| - 1], s)
    requires Closes(es[|es| - 1]) && es[|es| - 1].note in s.active
    requires s.idx + |s.active| <= |s.table|
    ensures Agrees(es, Step(s, es[|es| - 1]))
  {
    var pre, e := es[..|es| - 1], es[|es| - 1];
    var st := s.active[e.note];
    var row := Row(e.note, st, Time(es) - st);
    assert Lookup(s.active, e.note) == Some(st);
    assert OpenStart(pre, e.note) == Some(st);
    assert e.note in s.active.Keys;
    assert Pairs(es) == Pairs(pre) + [row];
    FillNext(Pairs(pre), |s.table| - |Pairs(pre)|, row);
    StepAgreesOnMap(es, s);
  }

  lemma StepAgreesOtherwise(es: seq<Event>, s: State)
    requires |es| > 0
    requires Agrees(es[..|es| - 1], s)
    requires !(Closes(es[|es| - 1]) && es[|es| - 1].note in s.active)
    ensures Agrees(es, Step(s, es[|es| - 1]))
  {
    var pre, e := es[..|es| - 1], es[|es| - 1];
    assert Pairs(es) == Pairs(pre) by {
      assert !Closes(e) || OpenStart(pre, e.note) == Lookup(s.active, e.note) == None;
    }
    StepAgreesOnMap(es, s);
  }

  /** The loader's fold agrees with the reference after every prefix of a
      stream whose presses fit the table. */
  lemma {:induction false} RunMatchesPairs(es: seq<Event>, noteCount: nat)
    requires CountOpens(es) <= noteCount
    ensures Agrees(es, Run(es, noteCount))
  {
    if |es| == 0 {
      assert Blank(noteCount) == [] + Blank(noteCount);
    } else {
      var pre, e := es[..|es| - 1], es[|es| - 1];
      RunMatchesPairs(pre, noteCount);
      RunBound(pre, noteCount);
      var s := Run(pre, noteCount);
      if Closes(e) && e.note in s.active {
        StepAgreesOnRelease(es, s);
      } else {
        StepAgreesOtherwise(es, s);
      }
    }
  }

  /** The preallocated table is exactly big enough: it has one row per press,
      the `idx < note_count` guard never drops a release, the first rows are
      the reference's rows and the rest stay `(0, 0, 0)`. */
  lemma PairedTable(es: seq<Event>)
    ensures |Pairs(es)| <= CountOpens(es)
    ensures |Pair(es)| == CountOpens(es)
    ensures Pair(es) == Pairs(es) + Blank(CountOpens(es) - |Pairs(es)|)
  {
    RunMatchesPairs(es, CountOpens(es));
  }

  lemma {:induction false} TimeOfPrefix(es: seq<Event>, k: nat)
    requires NonNegativeDeltas(es)
    requires k <= |es|
    ensures 0.0 <= Time(es[..k]) <= Time(es)
  {
    if |es| > 0 {
      var pre := es[..|es| - 1];
      if k == |es| {
        assert es[..k] == es;
        TimeOfPrefix(pre, 0);
        assert pre[..0] == [];
      } else {
        assert es[..k] == pre[..k];
        TimeOfPrefix(pre, k);
      }
    }
  }

  /** With messages in time order every row starts at a non-negative time,
      lasts a non-negative time and ends by the end of the stream. */
  lemma {:induction false} RowsWellFormed(es: seq<Event>)
    requires NonNegativeDeltas(es)
    ensures forall r :: r in Pairs(es) ==> 0.0 <= r.start && 0.0 <= r.dur && r.start + r.dur <= Time(es)
  {
    if |es| > 0 {
      var pre, e := es[..|es| - 1], es[|es| - 1];
      assert NonNegativeDeltas(pre);
      RowsWellFormed(pre);
      TimeOfPrefix(es, |es| - 1);
      match LastTouch(pre, e.note)
      case None =>
      case Some(i) =>
        TimeOfPrefix(pre, i + 1);
    }
  }

  // ---------------------------------------------------------------------
  // The quirks of the loop, stated one message at a time on the loader.

  /** A repeated press of a held key overwrites its open start and writes no
      row: the last press wins. */
  lemma RepeatedPressOverwrites(es: seq<Event>, noteCount: nat, e: Event)
    requires Opens(e)
    ensures Run(es + [e], noteCount).active ==
              Run(es, noteCount).active[e.note := Run(es, noteCount).now + e.delta]
    ensures Run(es + [e], noteCount).table == Run(es, noteCount).table
  {
    assert (es + [e])[..|es|] == es;
  }

  /** A `note_on` with velocity 0 releases exactly like a `note_off`. */
  lemma ZeroVelocityReleases(es: seq<Event>, noteCount: nat, p: int, velocity: nat, delta: real)
    ensures Run(es + [Event(NoteOn, p, 0, delta)], noteCount) ==
            Run(es + [Event(NoteOff, p, velocity, delta)], noteCount)
  {
    assert (es + [Event(NoteOn, p, 0, delta)])[..|es|] == es;
    assert (es + [Event(NoteOff, p, velocity, delta)])[..|es|] == es;
  }

  /** A release of a key that is not held changes nothing but the clock. */
  lemma UnmatchedReleaseIgnored(es: seq<Event>, noteCount: nat, e: Event)
    requires Closes(e)
    requires e.note !in Run(es, noteCount).active
    ensures Run(es + [e], noteCount) == Run(es, noteCount).(now := Run(es, noteCount).now + e.delta)
  {
    assert (es + [e])[..|es|] == es;
  }

  /** One more message adds at most one row, for its own key, and only when
      it is a release. */
  lemma PairsSnoc(xs: seq<Event>, t: Event)
    ensures |Pairs(xs)| <= |Pairs(xs + [t])| <= |Pairs(xs)| + 1
    ensures Pairs(xs + [t])[..|Pairs(xs)|] == Pairs(xs)
    ensures |Pairs(xs + [t])| > |Pairs(xs)| ==> Closes(t) && Pairs(xs + [t])[|Pairs(xs)|].note == t.note
  {
    assert (xs + [t])[..|xs|] == xs;
  }

  /** Keys still held when the stream ends never reach the table: after a
      press of `e.note`, messages that never release that key keep the rows
      before the press and add no row for that key. */
  lemma {:induction false} HeldAtEndDropped(es: seq<Event>, e: Event, tail: seq<Event>)
    requires Opens(e)
    requires forall k :: 0 <= k < |tail| ==> !(Closes(tail[k]) && tail[k].note == e.note)
    ensures |Pairs(es)| <= |Pairs(es + [e] + tail)|
    ensures Pairs(es + [e] + tail)[..|Pairs(es)|] == Pairs(es)
    ensures forall k :: |Pairs(es)| <= k < |Pairs(es + [e] + tail)| ==> Pairs(es + [e] + tail)[k].note != e.note
    decreases |tail|
  {
    if |tail| == 0 {
      assert es + [e] + tail == es + [e];
      PairsSnoc(es, e);
    } else {
      var init, t := tail[..|tail| - 1], tail[|tail| - 1];
      assert forall k :: 0 <= k < |init| ==> init[k] == tail[k];
      HeldAtEndDropped(es, e, init);
      var xs := es + [e] + init;
      assert es + [e] + tail == xs + [t];
      PairsSnoc(xs, t);
      var before, now := Pairs(xs), Pairs(xs + [t]);
      assert now[..|Pairs(es)|] == now[..|before|][..|Pairs(es)|];
      assert forall k :: |Pairs(es)| <= k < |before| ==> now[k] == before[k];
    }
  }
}
