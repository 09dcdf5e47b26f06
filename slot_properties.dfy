/**
 * What the free-slot computation guarantees: where the returned slots
 * start, how many there are, in which order they come, exactly which
 * candidates survive the overlap filter, and how all-day entries and a
 * failed fetch are treated.
 */
module SlotProperties {
  import opened Wrappers
  import opened Clock
  import opened Busy
  import opened Availability

  /** A nonzero multiple of `d` is at least `d` away from zero. */
  lemma MultipleOfPositive(e: int, d: int)
    requires d > 0
    ensures e >= 1 ==> e * d >= d
    ensures e <= -1 ==> e * d <= -d
  {
  }

  /** Integer division by a positive divisor is determined by its bounds. */
  lemma DivByBounds(x: int, d: int, q: int)
    requires d > 0
    requires q * d <= x < q * d + d
    ensures x / d == q
  {
    var e := x / d - q;
    assert x == d * (x / d) + x % d;
    assert -d < e * d < d;
    MultipleOfPositive(e, d);
  }

  /** The loop visits ceil((end - t) / d) candidates from `t`. */
  lemma {:induction false} CandidatesCount(t: int, end: int, d: int)
    requires d > 0
    ensures |Candidates(t, end, d)| == if t < end then CeilDiv(end - t, d) else 0
    decreases end - t
  {
    if t < end {
      CandidatesCount(t + d, end, d);
      if t + d < end {
        var q := CeilDiv(end - t - d, d);
        assert q * d <= end - t - d + d - 1 < q * d + d;
        DivByBounds(end - t + d - 1, d, q + 1);
      } else {
        DivByBounds(end - t + d - 1, d, 1);
      }
    }
  }

  /** One step along the grid from `t + d` is one more step from `t`. */
  lemma GridPointShift(t: int, d: int, k: nat)
    ensures GridPoint(t + d, d, k) == GridPoint(t, d, k + 1)
  {
    assert (k + 1) * d == k * d + d;
  }

  /** The candidates from `t` are `t + k*d` for k = 0, 1, ... */
  lemma {:induction false} CandidatesShape(t: int, end: int, d: int)
    requires d > 0
    ensures forall k :: 0 <= k < |Candidates(t, end, d)| ==> Candidates(t, end, d)[k] == GridPoint(t, d, k)
    decreases end - t
  {
    if t < end {
      var c := Candidates(t, end, d);
      CandidatesShape(t + d, end, d);
      forall k | 0 <= k < |c| ensures c[k] == GridPoint(t, d, k) {
        if k > 0 {
          GridPointShift(t, d, k - 1);
          assert c[k] == Candidates(t + d, end, d)[k - 1] == GridPoint(t + d, d, k - 1);
        }
      }
    }
  }

  /** Whether `s` is one of the candidate starts `t, t + d, t + 2d, ...`. */
  ghost predicate OnGrid(s: int, t: int, d: int)
  {
    exists k: nat :: s == GridPoint(t, d, k)
  }

  /** Every free start lies in `[t, end)`, on the grid from `t`, and no busy entry overlaps its slot. */
  lemma {:induction false} FreeStartsSound(t: int, end: int, d: int, events: seq<Event>)
    requires d > 0
    ensures forall s :: s in FreeStartsFrom(t, end, d, events) ==>
      t <= s < end && Free(events, s, s + d) && OnGrid(s, t, d)
    decreases end - t
  {
    if t < end {
      var rest := FreeStartsFrom(t + d, end, d, events);
      var h := if Free(events, t, t + d) then [t] else [];
      assert FreeStartsFrom(t, end, d, events) == h + rest;
      FreeStartsSound(t + d, end, d, events);
      forall s | s in h + rest
        ensures t <= s < end && Free(events, s, s + d) && OnGrid(s, t, d)
      {
        if s in h {
          assert s == t && Free(events, t, t + d);
          assert s == GridPoint(t, d, 0);
        } else {
          assert s in rest;
          var k: nat :| s == GridPoint(t + d, d, k);
          GridPointShift(t, d, k);
        }
      }
    }
  }

  /** The free starts are increasing by at least `d`, so the slots they begin never overlap one another. */
  lemma {:induction false} FreeStartsSpaced(t: int, end: int, d: int, events: seq<Event>)
    requires d > 0
    ensures forall i, j :: 0 <= i < j < |FreeStartsFrom(t, end, d, events)| ==>
      FreeStartsFrom(t, end, d, events)[i] + d <= FreeStartsFrom(t, end, d, events)[j]
    decreases end - t
  {
    if t < end {
      var r := FreeStartsFrom(t, end, d, events);
      var rest := FreeStartsFrom(t + d, end, d, events);
      var h := if Free(events, t, t + d) then [t] else [];
      assert r == h + rest;
      FreeStartsSound(t + d, end, d, events);
      FreeStartsSpaced(t + d, end, d, events);
      forall i, j | 0 <= i < j < |r| ensures r[i] + d <= r[j] {
        assert r[j] == rest[j - |h|] && r[j] in rest;
        if i >= |h| {
          assert r[i] == rest[i - |h|];
        }
      }
    }
  }

  /** A grid point is a free start exactly when it is below `end` and no busy entry overlaps its slot. */
  lemma {:induction false} FreeStartsComplete(t: int, end: int, d: int, events: seq<Event>, k: nat)
    requires d > 0
    ensures GridPoint(t, d, k) in FreeStartsFrom(t, end, d, events)
        <==> GridPoint(t, d, k) < end && Free(events, GridPoint(t, d, k), GridPoint(t, d, k) + d)
    decreases end - t
  {
    var g := GridPoint(t, d, k);
    assert t <= g;
    if t < end {
      var rest := FreeStartsFrom(t + d, end, d, events);
      var h := if Free(events, t, t + d) then [t] else [];
      assert FreeStartsFrom(t, end, d, events) == h + rest;
      assert g in h + rest <==> g in h || g in rest;
      if k == 0 {
        assert g == t;
        assert g !in rest by {
          FreeStartsSound(t + d, end, d, events);
        }
      } else {
        GridPointShift(t, d, k - 1);
        assert g !in h;
        FreeStartsComplete(t + d, end, d, events, k - 1);
      }
    }
  }

  /** There are never more free starts than candidates. */
  lemma {:induction false} FreeStartsCount(t: int, end: int, d: int, events: seq<Event>)
    requires d > 0
    ensures |FreeStartsFrom(t, end, d, events)| <= |Candidates(t, end, d)|
    decreases end - t
  {
    if t < end {
      FreeStartsCount(t + d, end, d, events);
    }
  }

  /** With no timed entry, every candidate is free. */
  lemma {:induction false} FreeStartsWithoutTimedEvents(t: int, end: int, d: int, events: seq<Event>)
    requires d > 0
    requires forall i :: 0 <= i < |events| ==> events[i].AllDay?
    ensures FreeStartsFrom(t, end, d, events) == Candidates(t, end, d)
    decreases end - t
  {
    if t < end {
      FreeStartsWithoutTimedEvents(t + d, end, d, events);
    }
  }

  /** All-day entries never change which starts are free. */
  lemma {:induction false} FreeStartsIgnoreAllDay(t: int, end: int, d: int, events: seq<Event>)
    requires d > 0
    ensures FreeStartsFrom(t, end, d, events) == FreeStartsFrom(t, end, d, TimedOnly(events))
    decreases end - t
  {
    if t < end {
      FreeStartsIgnoreAllDay(t + d, end, d, events);
      FreeIgnoresAllDay(events, t, t + d);
      var timed := TimedOnly(events);
      var h := if Free(events, t, t + d) then [t] else [];
      assert FreeStartsFrom(t, end, d, events) == h + FreeStartsFrom(t + d, end, d, events);
      assert FreeStartsFrom(t, end, d, timed) == h + FreeStartsFrom(t + d, end, d, timed);
    }
  }

  /** A timed entry that covers `[t, end)` leaves no free start. */
  lemma {:induction false} FreeStartsUnderCoveringEvent(t: int, end: int, d: int, events: seq<Event>, bs: int, be: int)
    requires d > 0
    requires Timed(bs, be) in events && bs <= t && end <= be
    ensures FreeStartsFrom(t, end, d, events) == []
    decreases end - t
  {
    if t < end {
      var i :| 0 <= i < |events| && events[i] == Timed(bs, be);
      assert Blocks(events[i], t, t + d);
      FreeStartsUnderCoveringEvent(t + d, end, d, events, bs, be);
    }
  }

  /** Timed entries that end at or before `t`, even exactly at `t`, block no candidate from `t` on. */
  lemma {:induction false} FreeStartsAfterEvents(t: int, end: int, d: int, events: seq<Event>)
    requires d > 0
    requires forall i :: 0 <= i < |events| && events[i].Timed? ==> events[i].end <= t
    ensures FreeStartsFrom(t, end, d, events) == Candidates(t, end, d)
    decreases end - t
  {
    if t < end {
      assert Free(events, t, t + d);
      FreeStartsAfterEvents(t + d, end, d, events);
    }
  }

  // ---------------------------------------------------------------------
  // The same facts, stated on what the manager returns for a day.
  // ---------------------------------------------------------------------

  /** A failed fetch yields no slot at all. */
  lemma FetchFailureYieldsNoSlots(day: int, d: int)
    requires d > 0
    ensures AvailableSlots(day, d, None) == []
  {
  }

  /** A day has at most ceil(720 / d) slots. */
  lemma SlotCountBound(day: int, d: int, fetched: Option<seq<Event>>)
    requires d > 0
    ensures |AvailableSlots(day, d, fetched)| <= CeilDiv(WindowMinutes, d)
  {
    if fetched.Some? {
      var starts := FreeStartsFrom(StartOfDay(day), EndOfDay(day), d, fetched.value);
      RenderAllAt(starts);
      FreeStartsCount(StartOfDay(day), EndOfDay(day), d, fetched.value);
      CandidatesCount(StartOfDay(day), EndOfDay(day), d);
    }
  }

  /** Within one day, the entry for an instant tells the instant apart from every other. */
  lemma SlotAtWithinDay(day: int, a: int, b: int)
    requires Midnight(day) <= a < Midnight(day) + MinutesPerDay
    requires Midnight(day) <= b < Midnight(day) + MinutesPerDay
    ensures MinuteOfDay(SlotAt(a).time) == a - Midnight(day)
    ensures SlotAt(a) == SlotAt(b) ==> a == b
  {
    LocalTimeOfDay(day, a - Midnight(day));
    LocalTimeOfDay(day, b - Midnight(day));
  }

  /** A free start of `day` is shown as its minute of the day, 08:00 plus a whole number of durations. */
  lemma FreeStartShown(day: int, d: int, events: seq<Event>, s: int)
    requires d > 0
    requires s in FreeStartsFrom(StartOfDay(day), EndOfDay(day), d, events)
    ensures MinuteOfDay(SlotAt(s).time) == s - Midnight(day)
    ensures OpenMinute <= s - Midnight(day) < CloseMinute && OnGrid(s - Midnight(day), OpenMinute, d)
  {
    FreeStartsSound(StartOfDay(day), EndOfDay(day), d, events);
    SlotAtWithinDay(day, s, s);
    var k: nat :| s == GridPoint(StartOfDay(day), d, k);
    assert s - Midnight(day) == GridPoint(OpenMinute, d, k);
  }

  /** Every returned slot starts at 08:00 plus a whole number of durations, before 20:00. */
  lemma SlotsOnGridInWindow(day: int, d: int, events: seq<Event>)
    requires d > 0
    ensures forall slot :: slot in AvailableSlots(day, d, Some(events)) ==>
      OpenMinute <= MinuteOfDay(slot.time) < CloseMinute && OnGrid(MinuteOfDay(slot.time), OpenMinute, d)
  {
    var starts := FreeStartsFrom(StartOfDay(day), EndOfDay(day), d, events);
    RenderAllAt(starts);
    forall slot | slot in AvailableSlots(day, d, Some(events))
      ensures OpenMinute <= MinuteOfDay(slot.time) < CloseMinute && OnGrid(MinuteOfDay(slot.time), OpenMinute, d)
    {
      var i :| 0 <= i < |starts| && slot == SlotAt(starts[i]);
      FreeStartShown(day, d, events, starts[i]);
    }
  }

  /** The slots come in chronological order, each at least one duration after the previous. */
  lemma SlotsChronological(day: int, d: int, events: seq<Event>)
    requires d > 0
    ensures forall i, j :: 0 <= i < j < |AvailableSlots(day, d, Some(events))| ==>
      MinuteOfDay(AvailableSlots(day, d, Some(events))[i].time) + d
        <= MinuteOfDay(AvailableSlots(day, d, Some(events))[j].time)
  {
    var starts := FreeStartsFrom(StartOfDay(day), EndOfDay(day), d, events);
    var r := AvailableSlots(day, d, Some(events));
    RenderAllAt(starts);
    FreeStartsSpaced(StartOfDay(day), EndOfDay(day), d, events);
    forall i | 0 <= i < |r| ensures MinuteOfDay(r[i].time) == starts[i] - Midnight(day) {
      FreeStartShown(day, d, events, starts[i]);
    }
  }

  /** Every returned slot's text is the "HH:MM" of its time, and reads back as that time. */
  lemma SlotTextsReadBack(day: int, d: int, fetched: Option<seq<Event>>)
    requires d > 0
    ensures forall slot :: slot in AvailableSlots(day, d, fetched) ==>
      slot.time.hour < HoursPerDay && slot.time.minute < MinutesPerHour
      && slot.display == Format(slot.time) && Parse(slot.display) == Some(slot.time)
  {
    if fetched.Some? {
      var starts := FreeStartsFrom(StartOfDay(day), EndOfDay(day), d, fetched.value);
      RenderAllAt(starts);
      forall slot | slot in AvailableSlots(day, d, fetched)
        ensures slot.time.hour < HoursPerDay && slot.time.minute < MinutesPerHour
        ensures slot.display == Format(slot.time) && Parse(slot.display) == Some(slot.time)
      {
        var i :| 0 <= i < |starts| && slot == SlotAt(starts[i]);
        SlotAtShows(starts[i]);
      }
    }
  }

  /**
   * A candidate slot inside the window is returned exactly when no timed
   * busy entry overlaps it.
   */
  lemma SlotReturnedIffFree(day: int, d: int, events: seq<Event>, k: nat)
    requires d > 0
    requires GridPoint(StartOfDay(day), d, k) < EndOfDay(day)
    ensures var s := GridPoint(StartOfDay(day), d, k);
      SlotAt(s) in AvailableSlots(day, d, Some(events)) <==> Free(events, s, s + d)
  {
    var start := StartOfDay(day);
    var s := GridPoint(start, d, k);
    var starts := FreeStartsFrom(start, EndOfDay(day), d, events);
    FreeStartsComplete(start, EndOfDay(day), d, events, k);
    FreeStartsSound(start, EndOfDay(day), d, events);
    RenderedWithinDay(day, starts, s);
  }

  /** For instants of one day, an entry is rendered exactly when its instant is among the starts. */
  lemma RenderedWithinDay(day: int, ts: seq<int>, s: int)
    requires forall x :: x in ts ==> Midnight(day) <= x < Midnight(day) + MinutesPerDay
    requires Midnight(day) <= s < Midnight(day) + MinutesPerDay
    ensures SlotAt(s) in RenderAll(ts) <==> s in ts
  {
    RenderAllAt(ts);
    if SlotAt(s) in RenderAll(ts) {
      var i :| 0 <= i < |ts| && RenderAll(ts)[i] == SlotAt(s);
      assert ts[i] in ts;
      SlotAtWithinDay(day, s, ts[i]);
    }
    if s in ts {
      var i :| 0 <= i < |ts| && ts[i] == s;
      assert RenderAll(ts)[i] == SlotAt(s);
    }
  }

  /** All-day entries never remove a slot. */
  lemma AllDayEntriesNeverBlock(day: int, d: int, events: seq<Event>)
    requires d > 0
    ensures AvailableSlots(day, d, Some(events)) == AvailableSlots(day, d, Some(TimedOnly(events)))
  {
    FreeStartsIgnoreAllDay(StartOfDay(day), EndOfDay(day), d, events);
  }

  /** With no timed entry, every candidate from 08:00 below 20:00 is returned: ceil(720 / d) slots. */
  lemma NoTimedEntriesGiveEveryCandidate(day: int, d: int, events: seq<Event>)
    requires d > 0
    requires forall i :: 0 <= i < |events| ==> events[i].AllDay?
    ensures AvailableSlots(day, d, Some(events)) == RenderAll(Candidates(StartOfDay(day), EndOfDay(day), d))
    ensures |AvailableSlots(day, d, Some(events))| == CeilDiv(WindowMinutes, d)
  {
    var c := Candidates(StartOfDay(day), EndOfDay(day), d);
    FreeStartsWithoutTimedEvents(StartOfDay(day), EndOfDay(day), d, events);
    CandidatesCount(StartOfDay(day), EndOfDay(day), d);
    RenderAllAt(c);
  }

  /** One timed entry covering 08:00-20:00 leaves nothing to book. */
  lemma CoveringEntryLeavesNothing(day: int, d: int, events: seq<Event>, bs: int, be: int)
    requires d > 0
    requires Timed(bs, be) in events && bs <= StartOfDay(day) && EndOfDay(day) <= be
    ensures AvailableSlots(day, d, Some(events)) == []
  {
    FreeStartsUnderCoveringEvent(StartOfDay(day), EndOfDay(day), d, events, bs, be);
  }

  // ---------------------------------------------------------------------
  // Worked days.
  // ---------------------------------------------------------------------

  /** Hourly candidates around a 09:00-10:00 booking: every hour from 08:00 to 19:00 except 09:00 is free. */
  lemma HourlyStartsAroundOneBooking(day: int)
    ensures var m := Midnight(day);
      var starts := FreeStartsFrom(StartOfDay(day), EndOfDay(day), DefaultDuration, [Timed(m + 9 * 60, m + 10 * 60)]);
      && |starts| == 11
      && starts[0] == m + 8 * 60
      && forall i :: 1 <= i < 11 ==> starts[i] == m + (9 + i) * 60
  {
    var m := Midnight(day);
    var e := EndOfDay(day);
    var events := [Timed(m + 9 * 60, m + 10 * 60)];
    var later := FreeStartsFrom(m + 600, e, 60, events);
    FreeStartsAfterEvents(m + 600, e, 60, events);
    CandidatesCount(m + 600, e, 60);
    CandidatesShape(m + 600, e, 60);
    assert |later| == 10;
    assert Blocks(events[0], m + 540, m + 600);
    assert FreeStartsFrom(m + 540, e, 60, events) == later;
    assert Free(events, m + 480, m + 540);
    assert FreeStartsFrom(m + 480, e, 60, events) == [m + 480] + later;
  }

  /** The slots after the booking on that day: one per hour from 10:00 through 19:00, in order. */
  lemma HourlySlotsAfterBooking(day: int)
    ensures var m := Midnight(day);
      var r := AvailableSlots(day, DefaultDuration, Some([Timed(m + 9 * 60, m + 10 * 60)]));
      && |r| == 11
      && r[0] == SlotAt(m + 8 * 60)
      && forall i :: 1 <= i < |r| ==>
           r[i].time == TimeOfDay(9 + i, 0) && r[i].display == Format(TimeOfDay(9 + i, 0))
  {
    var m := Midnight(day);
    var starts := FreeStartsFrom(StartOfDay(day), EndOfDay(day), DefaultDuration, [Timed(m + 9 * 60, m + 10 * 60)]);
    HourlyStartsAroundOneBooking(day);
    RenderAllAt(starts);
    forall i | 1 <= i < 11
      ensures SlotAt(starts[i]).time == TimeOfDay(9 + i, 0)
      ensures SlotAt(starts[i]).display == Format(TimeOfDay(9 + i, 0))
    {
      assert starts[i] == m + MinuteOfDay(TimeOfDay(9 + i, 0));
      ShownAt(day, 9 + i, 0);
    }
  }

  /**
   * The same day as the manager reports it: "08:00", then every hour from
   * "10:00" through "19:00"; the 09:00 slot is not among them.
   */
  lemma HourlyDayWithOneBooking(day: int)
    ensures var m := Midnight(day);
      var r := AvailableSlots(day, DefaultDuration, Some([Timed(m + 9 * 60, m + 10 * 60)]));
      && |r| == 11
      && r[0] == Slot(TimeOfDay(8, 0), "08:00")
      && r[1].display == "10:00" && r[10].display == "19:00"
      && (forall i :: 1 <= i < |r| ==>
            r[i].time == TimeOfDay(9 + i, 0) && r[i].display == Format(TimeOfDay(9 + i, 0)))
      && SlotAt(m + 9 * 60) !in r
  {
    var m := Midnight(day);
    var starts := FreeStartsFrom(StartOfDay(day), EndOfDay(day), DefaultDuration, [Timed(m + 9 * 60, m + 10 * 60)]);
    HourlySlotsAfterBooking(day);
    ShownAt(day, 8, 0);
    assert Format(TimeOfDay(8, 0)) == "08:00";
    assert Format(TimeOfDay(10, 0)) == "10:00";
    assert Format(TimeOfDay(19, 0)) == "19:00";
    BookedHourNotOffered(day);
  }

  /** The booked 09:00 slot is not among the pairs of that day. */
  lemma BookedHourNotOffered(day: int)
    ensures var m := Midnight(day);
      SlotAt(m + 9 * 60) !in AvailableSlots(day, DefaultDuration, Some([Timed(m + 9 * 60, m + 10 * 60)]))
  {
    var m := Midnight(day);
    var starts := FreeStartsFrom(StartOfDay(day), EndOfDay(day), DefaultDuration, [Timed(m + 9 * 60, m + 10 * 60)]);
    HourlyStartsAroundOneBooking(day);
    RenderedWithinDay(day, starts, m + 9 * 60);
  }

  /** The entry for `hh:mm` on `day` shows that time. */
  lemma ShownAt(day: int, hh: nat, mm: nat)
    requires hh < HoursPerDay && mm < MinutesPerHour
    ensures SlotAt(Midnight(day) + MinuteOfDay(TimeOfDay(hh, mm))).time == TimeOfDay(hh, mm)
    ensures SlotAt(Midnight(day) + MinuteOfDay(TimeOfDay(hh, mm))).display == Format(TimeOfDay(hh, mm))
  {
    var t := Midnight(day) + MinuteOfDay(TimeOfDay(hh, mm));
    SlotAtWithinDay(day, t, t);
    assert LocalTime(t) == TimeOfDay(hh, mm);
  }

  /**
   * With 50-minute slots the loop still starts a slot at 19:40, which ends
   * at 20:30, after the window closes.
   */
  lemma LastSlotMayRunPastClosing(day: int)
    ensures var r := FreeStartsFrom(StartOfDay(day), EndOfDay(day), 50, []);
      |r| == 15 && r[14] == Midnight(day) + 19 * 60 + 40 && r[14] + 50 > EndOfDay(day)
  {
    FreeStartsWithoutTimedEvents(StartOfDay(day), EndOfDay(day), 50, []);
    CandidatesCount(StartOfDay(day), EndOfDay(day), 50);
    CandidatesShape(StartOfDay(day), EndOfDay(day), 50);
  }
}
