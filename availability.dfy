/**
 * The free-slot computation of the calendar manager: candidate slots of a
 * fixed duration are laid out from 08:00 while their start is before 20:00,
 * every candidate that overlaps a timed busy entry is dropped, and the
 * survivors are rendered as (time of day, "HH:MM") pairs in order.
 */
module Availability {
  import opened Wrappers
  import opened Clock
  import opened Busy

  /** Opening and closing of the working window, as minutes after midnight. */
  const OpenMinute := 480    // 08:00
  const CloseMinute := 1200  // 20:00
  const WindowMinutes := 720

  /** The slot length used when the caller names none. */
  const DefaultDuration := 60

  function StartOfDay(day: int): int
  {
    Midnight(day) + OpenMinute
  }

  function EndOfDay(day: int): int
  {
    Midnight(day) + CloseMinute
  }

  /** The `k`-th candidate start when stepping from `t` by `d`. */
  function GridPoint(t: int, d: int, k: nat): int
  {
    t + k * d
  }

  /** Number of candidates stepped from `t` by `d` while below `end`: the ceiling of `(end - t) / d`. */
  function CeilDiv(n: int, d: int): int
    requires d > 0
  {
    (n + d - 1) / d
  }

  /** Every candidate start `t, t + d, t + 2d, ...` that is below `end`, whether free or not. */
  function Candidates(t: int, end: int, d: int): seq<int>
    requires d > 0
    decreases end - t
  {
    if t < end then [t] + Candidates(t + d, end, d) else []
  }

  /**
   * The candidate starts from `t` on that no entry of `events` blocks; one
   * recursive step per iteration of the scanning loop.
   */
  function FreeStartsFrom(t: int, end: int, d: int, events: seq<Event>): seq<int>
    requires d > 0
    decreases end - t
  {
    if t < end then
      (if Free(events, t, t + d) then [t] else []) + FreeStartsFrom(t + d, end, d, events)
    else []
  }

  /** One returned entry: the slot's local start time and its "HH:MM" label. */
  datatype Slot = Slot(time: TimeOfDay, display: string)

  /** The entry reported for a slot starting at instant `t`. */
  function SlotAt(t: int): Slot
  {
    var tod := LocalTime(t);
    Slot(tod, Format(tod))
  }

  /** The entry for `t` shows `t`'s clock time, and its text reads back as that time. */
  lemma SlotAtShows(t: int)
    ensures MinuteOfDay(SlotAt(t).time) == t % MinutesPerDay
    ensures Parse(SlotAt(t).display) == Some(SlotAt(t).time)
  {
    ParseFormat(LocalTime(t));
  }

  /** The entries for the starts `ts`, in the same order. */
  function RenderAll(ts: seq<int>): seq<Slot>
  {
    if ts == [] then [] else RenderAll(ts[..|ts| - 1]) + [SlotAt(ts[|ts| - 1])]
  }

  /** Rendering keeps the number and the order of the slots. */
  lemma {:induction false} RenderAllAt(ts: seq<int>)
    ensures |RenderAll(ts)| == |ts|
    ensures forall i :: 0 <= i < |ts| ==> RenderAll(ts)[i] == SlotAt(ts[i])
  {
    if ts != [] {
      var prefix := ts[..|ts| - 1];
      RenderAllAt(prefix);
      assert RenderAll(ts) == RenderAll(prefix) + [SlotAt(ts[|ts| - 1])];
      forall i | 0 <= i < |prefix| ensures RenderAll(ts)[i] == SlotAt(ts[i]) {
        assert ts[i] == prefix[i];
      }
    }
  }

  lemma RenderAllSnoc(ts: seq<int>, t: int)
    ensures RenderAll(ts + [t]) == RenderAll(ts) + [SlotAt(t)]
  {
    assert (ts + [t])[..|ts|] == ts;
  }

  /**
   * What the manager returns for `day` and slot length `d`, given the
   * outcome of fetching the day's events (None when the fetch raised).
   */
  function AvailableSlots(day: int, d: int, fetched: Option<seq<Event>>): seq<Slot>
    requires d > 0
  {
    match fetched
    case None => []
    case Some(events) => RenderAll(FreeStartsFrom(StartOfDay(day), EndOfDay(day), d, events))
  }

  /** One iteration of the scanning loop keeps the starts found so far a prefix of the day's free starts. */
  lemma FreeStartsStep(starts: seq<int>, t: int, end: int, d: int, events: seq<Event>)
    requires t < end && d > 0
    ensures (if Free(events, t, t + d) then starts + [t] else starts) + FreeStartsFrom(t + d, end, d, events)
         == starts + FreeStartsFrom(t, end, d, events)
  {
    var later := FreeStartsFrom(t + d, end, d, events);
    if Free(events, t, t + d) {
      assert FreeStartsFrom(t, end, d, events) == [t] + later;
      assert (starts + [t]) + later == starts + ([t] + later);
    } else {
      assert FreeStartsFrom(t, end, d, events) == later;
    }
  }

  /**
   * The scanning loop: walk the candidate starts, test each against every
   * busy entry (skipping all-day ones, stopping at the first overlap) and
   * append the free ones.
   */
  method GetAvailableSlots(day: int, fetched: Option<seq<Event>>, duration: int := DefaultDuration)
    returns (slots: seq<Slot>)
    requires duration > 0
    ensures slots == AvailableSlots(day, duration, fetched)
  {
    var startOfDay := StartOfDay(day);
    var endOfDay := EndOfDay(day);
    if fetched.None? {
      return [];
    }
    var busy := fetched.value;

    slots := [];
    var current := startOfDay;
    ghost var starts: seq<int> := [];
    while current < endOfDay
      invariant starts + FreeStartsFrom(current, endOfDay, duration, busy)
             == FreeStartsFrom(startOfDay, endOfDay, duration, busy)
      invariant slots == RenderAll(starts)
      decreases endOfDay - current
    {
      var isAvailable := true;
      var slotEnd := current + duration;
      var j := 0;
      while j < |busy|
        invariant 0 <= j <= |busy|
        invariant isAvailable
        invariant forall i :: 0 <= i < j ==> !Blocks(busy[i], current, slotEnd)
      {
        var event := busy[j];
        if event.AllDay? {
          j := j + 1;
          continue;
        }
        if Max(current, event.start) < Min(slotEnd, event.end) {
          isAvailable := false;
          break;
        }
        j := j + 1;
      }
      assert isAvailable <==> Free(busy, current, slotEnd);
      FreeStartsStep(starts, current, endOfDay, duration, busy);

      if isAvailable {
        RenderAllSnoc(starts, current);
        slots := slots + [SlotAt(current)];
        starts := starts + [current];
      }
      current := slotEnd;
    }
    assert starts + FreeStartsFrom(current, endOfDay, duration, busy) == starts;
  }
}
