/**
 * Busy calendar entries and the half-open overlap test that decides
 * whether one of them blocks a candidate slot.
 */
module Busy {

  /**
   * An entry of the calendar's event list. A timed entry carries a start
   * and an end instant; an all-day entry has no `dateTime` under `start`.
   */
  datatype Event = Timed(start: int, end: int) | AllDay

  function Max(a: int, b: int): (m: int)
    ensures m >= a && m >= b && (m == a || m == b)
  {
    if a < b then b else a
  }

  function Min(a: int, b: int): (m: int)
    ensures m <= a && m <= b && (m == a || m == b)
  {
    if a < b then a else b
  }

  /**
   * Whether `[s, e)` and `[bs, be)` share an instant: the later start comes
   * before the earlier end. Touching ends do not overlap.
   */
  predicate Overlaps(s: int, e: int, bs: int, be: int)
    ensures Overlaps(s, e, bs, be) <==> s < e && bs < be && s < be && bs < e
  {
    Max(s, bs) < Min(e, be)
  }

  /** Whether `ev` makes the slot `[s, e)` unavailable; all-day entries never do. */
  predicate Blocks(ev: Event, s: int, e: int)
  {
    match ev
    case Timed(bs, be) => Overlaps(s, e, bs, be)
    case AllDay => false
  }

  /** No entry of `events` blocks `[s, e)`. */
  predicate Free(events: seq<Event>, s: int, e: int)
  {
    forall i :: 0 <= i < |events| ==> !Blocks(events[i], s, e)
  }

  /** The timed entries of `events`, in order. */
  function TimedOnly(events: seq<Event>): (r: seq<Event>)
    ensures forall i :: 0 <= i < |r| ==> r[i].Timed? && r[i] in events
    ensures forall ev :: ev in events && ev.Timed? ==> ev in r
  {
    if events == [] then []
    else if events[0].Timed? then [events[0]] + TimedOnly(events[1..])
    else TimedOnly(events[1..])
  }

  /** Dropping the all-day entries never changes whether a slot is free. */
  lemma FreeIgnoresAllDay(events: seq<Event>, s: int, e: int)
    ensures Free(events, s, e) <==> Free(TimedOnly(events), s, e)
  {
    var timed := TimedOnly(events);
    if Free(events, s, e) {
      forall i | 0 <= i < |timed| ensures !Blocks(timed[i], s, e) {
        var j :| 0 <= j < |events| && events[j] == timed[i];
      }
    }
    if Free(timed, s, e) {
      forall i | 0 <= i < |events| ensures !Blocks(events[i], s, e) {
        if events[i].Timed? {
          var j :| 0 <= j < |timed| && timed[j] == events[i];
        }
      }
    }
  }
}
