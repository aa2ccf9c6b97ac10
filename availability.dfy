/** The slot classifier of `showSlots` in script.js: the list of taken minute
    marks built from the stored bookings of one date and room, and the nine
    catalog slots classified as taken, past or selectable. The wall clock enters
    as `isToday`, `nowH` and `nowM`. */
module Availability {
  import opened Wrappers
  import opened TimeText
  import opened Records

  /** The fixed catalog of slot start times. */
  const SlotTimes: seq<string> :=
    ["09:00", "10:00", "11:00", "12:00", "13:00", "14:00", "15:00", "16:00", "17:00"]

  /** Start of catalog slot `i` in minutes since midnight. */
  function SlotMinutes(i: int): int { 540 + 60 * i }

  /** The booking is for this date and room. */
  predicate Concerns(b: Booking, date: string, room: string)
  {
    b.date == date && b.room == room
  }

  /** Start and end minute of a booking; None when either time does not parse,
      where the source's stepping loop compares with NaN and runs no step. */
  function Span(b: Booking): (r: Option<(int, int)>)
    ensures r.Some? <==> ParseTime(b.time).Some? && ParseTime(b.endTime).Some?
    ensures r.Some? ==> 0 <= r.value.0 && 0 <= r.value.1
    ensures r.Some? ==> r.value.0 == MinutesOf(ParseTime(b.time).value)
    ensures r.Some? ==> r.value.1 == MinutesOf(ParseTime(b.endTime).value)
  {
    match (ParseTime(b.time), ParseTime(b.endTime))
    case (Some(s), Some(e)) => Some((MinutesOf(s), MinutesOf(e)))
    case _ => None
  }

  /** A span's start and end minute, written back as `HH:MM`, are the booking's
      own time and end time whenever their minute fields are below 60. */
  lemma SpanReadsBack(b: Booking)
    ensures Span(b).Some? && ParseTime(b.time).value.minute < 60 ==>
      FormatClock(Span(b).value.0 / 60, Span(b).value.0 % 60) == b.time
    ensures Span(b).Some? && ParseTime(b.endTime).value.minute < 60 ==>
      FormatClock(Span(b).value.1 / 60, Span(b).value.1 % 60) == b.endTime
  {
    if Span(b).Some? {
      ParseThenFormat(b.time);
      ParseThenFormat(b.endTime);
      ClockMinutesSplit(ParseTime(b.time).value);
      ClockMinutesSplit(ParseTime(b.endTime).value);
    }
  }

  /** The marks `t = start, start + 60, ...` while `t < end`. */
  function Steps(t: int, end: int): seq<int>
    decreases end - t
  {
    if t < end then [t] + Steps(t + 60, end) else []
  }

  /** The marks one booking contributes. */
  function BookingMarks(b: Booking): seq<int>
  {
    match Span(b)
    case Some((s, e)) => Steps(s, e)
    case None => []
  }

  /** The `taken` array after the bookings of `bs` have been scanned in order. */
  function TakenMarks(bs: seq<Booking>, date: string, room: string): seq<int>
  {
    if bs == [] then []
    else
      var last := bs[|bs| - 1];
      TakenMarks(bs[..|bs| - 1], date, room) + (if Concerns(last, date, room) then BookingMarks(last) else [])
  }

  /** Independent statement of when a booking occupies minute `mins`: its start is
      at or before it, its end after it, and it lies a whole number of hours after
      the start. */
  ghost predicate Covers(b: Booking, mins: int)
  {
    Span(b).Some? && Span(b).value.0 <= mins < Span(b).value.1 && (mins - Span(b).value.0) % 60 == 0
  }

  /** Some booking of this date and room covers minute `mins`. */
  ghost predicate SlotTaken(bs: seq<Booking>, date: string, room: string, mins: int)
  {
    exists i :: 0 <= i < |bs| && Concerns(bs[i], date, room) && Covers(bs[i], mins)
  }

  /** `pastTime`: on today's date, a slot whose hour is before the current hour,
      or equal to it with minute at or before the current minute. */
  predicate IsPast(isToday: bool, nowH: int, nowM: int, c: Clock)
    ensures !isToday ==> !IsPast(isToday, nowH, nowM, c)
  {
    isToday && (c.hour < nowH || (c.hour == nowH && c.minute <= nowM))
  }

  /** One rendered slot. */
  datatype SlotView = SlotView(time: string, taken: bool, past: bool)
  {
    /** Clickable: neither taken nor past. */
    predicate Selectable() { !taken && !past }
  }

  /** Builds `taken` as the source does: a scan of all bookings with an inner
      stepping loop for each booking of this date and room. */
  method CollectTaken(bs: seq<Booking>, date: string, room: string) returns (taken: seq<int>)
    ensures taken == TakenMarks(bs, date, room)
  {
    taken := [];
    var i := 0;
    while i < |bs|
      invariant 0 <= i <= |bs|
      invariant taken == TakenMarks(bs[..i], date, room)
    {
      var b := bs[i];
      assert bs[..i + 1][..i] == bs[..i];
      if b.date == date && b.room == room {
        match Span(b)
        case Some((startMin, endMin)) =>
          var t := startMin;
          while t < endMin
            invariant taken + Steps(t, endMin) == TakenMarks(bs[..i], date, room) + Steps(startMin, endMin)
            decreases endMin - t
          {
            taken := taken + [t];
            t := t + 60;
          }
        case None =>
      }
      i := i + 1;
    }
    assert bs[..i] == bs;
  }

  /** `showSlots`: each catalog slot with its taken and past flags, and whether the
      "no free slots" note is shown. */
  method ShowSlots(bs: seq<Booking>, date: string, room: string, isToday: bool, nowH: int, nowM: int)
    returns (view: seq<SlotView>, noFreeSlots: bool)
    ensures |view| == |SlotTimes|
    ensures forall i :: 0 <= i < |view| ==>
      view[i].time == SlotTimes[i]
      && (view[i].taken <==> SlotTaken(bs, date, room, SlotMinutes(i)))
      && (view[i].past <==> IsPast(isToday, nowH, nowM, Clock(9 + i, 0)))
    ensures noFreeSlots <==> forall i :: 0 <= i < |view| ==> !view[i].Selectable()
  {
    var taken := CollectTaken(bs, date, room);
    view := [];
    var anyFree := false;
    for i := 0 to |SlotTimes|
      invariant |view| == i
      invariant forall k :: 0 <= k < i ==>
        view[k].time == SlotTimes[k]
        && (view[k].taken <==> SlotTaken(bs, date, room, SlotMinutes(k)))
        && (view[k].past <==> IsPast(isToday, nowH, nowM, Clock(9 + k, 0)))
      invariant anyFree <==> exists k :: 0 <= k < i && view[k].Selectable()
    {
      var time := SlotTimes[i];
      SlotCatalog(i);
      match ParseTime(time)
      case Some(c) =>
        var mins := MinutesOf(c);
        var pastTime := isToday && (c.hour < nowH || (c.hour == nowH && c.minute <= nowM));
        TakenIff(bs, date, room, mins);
        var slot := SlotView(time, mins in taken, pastTime);
        view := view + [slot];
        anyFree := anyFree || slot.Selectable();
      case None =>
        assert false;
    }
    noFreeSlots := !anyFree;
  }

  // ---------------------------------------------------------------------------
  // Properties

  /** Each catalog text reads as hour 9 + i, minute 0. */
  lemma SlotCatalog(i: int)
    requires 0 <= i < |SlotTimes|
    ensures ParseTime(SlotTimes[i]) == Some(Clock(9 + i, 0))
    ensures MinutesOf(Clock(9 + i, 0)) == SlotMinutes(i)
  {
    var s := SlotTimes[i];
    assert s[..2] == [s[0], s[1]] && s[3..] == [s[3], s[4]];
  }

  /** The marks of one stepping loop are exactly the whole-hour offsets from its
      start that lie before its end. */
  lemma {:induction false} StepsMembership(t: int, end: int, x: int)
    ensures x in Steps(t, end) <==> t <= x < end && (x - t) % 60 == 0
    decreases end - t
  {
    if t < end {
      StepsMembership(t + 60, end, x);
      assert (x - t) % 60 == 0 <==> (x - (t + 60)) % 60 == 0;
    }
  }

  /** The k-th mark of a stepping loop is k hours after its start, and there are as
      many marks as whole or part hours fit between start and end. */
  lemma {:induction false} StepsClosedForm(t: int, end: int)
    ensures |Steps(t, end)| == if t < end then (end - t + 59) / 60 else 0
    ensures forall k :: 0 <= k < |Steps(t, end)| ==> Steps(t, end)[k] == t + 60 * k
    decreases end - t
  {
    if t < end {
      StepsClosedForm(t + 60, end);
      var rest := Steps(t + 60, end);
      assert Steps(t, end) == [t] + rest;
      forall k | 1 <= k < |Steps(t, end)|
        ensures Steps(t, end)[k] == t + 60 * k
      {
        assert Steps(t, end)[k] == rest[k - 1];
      }
    }
  }

  /** The marks of a concatenation are the marks of the parts, in order. */
  lemma {:induction false} TakenMarksAppend(a: seq<Booking>, b: seq<Booking>, date: string, room: string)
    ensures TakenMarks(a + b, date, room) == TakenMarks(a, date, room) + TakenMarks(b, date, room)
    decreases |b|
  {
    if b != [] {
      var ab := a + b;
      assert ab[..|ab| - 1] == a + b[..|b| - 1];
      assert ab[|ab| - 1] == b[|b| - 1];
      TakenMarksAppend(a, b[..|b| - 1], date, room);
    } else {
      assert a + b == a;
    }
  }

  /** A minute mark is in `taken` exactly when some booking of this date and room
      covers it. */
  lemma {:induction false} TakenIff(bs: seq<Booking>, date: string, room: string, mins: int)
    ensures mins in TakenMarks(bs, date, room) <==> SlotTaken(bs, date, room, mins)
    decreases |bs|
  {
    if bs != [] {
      var init, last := bs[..|bs| - 1], bs[|bs| - 1];
      TakenIff(init, date, room, mins);
      assert mins in BookingMarks(last) <==> Covers(last, mins) by {
        match Span(last)
        case Some((s, e)) => StepsMembership(s, e, mins);
        case None =>
      }
      assert SlotTaken(bs, date, room, mins) ==>
        SlotTaken(init, date, room, mins) || (Concerns(last, date, room) && Covers(last, mins)) by {
        if SlotTaken(bs, date, room, mins) {
          var i :| 0 <= i < |bs| && Concerns(bs[i], date, room) && Covers(bs[i], mins);
          if i < |bs| - 1 { assert init[i] == bs[i]; }
        }
      }
      assert SlotTaken(init, date, room, mins) ==> SlotTaken(bs, date, room, mins) by {
        if SlotTaken(init, date, room, mins) {
          var i :| 0 <= i < |init| && Concerns(init[i], date, room) && Covers(init[i], mins);
          assert bs[i] == init[i];
        }
      }
      assert Concerns(last, date, room) && Covers(last, mins) ==> SlotTaken(bs, date, room, mins) by {
        if Concerns(last, date, room) && Covers(last, mins) {
          assert Concerns(bs[|bs| - 1], date, room) && Covers(bs[|bs| - 1], mins);
        }
      }
    }
  }

  /** A booking for another date or room, wherever it sits in the store, changes
      nothing in `taken`. */
  lemma OtherBookingIrrelevant(before: seq<Booking>, b: Booking, after: seq<Booking>, date: string, room: string)
    requires !Concerns(b, date, room)
    ensures TakenMarks(before + [b] + after, date, room) == TakenMarks(before + after, date, room)
  {
    TakenMarksAppend(before + [b], after, date, room);
    TakenMarksAppend(before, after, date, room);
    assert (before + [b])[..|before + [b]| - 1] == before;
  }

  /** A booking that ends at or before it starts (one that wraps past midnight)
      marks nothing. */
  lemma WrappingBookingMarksNothing(b: Booking)
    ensures Span(b).Some? && Span(b).value.1 <= Span(b).value.0 ==>
      BookingMarks(b) == [] && forall mins :: !Covers(b, mins)
  {
  }

  /** A booking from 10:00 to 12:00 takes the 10:00 and 11:00 slots and leaves
      9:00 and 12:00 free; one from 10:00 to 10:30 still takes the 10:00 slot. */
  lemma CoverageExamples(b: Booking, c: Booking)
    requires b.time == "10:00" && b.endTime == "12:00"
    requires c.time == "10:00" && c.endTime == "10:30"
    ensures Covers(b, SlotMinutes(1)) && Covers(b, SlotMinutes(2))
    ensures !Covers(b, SlotMinutes(0)) && !Covers(b, SlotMinutes(3))
    ensures Covers(c, SlotMinutes(1))
  {
    assert ParseTime("10:00") == Some(Clock(10, 0));
    assert ParseTime("12:00") == Some(Clock(12, 0));
    assert ParseTime("10:30") == Some(Clock(10, 30));
  }

  /** On a day other than today no slot is past; on today a slot is past exactly
      when it starts at or before the current time of day. */
  lemma PastIff(isToday: bool, nowH: int, nowM: int, c: Clock)
    requires 0 <= c.minute < 60 && 0 <= nowM < 60
    ensures !isToday ==> !IsPast(isToday, nowH, nowM, c)
    ensures isToday ==> (IsPast(isToday, nowH, nowM, c) <==> MinutesOf(c) <= nowH * 60 + nowM)
  {
    if isToday && MinutesOf(c) <= nowH * 60 + nowM {
      assert c.hour * 60 < nowH * 60 + 60;
      assert c.hour <= nowH;
    }
    if isToday && c.hour < nowH {
      assert c.hour * 60 <= nowH * 60 - 60;
    }
  }
}
