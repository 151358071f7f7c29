/** The slot engine of apps/api/src/utils/slots.ts: `generateSlots` walks
    each availability window of the date's weekday in steps of the service
    duration and keeps the candidates no appointment overlaps;
    `validateSlotAvailability` re-checks one start/end pair against the
    first window of that weekday and the appointments. */
module Slots {
  import opened Wrappers
  import opened Strings
  import opened Time
  import Calendar

  /** A weekly window: `dayOfWeek` 0 = Sunday, times `HH:MM`. */
  datatype Availability = Availability(dayOfWeek: int, startTime: string, endTime: string)

  /** What the engine reads of an appointment: its start and end time. */
  datatype Interval = Interval(startTime: string, endTime: string)

  /** What the engine reads of a service. */
  datatype ServiceRef = ServiceRef(id: string, durationMinutes: int)

  datatype Slot = Slot(slotId: string, startTime: string, endTime: string)

  /** A stored window: both times are `HH:MM` (the availability schema guarantees it). */
  predicate WellFormed(w: Availability) {
    IsValidTime(w.startTime) && IsValidTime(w.endTime)
  }

  predicate AllWellFormed(ws: seq<Availability>) {
    forall i :: 0 <= i < |ws| ==> WellFormed(ws[i])
  }

  /** The overlap test of slots.ts, on strings:
      `startTime < appt.endTime && endTime > appt.startTime`. */
  predicate Overlaps(startTime: string, endTime: string, appt: Interval) {
    StrLess(startTime, appt.endTime) && StrLess(appt.startTime, endTime)
  }

  /** `appointments.some(appt => overlap)` */
  predicate IsBooked(startTime: string, endTime: string, appts: seq<Interval>) {
    exists i :: 0 <= i < |appts| && Overlaps(startTime, endTime, appts[i])
  }

  /** `${service.id}_${date}_${startTime}` */
  function SlotId(serviceId: string, date: string, startTime: string): string {
    serviceId + "_" + date + "_" + startTime
  }

  /** `a.dayOfWeek === dayOfWeek`, where an unparsable date's NaN equals nothing. */
  predicate OnDay(w: Availability, day: Option<int>) {
    day.Some? && w.dayOfWeek == day.value
  }

  /** `availabilities.filter(a => a.dayOfWeek === dayOfWeek)` */
  function Relevant(ws: seq<Availability>, day: Option<int>): (r: seq<Availability>)
    ensures forall k :: 0 <= k < |r| ==> OnDay(r[k], day)
    ensures AllWellFormed(ws) ==> AllWellFormed(r)
  {
    if |ws| == 0 then []
    else (if OnDay(ws[0], day) then [ws[0]] else []) + Relevant(ws[1..], day)
  }

  /** The filter keeps every window of the day. */
  lemma {:induction false} RelevantKeeps(ws: seq<Availability>, day: Option<int>)
    ensures forall w | w in ws && OnDay(w, day) :: w in Relevant(ws, day)
  {
    if |ws| > 0 {
      RelevantKeeps(ws[1..], day);
      RelevantCons(ws[0], ws[1..], day);
      assert ws == [ws[0]] + ws[1..];
    }
  }

  /** The filter keeps nothing but windows of the list. */
  lemma {:induction false} RelevantSubset(ws: seq<Availability>, day: Option<int>)
    ensures forall w | w in Relevant(ws, day) :: w in ws
  {
    if |ws| > 0 {
      RelevantSubset(ws[1..], day);
      RelevantCons(ws[0], ws[1..], day);
      assert ws == [ws[0]] + ws[1..];
    }
  }

  /** The windows the filter keeps are exactly those of the list on the day. */
  lemma RelevantMembers(ws: seq<Availability>, day: Option<int>, w: Availability)
    ensures w in Relevant(ws, day) <==> w in ws && OnDay(w, day)
  {
    RelevantKeeps(ws, day);
    RelevantSubset(ws, day);
    var r := Relevant(ws, day);
    if w in r {
      var k :| 0 <= k < |r| && r[k] == w;
    }
  }

  /** The filter decides on the first window, then goes on with the rest. */
  lemma RelevantCons(w: Availability, rest: seq<Availability>, day: Option<int>)
    ensures Relevant([w] + rest, day) == (if OnDay(w, day) then [w] else []) + Relevant(rest, day)
  {
    assert ([w] + rest)[1..] == rest;
  }

  /** The candidate that starts at minute m of the day. */
  function Candidate(svc: ServiceRef, date: string, m: nat): Slot
    requires svc.durationMinutes > 0 && m + svc.durationMinutes < MinutesPerDay
  {
    var startTime := FormatTime(m);
    Slot(SlotId(svc.id, date, startTime), startTime, FormatTime(m + svc.durationMinutes))
  }

  /** A candidate has valid times, lasts the duration and is named after its start. */
  lemma CandidateFacts(svc: ServiceRef, date: string, m: nat)
    requires svc.durationMinutes > 0 && m + svc.durationMinutes < MinutesPerDay
    ensures var c := Candidate(svc, date, m);
      && IsValidTime(c.startTime) && IsValidTime(c.endTime)
      && ToMinutes(c.startTime) == m
      && ToMinutes(c.endTime) == m + svc.durationMinutes
      && c.slotId == SlotId(svc.id, date, c.startTime)
  {
    var c := Candidate(svc, date, m);
    assert c.startTime == FormatTime(m) && c.endTime == FormatTime(m + svc.durationMinutes);
    FormatTimeValid(m);
    FormatTimeValid(m + svc.durationMinutes);
  }

  /** The slots the inner loop emits from minute `cur` while
      `cur + duration <= endMinutes`. */
  function WindowSlots(svc: ServiceRef, date: string, cur: nat, endMinutes: nat, appts: seq<Interval>): seq<Slot>
    requires svc.durationMinutes > 0 && endMinutes < MinutesPerDay
    decreases endMinutes - cur
  {
    if cur + svc.durationMinutes > endMinutes then []
    else
      var slot := Candidate(svc, date, cur);
      (if IsBooked(slot.startTime, slot.endTime, appts) then [] else [slot])
        + WindowSlots(svc, date, cur + svc.durationMinutes, endMinutes, appts)
  }

  /** The slots one window contributes. */
  function SlotsOfWindow(svc: ServiceRef, date: string, w: Availability, appts: seq<Interval>): seq<Slot>
    requires svc.durationMinutes > 0 && WellFormed(w)
  {
    WindowSlots(svc, date, ToMinutes(w.startTime), ToMinutes(w.endTime), appts)
  }

  /** The slots of a list of windows, window after window. */
  function SlotsOf(svc: ServiceRef, date: string, ws: seq<Availability>, appts: seq<Interval>): seq<Slot>
    requires svc.durationMinutes > 0 && AllWellFormed(ws)
  {
    if |ws| == 0 then []
    else SlotsOf(svc, date, ws[..|ws| - 1], appts) + SlotsOfWindow(svc, date, ws[|ws| - 1], appts)
  }

  /** What `generateSlots(service, date, availabilities, appointments)` returns. */
  function GeneratedSlots(svc: ServiceRef, date: string, ws: seq<Availability>, appts: seq<Interval>): seq<Slot>
    requires svc.durationMinutes > 0 && AllWellFormed(ws)
  {
    SlotsOf(svc, date, Relevant(ws, Calendar.DayOfWeek(date)), appts)
  }

  /** `generateSlots`: the outer loop over the windows of the weekday; the
      inner loop over one window is `PushWindowSlots`. */
  method GenerateSlots(svc: ServiceRef, date: string, availabilities: seq<Availability>, appointments: seq<Interval>)
    returns (slots: seq<Slot>)
    requires svc.durationMinutes > 0
    requires AllWellFormed(availabilities)
    ensures slots == GeneratedSlots(svc, date, availabilities, appointments)
  {
    slots := [];
    var dayOfWeek := Calendar.DayOfWeek(date);
    var relevantAvailabilities := Relevant(availabilities, dayOfWeek);
    for i := 0 to |relevantAvailabilities|
      invariant slots == SlotsOf(svc, date, relevantAvailabilities[..i], appointments)
    {
      slots := PushWindowSlots(svc, date, relevantAvailabilities[i], appointments, slots);
      SlotsOfSnoc(svc, date, relevantAvailabilities, i, appointments);
    }
    assert relevantAvailabilities[..|relevantAvailabilities|] == relevantAvailabilities;
  }

  /** The inner loop of `generateSlots` over one window: step
      `currentMinutes` by the duration from the window's start while the
      candidate still ends by the window's end, and push each candidate no
      appointment overlaps. A zero duration would never leave the loop,
      hence the requirement of a positive one. */
  method PushWindowSlots(svc: ServiceRef, date: string, avail: Availability, appointments: seq<Interval>, slots0: seq<Slot>)
    returns (slots: seq<Slot>)
    requires svc.durationMinutes > 0 && WellFormed(avail)
    ensures slots == slots0 + SlotsOfWindow(svc, date, avail, appointments)
  {
    slots := slots0;
    var currentMinutes := ToMinutes(avail.startTime);
    var endMinutes := ToMinutes(avail.endTime);
    var durationMinutes := svc.durationMinutes;
    ghost var total := slots0 + SlotsOfWindow(svc, date, avail, appointments);
    while currentMinutes + durationMinutes <= endMinutes
      invariant total == slots + WindowSlots(svc, date, currentMinutes, endMinutes, appointments)
      decreases endMinutes - currentMinutes
    {
      var endTimeMinutes := currentMinutes + durationMinutes;
      var slot := Candidate(svc, date, currentMinutes);
      var isBooked := IsBooked(slot.startTime, slot.endTime, appointments);
      ghost var pushed := slots;
      if !isBooked {
        slots := slots + [slot];
      }
      WindowPush(svc, date, currentMinutes, endTimeMinutes, endMinutes, appointments, slot, isBooked, total, pushed, slots);
      currentMinutes := endTimeMinutes;
    }
    WindowDone(svc, date, currentMinutes, endMinutes, appointments, total, slots);
  }

  /** One turn of the inner loop keeps "pushed so far, then still to come"
      equal to the whole. */
  lemma WindowPush(svc: ServiceRef, date: string, cur: nat, next: nat, endMinutes: nat, appts: seq<Interval>, slot: Slot, booked: bool,
                   total: seq<Slot>, before: seq<Slot>, after: seq<Slot>)
    requires svc.durationMinutes > 0 && endMinutes < MinutesPerDay
    requires next == cur + svc.durationMinutes <= endMinutes
    requires slot == Candidate(svc, date, cur)
    requires booked == IsBooked(slot.startTime, slot.endTime, appts)
    requires total == before + WindowSlots(svc, date, cur, endMinutes, appts)
    requires after == if booked then before else before + [slot]
    ensures total == after + WindowSlots(svc, date, next, endMinutes, appts)
  {
    var rest := WindowSlots(svc, date, next, endMinutes, appts);
    WindowSlotsStep(svc, date, cur, next, endMinutes, appts, slot, booked);
    if booked {
      assert [] + rest == rest;
    } else {
      AppendAssoc(before, [slot], rest);
    }
  }

  /** Once the next candidate would end past the window, nothing is left to come. */
  lemma WindowDone(svc: ServiceRef, date: string, cur: nat, endMinutes: nat, appts: seq<Interval>, total: seq<Slot>, slots: seq<Slot>)
    requires svc.durationMinutes > 0 && endMinutes < MinutesPerDay
    requires cur + svc.durationMinutes > endMinutes
    requires total == slots + WindowSlots(svc, date, cur, endMinutes, appts)
    ensures total == slots
  {
    assert slots + [] == slots;
  }

  lemma AppendAssoc(a: seq<Slot>, b: seq<Slot>, c: seq<Slot>)
    ensures a + (b + c) == (a + b) + c
  {
  }

  /** One turn of the inner loop: the candidate at `cur`, unless booked, then the rest. */
  lemma WindowSlotsStep(svc: ServiceRef, date: string, cur: nat, next: nat, endMinutes: nat, appts: seq<Interval>, slot: Slot, booked: bool)
    requires svc.durationMinutes > 0 && endMinutes < MinutesPerDay
    requires next == cur + svc.durationMinutes <= endMinutes
    requires slot == Candidate(svc, date, cur)
    requires booked == IsBooked(slot.startTime, slot.endTime, appts)
    ensures WindowSlots(svc, date, cur, endMinutes, appts)
      == (if booked then [] else [slot]) + WindowSlots(svc, date, next, endMinutes, appts)
  {
  }

  /** One turn of the outer loop: a prefix one window longer adds that window's slots. */
  lemma SlotsOfSnoc(svc: ServiceRef, date: string, ws: seq<Availability>, i: nat, appts: seq<Interval>)
    requires svc.durationMinutes > 0 && AllWellFormed(ws) && i < |ws|
    ensures SlotsOf(svc, date, ws[..i + 1], appts) == SlotsOf(svc, date, ws[..i], appts) + SlotsOfWindow(svc, date, ws[i], appts)
  {
    assert ws[..i + 1][..i] == ws[..i];
    assert ws[..i + 1][i] == ws[i];
  }

  /** The candidates not overlapping any appointment, in order. */
  function Unbooked(slots: seq<Slot>, appts: seq<Interval>): seq<Slot>
  {
    if |slots| == 0 then []
    else
      (if IsBooked(slots[0].startTime, slots[0].endTime, appts) then [] else [slots[0]])
        + Unbooked(slots[1..], appts)
  }

  lemma {:induction false} UnbookedAppend(a: seq<Slot>, b: seq<Slot>, appts: seq<Interval>)
    ensures Unbooked(a + b, appts) == Unbooked(a, appts) + Unbooked(b, appts)
  {
    if |a| > 0 {
      assert (a + b)[1..] == a[1..] + b;
      UnbookedAppend(a[1..], b, appts);
    } else {
      assert a + b == b;
    }
  }

  /** The slots of a window are its appointment-free candidates: the
      appointments only remove candidates, they never shift them. */
  lemma {:induction false} WindowSlotsFilter(svc: ServiceRef, date: string, cur: nat, endMinutes: nat, appts: seq<Interval>)
    requires svc.durationMinutes > 0 && endMinutes < MinutesPerDay
    ensures WindowSlots(svc, date, cur, endMinutes, appts) == Unbooked(WindowSlots(svc, date, cur, endMinutes, []), appts)
    decreases endMinutes - cur
  {
    var next := cur + svc.durationMinutes;
    if next <= endMinutes {
      var slot := Candidate(svc, date, cur);
      var booked := IsBooked(slot.startTime, slot.endTime, appts);
      NothingBookedWithout(slot);
      WindowSlotsStep(svc, date, cur, next, endMinutes, [], slot, false);
      WindowSlotsStep(svc, date, cur, next, endMinutes, appts, slot, booked);
      WindowSlotsFilter(svc, date, next, endMinutes, appts);
      FilterStep(slot, booked, appts, WindowSlots(svc, date, cur, endMinutes, []), WindowSlots(svc, date, next, endMinutes, []),
                 WindowSlots(svc, date, cur, endMinutes, appts), WindowSlots(svc, date, next, endMinutes, appts));
    }
  }

  /** If a list starts with a slot and the filtered rest is known, so is the filtered list. */
  lemma FilterStep(slot: Slot, booked: bool, appts: seq<Interval>, all: seq<Slot>, rest: seq<Slot>, kept: seq<Slot>, keptRest: seq<Slot>)
    requires booked == IsBooked(slot.startTime, slot.endTime, appts)
    requires all == (if false then [] else [slot]) + rest
    requires kept == (if booked then [] else [slot]) + keptRest
    requires keptRest == Unbooked(rest, appts)
    ensures kept == Unbooked(all, appts)
  {
    UnbookedCons(slot, rest, appts);
  }

  /** With no appointments nothing is booked. */
  lemma NothingBookedWithout(slot: Slot)
    ensures !IsBooked(slot.startTime, slot.endTime, [])
  {
  }

  /** The filter decides on the first slot, then goes on with the rest. */
  lemma UnbookedCons(slot: Slot, rest: seq<Slot>, appts: seq<Interval>)
    ensures Unbooked([slot] + rest, appts)
      == (if IsBooked(slot.startTime, slot.endTime, appts) then [] else [slot]) + Unbooked(rest, appts)
  {
    assert ([slot] + rest)[1..] == rest;
  }

  /** With no appointments a window from minute `cur` to `endMinutes` gives
      floor((endMinutes - cur) / duration) slots. */
  lemma {:induction false} WindowCount(svc: ServiceRef, date: string, cur: nat, endMinutes: nat)
    requires svc.durationMinutes > 0 && endMinutes < MinutesPerDay
    ensures var n := |WindowSlots(svc, date, cur, endMinutes, [])|;
      && (cur <= endMinutes ==> n * svc.durationMinutes <= endMinutes - cur < (n + 1) * svc.durationMinutes)
      && (cur > endMinutes ==> n == 0)
    decreases endMinutes - cur
  {
    var d := svc.durationMinutes;
    if cur + d <= endMinutes {
      var slot := Candidate(svc, date, cur);
      assert !IsBooked(slot.startTime, slot.endTime, []);
      var rest := WindowSlots(svc, date, cur + d, endMinutes, []);
      assert |WindowSlots(svc, date, cur, endMinutes, [])| == |rest| + 1;
      WindowCount(svc, date, cur + d, endMinutes);
      CountStep(|rest|, d);
    }
  }

  lemma CountStep(n: nat, d: nat)
    ensures (n + 1) * d == n * d + d && (n + 2) * d == (n + 1) * d + d
  {
  }


  /** The start of the k-th candidate of a window opening at minute `cur`. */
  function StartOf(cur: nat, d: nat, k: nat): (m: nat)
    ensures cur <= m
  {
    cur + k * d
  }

  lemma StepAfter(cur: nat, d: nat, k: nat)
    requires k > 0
    ensures StartOf(cur + d, d, k - 1) == StartOf(cur, d, k)
  {
  }

  /** With no appointments the k-th slot of a window is the candidate at
      cur + k * duration, and it ends inside the window. */
  lemma {:induction false} WindowElements(svc: ServiceRef, date: string, cur: nat, endMinutes: nat)
    requires svc.durationMinutes > 0 && endMinutes < MinutesPerDay
    ensures var r := WindowSlots(svc, date, cur, endMinutes, []);
      forall k :: 0 <= k < |r| ==>
        && StartOf(cur, svc.durationMinutes, k) + svc.durationMinutes <= endMinutes
        && r[k] == Candidate(svc, date, StartOf(cur, svc.durationMinutes, k))
    decreases endMinutes - cur
  {
    var d := svc.durationMinutes;
    if cur + d <= endMinutes {
      var slot := Candidate(svc, date, cur);
      assert !IsBooked(slot.startTime, slot.endTime, []);
      var rest := WindowSlots(svc, date, cur + d, endMinutes, []);
      var r := [slot] + rest;
      assert r == WindowSlots(svc, date, cur, endMinutes, []);
      WindowElements(svc, date, cur + d, endMinutes);
      forall k | 0 <= k < |r|
        ensures StartOf(cur, d, k) + d <= endMinutes && r[k] == Candidate(svc, date, StartOf(cur, d, k))
      {
        if k > 0 {
          assert r[k] == rest[k - 1];
          StepAfter(cur, d, k);
        } else {
          assert StartOf(cur, d, 0) == cur;
        }
      }
    }
  }

  lemma {:induction false} UnbookedSound(xs: seq<Slot>, appts: seq<Interval>)
    ensures forall s | s in Unbooked(xs, appts) :: s in xs && !IsBooked(s.startTime, s.endTime, appts)
  {
    if |xs| > 0 {
      UnbookedSound(xs[1..], appts);
    }
  }

  /** Every slot of a window lies inside it, lasts the duration, carries its
      slot id and overlaps no appointment. */
  lemma WindowSlotsSound(svc: ServiceRef, date: string, cur: nat, endMinutes: nat, appts: seq<Interval>)
    requires svc.durationMinutes > 0 && endMinutes < MinutesPerDay
    ensures forall s | s in WindowSlots(svc, date, cur, endMinutes, appts) ::
      && IsValidTime(s.startTime) && IsValidTime(s.endTime)
      && cur <= ToMinutes(s.startTime)
      && ToMinutes(s.endTime) == ToMinutes(s.startTime) + svc.durationMinutes <= endMinutes
      && s.slotId == SlotId(svc.id, date, s.startTime)
      && !IsBooked(s.startTime, s.endTime, appts)
  {
    var d := svc.durationMinutes;
    var cands := WindowSlots(svc, date, cur, endMinutes, []);
    WindowSlotsFilter(svc, date, cur, endMinutes, appts);
    WindowElements(svc, date, cur, endMinutes);
    UnbookedSound(cands, appts);
    forall s | s in WindowSlots(svc, date, cur, endMinutes, appts)
      ensures && IsValidTime(s.startTime) && IsValidTime(s.endTime)
        && cur <= ToMinutes(s.startTime)
        && ToMinutes(s.endTime) == ToMinutes(s.startTime) + d <= endMinutes
        && s.slotId == SlotId(svc.id, date, s.startTime)
    {
      var k :| 0 <= k < |cands| && cands[k] == s;
      CandidateFacts(svc, date, StartOf(cur, d, k));
    }
  }

  /** Each slot ends no later than any later one starts. */
  predicate Ordered(r: seq<Slot>) {
    forall i, j :: 0 <= i < j < |r| ==> EndsBy(r[i], r[j])
  }

  /** Slot `a` ends no later than slot `b` starts. */
  predicate EndsBy(a: Slot, b: Slot) {
    IsValidTime(a.endTime) && IsValidTime(b.startTime) && ToMinutes(a.endTime) <= ToMinutes(b.startTime)
  }

  /** A slot that ends by the start of every slot of an ordered list keeps it ordered in front. */
  lemma OrderedCons(slot: Slot, rest: seq<Slot>)
    requires Ordered(rest)
    requires forall t | t in rest :: EndsBy(slot, t)
    ensures Ordered([slot] + rest)
  {
    var r := [slot] + rest;
    forall i, j | 0 <= i < j < |r|
      ensures EndsBy(r[i], r[j])
    {
      assert r[j] == rest[j - 1];
      assert rest[j - 1] in rest;
      if i > 0 {
        assert r[i] == rest[i - 1];
      }
    }
  }

  /** The candidate at `cur` ends by the start of every later slot of the window. */
  lemma CandidateEndsByRest(svc: ServiceRef, date: string, cur: nat, next: nat, endMinutes: nat, appts: seq<Interval>, slot: Slot)
    requires svc.durationMinutes > 0 && endMinutes < MinutesPerDay
    requires next == cur + svc.durationMinutes <= endMinutes
    requires slot == Candidate(svc, date, cur)
    ensures forall t | t in WindowSlots(svc, date, next, endMinutes, appts) :: EndsBy(slot, t)
  {
    CandidateFacts(svc, date, cur);
    WindowSlotsSound(svc, date, next, endMinutes, appts);
    EndsByAll(slot, WindowSlots(svc, date, next, endMinutes, appts), next);
  }

  /** A slot ending by minute m ends by every slot starting at m or later. */
  lemma EndsByAll(c: Slot, rest: seq<Slot>, m: nat)
    requires IsValidTime(c.endTime) && ToMinutes(c.endTime) <= m
    requires forall t | t in rest :: IsValidTime(t.startTime) && m <= ToMinutes(t.startTime)
    ensures forall t | t in rest :: EndsBy(c, t)
  {
  }

  /** The slots of a window come in increasing, non-overlapping order. */
  lemma {:induction false} WindowSlotsOrdered(svc: ServiceRef, date: string, cur: nat, endMinutes: nat, appts: seq<Interval>)
    requires svc.durationMinutes > 0 && endMinutes < MinutesPerDay
    ensures Ordered(WindowSlots(svc, date, cur, endMinutes, appts))
    decreases endMinutes - cur
  {
    var next := cur + svc.durationMinutes;
    if next <= endMinutes {
      WindowSlotsOrdered(svc, date, next, endMinutes, appts);
      var slot := Candidate(svc, date, cur);
      var booked := IsBooked(slot.startTime, slot.endTime, appts);
      var all := WindowSlots(svc, date, cur, endMinutes, appts);
      var rest := WindowSlots(svc, date, next, endMinutes, appts);
      WindowSlotsStep(svc, date, cur, next, endMinutes, appts, slot, booked);
      CandidateEndsByRest(svc, date, cur, next, endMinutes, appts, slot);
      OrderedStep(slot, booked, all, rest);
    }
  }

  /** A slot kept in front of an ordered list keeps it ordered when it ends by all of it. */
  lemma OrderedStep(slot: Slot, booked: bool, all: seq<Slot>, rest: seq<Slot>)
    requires all == (if booked then [] else [slot]) + rest
    requires Ordered(rest)
    requires !booked ==> forall t | t in rest :: EndsBy(slot, t)
    ensures Ordered(all)
  {
    if booked {
      assert all == rest;
    } else {
      OrderedCons(slot, rest);
    }
  }

  /** Concatenating well-formed window lists keeps them well-formed. */
  lemma AllWellFormedAppend(a: seq<Availability>, b: seq<Availability>)
    requires AllWellFormed(a) && AllWellFormed(b)
    ensures AllWellFormed(a + b)
  {
    forall i | 0 <= i < |a + b|
      ensures WellFormed((a + b)[i])
    {
      if i >= |a| {
        assert (a + b)[i] == b[i - |a|];
      }
    }
  }

  /** Dropping the last window of `a + b`, for a non-empty `b`, drops the last of `b`. */
  lemma AppendInit(a: seq<Availability>, b: seq<Availability>)
    requires |b| > 0
    ensures (a + b)[..|a + b| - 1] == a + b[..|b| - 1]
    ensures (a + b)[|a + b| - 1] == b[|b| - 1]
  {
  }

  lemma {:induction false} SlotsOfAppend(svc: ServiceRef, date: string, a: seq<Availability>, b: seq<Availability>, appts: seq<Interval>)
    requires svc.durationMinutes > 0 && AllWellFormed(a) && AllWellFormed(b)
    ensures AllWellFormed(a + b)
    ensures SlotsOf(svc, date, a + b, appts) == SlotsOf(svc, date, a, appts) + SlotsOf(svc, date, b, appts)
    decreases |b|
  {
    AllWellFormedAppend(a, b);
    if |b| > 0 {
      var b' := b[..|b| - 1];
      AppendInit(a, b);
      SlotsOfAppend(svc, date, a, b', appts);
      AppendAssoc(SlotsOf(svc, date, a, appts), SlotsOf(svc, date, b', appts), SlotsOfWindow(svc, date, b[|b| - 1], appts));
    } else {
      assert a + b == a;
    }
  }

  lemma {:induction false} RelevantAppend(a: seq<Availability>, b: seq<Availability>, day: Option<int>)
    ensures Relevant(a + b, day) == Relevant(a, day) + Relevant(b, day)
  {
    if |a| > 0 {
      var head: seq<Availability> := if OnDay(a[0], day) then [a[0]] else [];
      assert a == [a[0]] + a[1..];
      assert a + b == [a[0]] + (a[1..] + b);
      RelevantCons(a[0], a[1..], day);
      RelevantCons(a[0], a[1..] + b, day);
      RelevantAppend(a[1..], b, day);
      AvailabilityAppendAssoc(head, Relevant(a[1..], day), Relevant(b, day));
    } else {
      assert a + b == b;
    }
  }

  lemma AvailabilityAppendAssoc(a: seq<Availability>, b: seq<Availability>, c: seq<Availability>)
    ensures a + (b + c) == (a + b) + c
  {
  }

  /** Output order is input window order: the slots of two lists of
      windows are the slots of the first followed by those of the second,
      with no sorting and no removal of duplicates. */
  lemma GeneratedAppend(svc: ServiceRef, date: string, a: seq<Availability>, b: seq<Availability>, appts: seq<Interval>)
    requires svc.durationMinutes > 0 && AllWellFormed(a) && AllWellFormed(b)
    ensures AllWellFormed(a + b)
    ensures GeneratedSlots(svc, date, a + b, appts) == GeneratedSlots(svc, date, a, appts) + GeneratedSlots(svc, date, b, appts)
  {
    var day := Calendar.DayOfWeek(date);
    RelevantAppend(a, b, day);
    SlotsOfAppend(svc, date, Relevant(a, day), Relevant(b, day), appts);
  }

  /** A list of windows of which none is on the date's weekday gives no slots. */
  lemma NoWindowOnDayNoSlots(svc: ServiceRef, date: string, ws: seq<Availability>, appts: seq<Interval>)
    requires svc.durationMinutes > 0 && AllWellFormed(ws)
    requires forall w | w in ws :: !OnDay(w, Calendar.DayOfWeek(date))
    ensures GeneratedSlots(svc, date, ws, appts) == []
  {
    RelevantNone(ws, Calendar.DayOfWeek(date));
  }

  /** The filter drops every window when none is on the day. */
  lemma {:induction false} RelevantNone(ws: seq<Availability>, day: Option<int>)
    requires forall w | w in ws :: !OnDay(w, day)
    ensures Relevant(ws, day) == []
  {
    if |ws| > 0 {
      assert ws[0] in ws;
      assert forall w | w in ws[1..] :: w in ws;
      RelevantNone(ws[1..], day);
    }
  }

  lemma {:induction false} SlotsOfFilter(svc: ServiceRef, date: string, ws: seq<Availability>, appts: seq<Interval>)
    requires svc.durationMinutes > 0 && AllWellFormed(ws)
    ensures SlotsOf(svc, date, ws, appts) == Unbooked(SlotsOf(svc, date, ws, []), appts)
  {
    if |ws| > 0 {
      var w := ws[|ws| - 1];
      SlotsOfFilter(svc, date, ws[..|ws| - 1], appts);
      WindowSlotsFilter(svc, date, ToMinutes(w.startTime), ToMinutes(w.endTime), appts);
      UnbookedAppend(SlotsOf(svc, date, ws[..|ws| - 1], []), SlotsOfWindow(svc, date, w, []), appts);
    }
  }

  /** The generated slots are exactly the appointment-free slots of the
      appointment-free generation, in the same order. */
  lemma GeneratedIsUnbookedCandidates(svc: ServiceRef, date: string, ws: seq<Availability>, appts: seq<Interval>)
    requires svc.durationMinutes > 0 && AllWellFormed(ws)
    ensures GeneratedSlots(svc, date, ws, appts) == Unbooked(GeneratedSlots(svc, date, ws, []), appts)
  {
    SlotsOfFilter(svc, date, Relevant(ws, Calendar.DayOfWeek(date)), appts);
  }

  lemma {:induction false} SlotsOfSound(svc: ServiceRef, date: string, ws: seq<Availability>, appts: seq<Interval>)
    requires svc.durationMinutes > 0 && AllWellFormed(ws)
    ensures forall s | s in SlotsOf(svc, date, ws, appts) ::
      && IsValidTime(s.startTime) && IsValidTime(s.endTime)
      && s.slotId == SlotId(svc.id, date, s.startTime)
      && !IsBooked(s.startTime, s.endTime, appts)
      && ToMinutes(s.endTime) == ToMinutes(s.startTime) + svc.durationMinutes
      && exists w :: w in ws && ToMinutes(w.startTime) <= ToMinutes(s.startTime) && ToMinutes(s.endTime) <= ToMinutes(w.endTime)
  {
    if |ws| > 0 {
      var w := ws[|ws| - 1];
      SlotsOfSound(svc, date, ws[..|ws| - 1], appts);
      WindowSlotsSound(svc, date, ToMinutes(w.startTime), ToMinutes(w.endTime), appts);
      forall s | s in SlotsOf(svc, date, ws, appts)
        ensures exists w :: w in ws && ToMinutes(w.startTime) <= ToMinutes(s.startTime) && ToMinutes(s.endTime) <= ToMinutes(w.endTime)
      {
        if s in SlotsOf(svc, date, ws[..|ws| - 1], appts) {
          var v :| v in ws[..|ws| - 1] && ToMinutes(v.startTime) <= ToMinutes(s.startTime) && ToMinutes(s.endTime) <= ToMinutes(v.endTime);
          assert v in ws;
        } else {
          assert w in ws;
        }
      }
    }
  }

  /** Every generated slot has valid `HH:MM` times, lasts exactly the
      duration, lies inside a window of the date's weekday, is named
      `${service.id}_${date}_${startTime}` and overlaps no appointment. */
  lemma GeneratedSlotsFit(svc: ServiceRef, date: string, ws: seq<Availability>, appts: seq<Interval>)
    requires svc.durationMinutes > 0 && AllWellFormed(ws)
    ensures forall s | s in GeneratedSlots(svc, date, ws, appts) ::
      && IsValidTime(s.startTime) && IsValidTime(s.endTime)
      && s.slotId == SlotId(svc.id, date, s.startTime)
      && !IsBooked(s.startTime, s.endTime, appts)
      && ToMinutes(s.endTime) == ToMinutes(s.startTime) + svc.durationMinutes
      && exists w :: w in ws && OnDay(w, Calendar.DayOfWeek(date))
           && ToMinutes(w.startTime) <= ToMinutes(s.startTime) && ToMinutes(s.endTime) <= ToMinutes(w.endTime)
  {
    var r := Relevant(ws, Calendar.DayOfWeek(date));
    SlotsOfSound(svc, date, r, appts);
    RelevantSubset(ws, Calendar.DayOfWeek(date));
    forall s | s in GeneratedSlots(svc, date, ws, appts)
      ensures exists w :: (w in ws && OnDay(w, Calendar.DayOfWeek(date)) &&
        ToMinutes(w.startTime) <= ToMinutes(s.startTime) && ToMinutes(s.endTime) <= ToMinutes(w.endTime))
    {
      var w :| w in r && ToMinutes(w.startTime) <= ToMinutes(s.startTime) && ToMinutes(s.endTime) <= ToMinutes(w.endTime);
      RelevantMembers(ws, Calendar.DayOfWeek(date), w);
    }
  }

  /** A list of slots keeps every slot no appointment overlaps. */
  lemma {:induction false} UnbookedKeeps(xs: seq<Slot>, appts: seq<Interval>, x: Slot)
    requires x in xs && !IsBooked(x.startTime, x.endTime, appts)
    ensures x in Unbooked(xs, appts)
  {
    if xs[0] != x {
      assert x in xs[1..];
      UnbookedKeeps(xs[1..], appts, x);
    }
  }

  /** If (k + 1) * d fits below (n + 1) * d then k is below n. */
  lemma IndexBelowCount(k: nat, n: nat, d: nat)
    requires d > 0 && (k + 1) * d < (n + 1) * d
    ensures k < n
  {
  }

  /** The candidate k steps into a window, when it fits and is unbooked, is emitted. */
  lemma WindowHasCandidate(svc: ServiceRef, date: string, cur: nat, endMinutes: nat, appts: seq<Interval>, k: nat)
    requires svc.durationMinutes > 0 && endMinutes < MinutesPerDay
    requires StartOf(cur, svc.durationMinutes, k) + svc.durationMinutes <= endMinutes
    requires var c := Candidate(svc, date, StartOf(cur, svc.durationMinutes, k)); !IsBooked(c.startTime, c.endTime, appts)
    ensures Candidate(svc, date, StartOf(cur, svc.durationMinutes, k)) in WindowSlots(svc, date, cur, endMinutes, appts)
  {
    var d := svc.durationMinutes;
    var all := WindowSlots(svc, date, cur, endMinutes, []);
    WindowCount(svc, date, cur, endMinutes);
    assert (k + 1) * d == k * d + d;
    IndexBelowCount(k, |all|, d);
    WindowElements(svc, date, cur, endMinutes);
    WindowSlotsFilter(svc, date, cur, endMinutes, appts);
    UnbookedKeeps(all, appts, all[k]);
  }

  /** A slot of window i of a list is a slot of the list. */
  lemma {:induction false} SlotsOfContains(svc: ServiceRef, date: string, ws: seq<Availability>, appts: seq<Interval>, i: nat, x: Slot)
    requires svc.durationMinutes > 0 && AllWellFormed(ws) && i < |ws|
    requires x in SlotsOfWindow(svc, date, ws[i], appts)
    ensures x in SlotsOf(svc, date, ws, appts)
    decreases |ws|
  {
    if i < |ws| - 1 {
      var init := ws[..|ws| - 1];
      assert init[i] == ws[i];
      SlotsOfContains(svc, date, init, appts, i, x);
    }
  }

  /** Completeness of `generateSlots`: every candidate of a window on the
      date's weekday, at the window's start plus a whole number of
      durations, ending by the window's end and overlapping no
      appointment, is emitted. */
  lemma GeneratedComplete(svc: ServiceRef, date: string, ws: seq<Availability>, appts: seq<Interval>, w: Availability, k: nat)
    requires svc.durationMinutes > 0 && AllWellFormed(ws)
    requires w in ws && OnDay(w, Calendar.DayOfWeek(date))
    requires StartOf(ToMinutes(w.startTime), svc.durationMinutes, k) + svc.durationMinutes <= ToMinutes(w.endTime)
    requires var c := Candidate(svc, date, StartOf(ToMinutes(w.startTime), svc.durationMinutes, k));
      !IsBooked(c.startTime, c.endTime, appts)
    ensures Candidate(svc, date, StartOf(ToMinutes(w.startTime), svc.durationMinutes, k)) in GeneratedSlots(svc, date, ws, appts)
  {
    var r := Relevant(ws, Calendar.DayOfWeek(date));
    RelevantMembers(ws, Calendar.DayOfWeek(date), w);
    var i :| 0 <= i < |r| && r[i] == w;
    WindowHasCandidate(svc, date, ToMinutes(w.startTime), ToMinutes(w.endTime), appts, k);
    SlotsOfContains(svc, date, r, appts, i, Candidate(svc, date, StartOf(ToMinutes(w.startTime), svc.durationMinutes, k)));
  }

  /** With well-formed appointment times, no generated slot overlaps an
      appointment in minutes either: on zero-padded `HH:MM` strings the
      source's string comparison is the numeric one. */
  lemma GeneratedAvoidsAppointments(svc: ServiceRef, date: string, ws: seq<Availability>, appts: seq<Interval>)
    requires svc.durationMinutes > 0 && AllWellFormed(ws)
    requires forall a | a in appts :: IsValidTime(a.startTime) && IsValidTime(a.endTime)
    ensures forall s, a | s in GeneratedSlots(svc, date, ws, appts) && a in appts ::
      IsValidTime(s.startTime) && IsValidTime(s.endTime) &&
      !(ToMinutes(s.startTime) < ToMinutes(a.endTime) && ToMinutes(a.startTime) < ToMinutes(s.endTime))
  {
    GeneratedSlotsFit(svc, date, ws, appts);
    forall s, a | s in GeneratedSlots(svc, date, ws, appts) && a in appts
      ensures IsValidTime(s.startTime) && IsValidTime(s.endTime) &&
        !(ToMinutes(s.startTime) < ToMinutes(a.endTime) && ToMinutes(a.startTime) < ToMinutes(s.endTime))
    {
      var i :| 0 <= i < |appts| && appts[i] == a;
      assert !Overlaps(s.startTime, s.endTime, appts[i]);
      StrLessIsTimeOrder(s.startTime, a.endTime);
      StrLessIsTimeOrder(a.startTime, s.endTime);
    }
  }

  /** The index of the first window of the weekday, or the length of the
      list when there is none. */
  function FirstOnDay(ws: seq<Availability>, day: Option<int>): (i: nat)
    ensures i <= |ws|
    ensures i < |ws| ==> OnDay(ws[i], day)
    ensures forall j :: 0 <= j < i ==> !OnDay(ws[j], day)
  {
    if |ws| == 0 || OnDay(ws[0], day) then 0
    else
      var i := 1 + FirstOnDay(ws[1..], day);
      assert forall j :: 0 < j < i ==> ws[j] == ws[1..][j - 1];
      i
  }

  /** `availabilities.find(a => a.dayOfWeek === dayOfWeek)`: the first window of the weekday. */
  function FindOnDay(ws: seq<Availability>, day: Option<int>): Option<Availability>
  {
    var i := FirstOnDay(ws, day);
    if i < |ws| then Some(ws[i]) else None
  }

  /** `find` comes back empty exactly when no window is on the weekday, and
      otherwise with a window of the weekday from the list. */
  lemma FindOnDayFinds(ws: seq<Availability>, day: Option<int>)
    ensures FindOnDay(ws, day).None? <==> forall w | w in ws :: !OnDay(w, day)
    ensures FindOnDay(ws, day).Some? ==> FindOnDay(ws, day).value in ws && OnDay(FindOnDay(ws, day).value, day)
  {
    if FindOnDay(ws, day).None? {
      forall w | w in ws
        ensures !OnDay(w, day)
      {
        var j :| 0 <= j < |ws| && ws[j] == w;
      }
    }
  }

  /** `validateSlotAvailability`: false without a window on the weekday;
      otherwise the start/end pair must lie in the FIRST such window, in
      minutes, and overlap no appointment under the string test. */
  function ValidateSlotAvailability(svc: ServiceRef, date: string, startTime: string, endTime: string,
                                    ws: seq<Availability>, appts: seq<Interval>): (ok: bool)
    requires IsValidTime(startTime) && IsValidTime(endTime) && AllWellFormed(ws)
    ensures (forall w | w in ws :: !OnDay(w, Calendar.DayOfWeek(date))) ==> !ok
  {
    match FindOnDay(ws, Calendar.DayOfWeek(date))
    case None => false
    case Some(avail) =>
      if ToMinutes(startTime) < ToMinutes(avail.startTime) || ToMinutes(endTime) > ToMinutes(avail.endTime) then false
      else !IsBooked(startTime, endTime, appts)
  }

  /** The verdict of `validateSlotAvailability` in full: the window at the
      first index of the weekday contains the pair and no appointment
      overlaps it. Later windows of the same weekday play no part. */
  lemma ValidateExactly(svc: ServiceRef, date: string, startTime: string, endTime: string,
                        ws: seq<Availability>, appts: seq<Interval>)
    requires IsValidTime(startTime) && IsValidTime(endTime) && AllWellFormed(ws)
    ensures ValidateSlotAvailability(svc, date, startTime, endTime, ws, appts) <==>
      exists i :: 0 <= i < |ws| && OnDay(ws[i], Calendar.DayOfWeek(date))
        && (forall j :: 0 <= j < i ==> !OnDay(ws[j], Calendar.DayOfWeek(date)))
        && ToMinutes(ws[i].startTime) <= ToMinutes(startTime)
        && ToMinutes(endTime) <= ToMinutes(ws[i].endTime)
        && !IsBooked(startTime, endTime, appts)
  {
    var day := Calendar.DayOfWeek(date);
    var f := FirstOnDay(ws, day);
    if f < |ws| {
      forall i | 0 <= i < |ws| && OnDay(ws[i], day) && (forall j :: 0 <= j < i ==> !OnDay(ws[j], day))
        ensures i == f
      {
      }
    }
  }

  /** Any slot generated from the first window of the weekday, against the
      same appointments, passes `validateSlotAvailability`. */
  lemma FirstWindowSlotsValidate(svc: ServiceRef, date: string, ws: seq<Availability>, appts: seq<Interval>, i: nat, s: Slot)
    requires svc.durationMinutes > 0 && AllWellFormed(ws)
    requires i < |ws| && OnDay(ws[i], Calendar.DayOfWeek(date))
    requires forall j :: 0 <= j < i ==> !OnDay(ws[j], Calendar.DayOfWeek(date))
    requires s in SlotsOfWindow(svc, date, ws[i], appts)
    ensures IsValidTime(s.startTime) && IsValidTime(s.endTime)
    ensures ValidateSlotAvailability(svc, date, s.startTime, s.endTime, ws, appts)
  {
    assert ws[i] in ws;
    var w := ws[i];
    WindowSlotsSound(svc, date, ToMinutes(w.startTime), ToMinutes(w.endTime), appts);
    ValidateExactly(svc, date, s.startTime, s.endTime, ws, appts);
  }

  /** A generated slot ends where `addMinutes` puts the end of its start. */
  lemma GeneratedEndIsAddMinutes(svc: ServiceRef, s: Slot)
    requires svc.durationMinutes > 0 && IsValidTime(s.startTime) && IsValidTime(s.endTime)
    requires ToMinutes(s.endTime) == ToMinutes(s.startTime) + svc.durationMinutes
    ensures AddMinutes(s.startTime, svc.durationMinutes) == s.endTime
  {
    NoWrap(s.startTime, svc.durationMinutes);
    FormatToMinutes(s.endTime);
  }
}
