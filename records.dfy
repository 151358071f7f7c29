/** The stored entities the two API controllers read and write (services,
    availability rows, appointments), the queries they run against them,
    and the shape of an error response. */
module Records {
  import opened Wrappers
  import opened Slots

  /** The `ServiceType` enumeration. The database schema that defines it is
      not part of this model; the six values are those the web UI lists
      (apps/web/src/routes/provider.tsx:14-19,
      apps/web/src/routes/services.index.tsx:14-19). */
  datatype ServiceType = Medical | HouseHelp | Beauty | Fitness | Education | Other

  /** The enumeration value as it is spelled on the wire. */
  function ServiceTypeName(t: ServiceType): string {
    match t
    case Medical => "MEDICAL"
    case HouseHelp => "HOUSE_HELP"
    case Beauty => "BEAUTY"
    case Fitness => "FITNESS"
    case Education => "EDUCATION"
    case Other => "OTHER"
  }

  /** `serviceTypes.includes(type)` followed by the cast: the enumeration
      value spelled `s`, if any. */
  function ParseServiceType(s: string): (r: Option<ServiceType>)
    ensures r.Some? ==> ServiceTypeName(r.value) == s
  {
    if s == "MEDICAL" then Some(Medical)
    else if s == "HOUSE_HELP" then Some(HouseHelp)
    else if s == "BEAUTY" then Some(Beauty)
    else if s == "FITNESS" then Some(Fitness)
    else if s == "EDUCATION" then Some(Education)
    else if s == "OTHER" then Some(Other)
    else None
  }

  /** Every enumeration value parses back from its name, and nothing else parses. */
  lemma ParseServiceTypeExactly(s: string)
    ensures ParseServiceType(s).Some? <==> exists t :: ServiceTypeName(t) == s
    ensures forall t :: ParseServiceType(ServiceTypeName(t)) == Some(t)
  {
    forall t | ServiceTypeName(t) == s
      ensures ParseServiceType(s).Some?
    {
      match t
      case Medical =>
      case HouseHelp =>
      case Beauty =>
      case Fitness =>
      case Education =>
      case Other =>
    }
  }

  datatype Service = Service(id: string, name: string, serviceType: ServiceType, durationMinutes: int, providerId: string)

  /** An availability row: its service and its weekly window. */
  datatype AvailabilityRow = AvailabilityRow(serviceId: string, window: Availability)

  datatype AppointmentStatus = Booked | Cancelled

  datatype Appointment = Appointment(userId: string, serviceId: string, date: string, startTime: string,
                                     endTime: string, slotId: string, status: AppointmentStatus)

  /** What the handlers learn from `new Date()`: whether a `YYYY-MM-DD`
      date lies before today's local midnight, and whether a date and time
      lie before now (`isPastDateTime`). */
  datatype Clock = Clock(dateBeforeToday: string -> bool, instantPassed: (string, string) -> bool)

  /** An error response: a status code and its `error` message, or the
      400 a schema violation produces (its list of issues is not modelled). */
  datatype ApiError = Error(status: int, message: string) | ValidationError

  function StatusOf(e: ApiError): int {
    match e
    case Error(status, _) => status
    case ValidationError => 400
  }

  /** `prisma.service.findUnique({ where: { id } })`: identifiers are unique,
      so the first service with the identifier is the one. */
  function FindService(services: seq<Service>, id: string): (r: Option<Service>)
    ensures r.None? <==> forall s | s in services :: s.id != id
    ensures r.Some? ==> r.value in services && r.value.id == id
  {
    if |services| == 0 then None
    else if services[0].id == id then Some(services[0])
    else
      var r := FindService(services[1..], id);
      assert forall s | s in services[1..] :: s in services;
      assert services == [services[0]] + services[1..];
      r
  }

  /** `service.availabilities`, or `availability.findMany({ where: { serviceId } })`:
      the windows of one service, in the order the rows were stored. */
  function WindowsOf(rows: seq<AvailabilityRow>, serviceId: string): seq<Availability>
  {
    if |rows| == 0 then []
    else
      var last := rows[|rows| - 1];
      WindowsOf(rows[..|rows| - 1], serviceId) + (if last.serviceId == serviceId then [last.window] else [])
  }

  /** A stored row adds its window to its own service only. */
  lemma WindowsOfSnoc(rows: seq<AvailabilityRow>, row: AvailabilityRow, serviceId: string)
    ensures WindowsOf(rows + [row], serviceId)
      == WindowsOf(rows, serviceId) + (if row.serviceId == serviceId then [row.window] else [])
  {
    assert (rows + [row])[..|rows + [row]| - 1] == rows;
  }

  /** The windows of a service are exactly the windows of its rows. */
  lemma {:induction false} WindowsOfMembers(rows: seq<AvailabilityRow>, serviceId: string, w: Availability)
    ensures w in WindowsOf(rows, serviceId) <==> AvailabilityRow(serviceId, w) in rows
  {
    if |rows| > 0 {
      var init := rows[..|rows| - 1];
      var last := rows[|rows| - 1];
      WindowsOfMembers(init, serviceId, w);
      assert rows == init + [last];
    }
  }

  /** Stored windows passed the availability schema, so the windows of any
      service are well formed. */
  lemma WindowsOfWellFormed(rows: seq<AvailabilityRow>, serviceId: string)
    requires forall row | row in rows :: WellFormed(row.window)
    ensures AllWellFormed(WindowsOf(rows, serviceId))
  {
    var ws := WindowsOf(rows, serviceId);
    forall i | 0 <= i < |ws|
      ensures WellFormed(ws[i])
    {
      WindowsOfMembers(rows, serviceId, ws[i]);
    }
  }

  /** The interval of an appointment, as the slot engine reads it. */
  function IntervalOf(a: Appointment): Interval {
    Interval(a.startTime, a.endTime)
  }

  /** `appointment.findMany({ where: { serviceId, date, status: BOOKED } })`. */
  function BookedFor(appts: seq<Appointment>, serviceId: string, date: string): seq<Interval>
  {
    if |appts| == 0 then []
    else
      var a := appts[0];
      (if a.serviceId == serviceId && a.date == date && a.status == Booked then [IntervalOf(a)] else [])
        + BookedFor(appts[1..], serviceId, date)
  }

  /** A time range counts as booked against that query exactly when some
      BOOKED appointment of the same service and date overlaps it;
      cancelled appointments and other services or dates play no part. */
  lemma {:induction false} BookedForOverlap(appts: seq<Appointment>, serviceId: string, date: string, startTime: string, endTime: string)
    ensures IsBooked(startTime, endTime, BookedFor(appts, serviceId, date)) <==>
      exists a :: a in appts && a.serviceId == serviceId && a.date == date && a.status == Booked
        && Overlaps(startTime, endTime, IntervalOf(a))
  {
    if |appts| > 0 {
      var a := appts[0];
      var head: seq<Interval> := if a.serviceId == serviceId && a.date == date && a.status == Booked then [IntervalOf(a)] else [];
      var rest := BookedFor(appts[1..], serviceId, date);
      BookedForOverlap(appts[1..], serviceId, date, startTime, endTime);
      assert BookedFor(appts, serviceId, date) == head + rest;
      IsBookedAppend(startTime, endTime, head, rest);
      assert appts == [a] + appts[1..];
    }
  }

  /** An overlap with a concatenation is an overlap with one of its parts. */
  lemma IsBookedAppend(startTime: string, endTime: string, a: seq<Interval>, b: seq<Interval>)
    ensures IsBooked(startTime, endTime, a + b) <==> IsBooked(startTime, endTime, a) || IsBooked(startTime, endTime, b)
  {
    if IsBooked(startTime, endTime, a + b) {
      var i :| 0 <= i < |a + b| && Overlaps(startTime, endTime, (a + b)[i]);
      if i >= |a| {
        assert (a + b)[i] == b[i - |a|];
      }
    }
    if IsBooked(startTime, endTime, b) {
      var i :| 0 <= i < |b| && Overlaps(startTime, endTime, b[i]);
      assert (a + b)[|a| + i] == b[i];
    }
    if IsBooked(startTime, endTime, a) {
      var i :| 0 <= i < |a| && Overlaps(startTime, endTime, a[i]);
      assert (a + b)[i] == a[i];
    }
  }
}
