/** The registration route: the deadline gate, the ordered validation of a
    submission, the derivation of the stored record and of its invoice, the
    append to the ledger, and the payment confirmation that later marks a
    record as paid. The ledger lives in memory; loading it from and saving it
    to the JSON file are not modelled. */
module Registrations {
  import opened Wrappers
  import Decimal

  /** One attendee as submitted. `name` and `age` are `None` when the key is
      absent or null. */
  datatype Attendee = Attendee(name: Option<string>, age: Option<int>)

  /** The request body. A field is `None` when its key is absent. */
  datatype Request = Request(
    station: Option<string>,
    district: Option<string>,
    church: Option<string>,
    leaderName: Option<string>,
    leaderPhone: Option<string>,
    attendees: Option<seq<Attendee>>)

  /** The active meeting: the deadline as an instant (midnight of the
      configured date) and the amount charged per attendee. */
  datatype Meeting = Meeting(deadline: int, registrationAmount: int)

  /** One reading of the clock: the instant compared with the deadline and its
      three renderings (invoice stamp, invoice date, ISO record timestamp). */
  datatype Clock = Clock(now: int, stamp: string, day: string, iso: string)

  /** A stored registration record. */
  datatype Registration = Registration(
    id: int,
    timestamp: string,
    station: string,
    district: string,
    church: string,
    leaderName: string,
    leaderPhone: string,
    attendees: seq<Attendee>,
    amount: int,
    invoiceNumber: string,
    paid: bool)

  /** The invoice descriptor returned to the submitter. */
  datatype Invoice = Invoice(
    invoiceNumber: string,
    amount: int,
    accountNumber: string,
    date: string,
    attendees: nat)

  /** The body of a successful response. */
  datatype Receipt = Receipt(message: string, invoice: Invoice, registrationId: int)

  /** The errors of the route, in the order they are checked. */
  datatype Error =
    | DeadlinePassed
    | MissingField(field: string)
    | NoAttendees
    | IncompleteAttendee(position: nat)
  {
    /** Every error is answered with HTTP 400 Bad Request. */
    function Status(): int {
      400
    }
  }

  /** The text of the error response. */
  function Message(e: Error): string {
    match e
    case DeadlinePassed => "Registration deadline has passed"
    case MissingField(f) => "Missing required field: " + f
    case NoAttendees => "At least one attendee is required"
    case IncompleteAttendee(p) => "Attendee " + Decimal.Digits(p) + " is missing name or age"
  }

  const SuccessMessage := "Registration successful"

  /** The first and third characters of a message tell its kind apart. */
  lemma MessageHead(e: Error)
    ensures |Message(e)| > 2
    ensures Message(e)[0] == match e
                             case DeadlinePassed => 'R'
                             case MissingField(_) => 'M'
                             case _ => 'A'
    ensures e.NoAttendees? ==> Message(e)[2] == ' '
    ensures e.IncompleteAttendee? ==> Message(e)[2] == 't'
  {
  }

  /** Different errors produce different messages, so the text of a response
      identifies the failed check, the missing key and the attendee position. */
  lemma MessageIdentifiesError(e1: Error, e2: Error)
    requires Message(e1) == Message(e2)
    ensures e1 == e2
  {
    MessageHead(e1);
    MessageHead(e2);
    var m := Message(e1);
    if e1.MissingField? {
      var prefix := "Missing required field: ";
      assert e1.field == m[|prefix|..];
      assert e2.field == m[|prefix|..];
    } else if e1.IncompleteAttendee? {
      var head := "Attendee ";
      var d1, d2 := Decimal.Digits(e1.position), Decimal.Digits(e2.position);
      assert |d1| == |d2|;
      assert d1 == m[|head|..|head| + |d1|];
      assert d2 == m[|head|..|head| + |d2|];
      Decimal.DigitsInjective(e1.position, e2.position);
    }
  }

  /** The keys that must be present, in the order they are checked. */
  const RequiredFields: seq<string> :=
    ["station", "district", "church", "leaderName", "leaderPhone", "attendees"]

  /** The key `field` is present in the request (its value is not inspected). */
  predicate Has(req: Request, field: string) {
    if field == "station" then req.station.Some?
    else if field == "district" then req.district.Some?
    else if field == "church" then req.church.Some?
    else if field == "leaderName" then req.leaderName.Some?
    else if field == "leaderPhone" then req.leaderPhone.Some?
    else if field == "attendees" then req.attendees.Some?
    else false
  }

  /** Every required key is present, which is to say every field of the
      request is. */
  predicate AllPresent(req: Request)
    ensures AllPresent(req) <==>
              req.station.Some? && req.district.Some? && req.church.Some? &&
              req.leaderName.Some? && req.leaderPhone.Some? && req.attendees.Some?
  {
    assert RequiredFields[0] == "station" && RequiredFields[1] == "district" &&
           RequiredFields[2] == "church" && RequiredFields[3] == "leaderName" &&
           RequiredFields[4] == "leaderPhone" && RequiredFields[5] == "attendees";
    forall j :: 0 <= j < |RequiredFields| ==> Has(req, RequiredFields[j])
  }

  /** An attendee passes the check when both its name and its age are truthy:
      a non-empty name and a non-zero age. */
  predicate Complete(a: Attendee) {
    a.name.Some? && a.name.value != "" && a.age.Some? && a.age.value != 0
  }

  /** The position in `RequiredFields`, at or after `i`, of the first key the
      request lacks. */
  function FirstAbsent(req: Request, i: nat): (r: Option<nat>)
    requires i <= |RequiredFields|
    ensures r.None? <==> forall j :: i <= j < |RequiredFields| ==> Has(req, RequiredFields[j])
    ensures r.Some? ==> i <= r.value < |RequiredFields| && !Has(req, RequiredFields[r.value])
    ensures r.Some? ==> forall j :: i <= j < r.value ==> Has(req, RequiredFields[j])
    decreases |RequiredFields| - i
  {
    if i == |RequiredFields| then None
    else if !Has(req, RequiredFields[i]) then Some(i)
    else FirstAbsent(req, i + 1)
  }

  /** The index, at or after `i`, of the first attendee that fails the check. */
  function FirstIncomplete(attendees: seq<Attendee>, i: nat): (r: Option<nat>)
    requires i <= |attendees|
    ensures r.None? <==> forall k :: i <= k < |attendees| ==> Complete(attendees[k])
    ensures r.Some? ==> i <= r.value < |attendees| && !Complete(attendees[r.value])
    ensures r.Some? ==> forall k :: i <= k < r.value ==> Complete(attendees[k])
    decreases |attendees| - i
  {
    if i == |attendees| then None
    else if !Complete(attendees[i]) then Some(i)
    else FirstIncomplete(attendees, i + 1)
  }

  /** A request that passed validation, with its values unwrapped. */
  datatype Form = Form(
    station: string,
    district: string,
    church: string,
    leaderName: string,
    leaderPhone: string,
    attendees: seq<Attendee>)

  /** The validation of a request, short-circuiting at the first violation:
      required keys in order, then a non-empty attendee list, then each
      attendee in order. */
  function Validate(req: Request): (r: Result<Form, Error>)
    ensures r.Ok? <==> AllPresent(req) && |req.attendees.value| > 0 &&
                       forall k :: 0 <= k < |req.attendees.value| ==> Complete(req.attendees.value[k])
    ensures r.Ok? ==> r.value == Form(req.station.value, req.district.value, req.church.value,
                                      req.leaderName.value, req.leaderPhone.value, req.attendees.value)
    ensures forall k :: 0 <= k < |RequiredFields| ==>
              (r == Err(MissingField(RequiredFields[k])) <==>
                 !Has(req, RequiredFields[k]) && forall j :: 0 <= j < k ==> Has(req, RequiredFields[j]))
    ensures r.Err? && r.error.MissingField? <==> !AllPresent(req)
    ensures r == Err(NoAttendees) <==> AllPresent(req) && |req.attendees.value| == 0
    ensures r.Err? && r.error.IncompleteAttendee? ==>
              AllPresent(req) && 1 <= r.error.position <= |req.attendees.value| &&
              !Complete(req.attendees.value[r.error.position - 1]) &&
              forall k :: 0 <= k < r.error.position - 1 ==> Complete(req.attendees.value[k])
    ensures r.Err? ==> r.error != DeadlinePassed
  {
    match FirstAbsent(req, 0)
    case Some(k) => Err(MissingField(RequiredFields[k]))
    case None =>
      var attendees := req.attendees.value;
      if |attendees| == 0 then Err(NoAttendees)
      else
        match FirstIncomplete(attendees, 0)
        case Some(k) => Err(IncompleteAttendee(k + 1))
        case None =>
          Ok(Form(req.station.value, req.district.value, req.church.value,
                  req.leaderName.value, req.leaderPhone.value, attendees))
  }

  /** The deadline gate followed by validation. */
  function Admit(req: Request, clock: Clock, meeting: Meeting): Result<Form, Error> {
    if clock.now > meeting.deadline then Err(DeadlinePassed) else Validate(req)
  }

  /** The invoice number `INV-<stamp>-<serial padded to four digits>`. */
  function InvoiceNumber(stamp: string, serial: nat): string {
    "INV-" + stamp + "-" + Decimal.Pad4(serial)
  }

  /** The position of the last occurrence of `c` in `s`. */
  function LastIndex(s: string, c: char): (r: Option<nat>)
    ensures r.None? <==> forall j :: 0 <= j < |s| ==> s[j] != c
    ensures r.Some? ==> r.value < |s| && s[r.value] == c && forall j :: r.value < j < |s| ==> s[j] != c
  {
    if s == [] then None
    else if s[|s| - 1] == c then Some(|s| - 1)
    else LastIndex(s[..|s| - 1], c)
  }

  /** Splits an invoice number back into its stamp and its serial: the serial
      is the run of digits after the last dash. */
  function ParseInvoice(s: string): Option<(string, nat)> {
    if |s| < 4 || s[..4] != "INV-" then None
    else
      var rest := s[4..];
      match LastIndex(rest, '-')
      case None => None
      case Some(k) =>
        var tail := rest[k + 1..];
        if tail != [] && Decimal.AllDigits(tail) then Some((rest[..k], Decimal.Value(tail))) else None
  }

  /** The serial an invoice number carries, if it is well formed. */
  function InvoiceSerial(s: string): Option<nat> {
    match ParseInvoice(s)
    case None => None
    case Some(p) => Some(p.1)
  }

  /** After `stamp + "-" + tail`, with no dash in `tail`, the last dash is the separator. */
  lemma {:induction false} LastDash(stamp: string, tail: string)
    requires forall j :: 0 <= j < |tail| ==> tail[j] != '-'
    ensures LastIndex(stamp + "-" + tail, '-') == Some(|stamp|)
    decreases |tail|
  {
    var s := stamp + "-" + tail;
    if tail != [] {
      var shorter := tail[..|tail| - 1];
      assert s[..|s| - 1] == stamp + "-" + shorter;
      assert s[|s| - 1] == tail[|tail| - 1];
      LastDash(stamp, shorter);
    }
  }

  /** Parsing `INV-<stamp>-<digits>` gives the stamp and the digits' value. */
  lemma ParseInvoiceParts(stamp: string, digits: string)
    requires digits != [] && Decimal.AllDigits(digits)
    ensures ParseInvoice("INV-" + stamp + "-" + digits) == Some((stamp, Decimal.Value(digits)))
  {
    forall j | 0 <= j < |digits| ensures digits[j] != '-' {
      assert Decimal.IsDigit(digits[j]);
    }
    var rest := stamp + "-" + digits;
    LastDash(stamp, digits);
    assert rest[|stamp| + 1..] == digits;
    assert rest[..|stamp|] == stamp;
    var s := "INV-" + rest;
    assert s[..4] == "INV-" && s[4..] == rest;
    assert s == "INV-" + stamp + "-" + digits;
  }

  lemma InvoiceNumberRoundTrip(stamp: string, serial: nat)
    ensures ParseInvoice(InvoiceNumber(stamp, serial)) == Some((stamp, serial))
  {
    ParseInvoiceParts(stamp, Decimal.Pad4(serial));
  }

  /** Distinct (stamp, serial) pairs give distinct invoice numbers; in
      particular distinct ids give distinct invoice numbers. */
  lemma InvoiceNumberInjective(stamp1: string, serial1: nat, stamp2: string, serial2: nat)
    requires InvoiceNumber(stamp1, serial1) == InvoiceNumber(stamp2, serial2)
    ensures stamp1 == stamp2 && serial1 == serial2
  {
    InvoiceNumberRoundTrip(stamp1, serial1);
    InvoiceNumberRoundTrip(stamp2, serial2);
  }

  /** The record stored for a validated form when the ledger already holds
      `count` records. */
  function Enrol(count: nat, form: Form, clock: Clock, rate: int): Registration {
    var serial := count + 1;
    Registration(serial, clock.iso, form.station, form.district, form.church,
                 form.leaderName, form.leaderPhone, form.attendees,
                 rate * |form.attendees|, InvoiceNumber(clock.stamp, serial), false)
  }

  /** The invoice issued for a validated form when the ledger already holds
      `count` records; it is built separately from the record and agrees with it. */
  function IssueInvoice(count: nat, form: Form, clock: Clock, rate: int): (inv: Invoice)
    ensures inv.invoiceNumber == Enrol(count, form, clock, rate).invoiceNumber
    ensures inv.accountNumber == inv.invoiceNumber
    ensures inv.amount == Enrol(count, form, clock, rate).amount
    ensures inv.attendees == |Enrol(count, form, clock, rate).attendees|
    ensures inv.date == clock.day
  {
    var number := InvoiceNumber(clock.stamp, count + 1);
    Invoice(number, rate * |form.attendees|, number, clock.day, |form.attendees|)
  }

  /** The ledger after a submission. */
  function Registered(rs: seq<Registration>, req: Request, clock: Clock, meeting: Meeting): (r: seq<Registration>)
    ensures clock.now > meeting.deadline ==> r == rs
    ensures Validate(req).Err? ==> r == rs
    ensures clock.now <= meeting.deadline && Validate(req).Ok? ==>
              |r| == |rs| + 1 && r[..|rs|] == rs &&
              r[|rs|].id == |rs| + 1 &&
              r[|rs|].timestamp == clock.iso &&
              r[|rs|].station == req.station.value &&
              r[|rs|].district == req.district.value &&
              r[|rs|].church == req.church.value &&
              r[|rs|].leaderName == req.leaderName.value &&
              r[|rs|].leaderPhone == req.leaderPhone.value &&
              r[|rs|].attendees == req.attendees.value &&
              r[|rs|].amount == meeting.registrationAmount * |req.attendees.value| &&
              r[|rs|].invoiceNumber == InvoiceNumber(clock.stamp, |rs| + 1) &&
              !r[|rs|].paid
  {
    match Admit(req, clock, meeting)
    case Err(_) => rs
    case Ok(form) => rs + [Enrol(|rs|, form, clock, meeting.registrationAmount)]
  }

  /** The response to a submission. */
  function Response(rs: seq<Registration>, req: Request, clock: Clock, meeting: Meeting): (r: Result<Receipt, Error>)
    ensures clock.now > meeting.deadline ==> r == Err(DeadlinePassed)
    ensures r.Err? <==> Registered(rs, req, clock, meeting) == rs
    ensures r.Err? ==> r.error == Admit(req, clock, meeting).error
    ensures r.Ok? ==>
              var rec := Registered(rs, req, clock, meeting)[|rs|];
              r.value.message == SuccessMessage &&
              r.value.registrationId == rec.id &&
              r.value.invoice.invoiceNumber == rec.invoiceNumber &&
              r.value.invoice.accountNumber == rec.invoiceNumber &&
              r.value.invoice.amount == rec.amount &&
              r.value.invoice.attendees == |rec.attendees| &&
              r.value.invoice.date == clock.day
  {
    match Admit(req, clock, meeting)
    case Err(e) => Err(e)
    case Ok(form) =>
      var rate := meeting.registrationAmount;
      Ok(Receipt(SuccessMessage, IssueInvoice(|rs|, form, clock, rate), Enrol(|rs|, form, clock, rate).id))
  }

  /** The ledger invariant: ids run 1..n in order, each invoice number carries
      its record's id as serial, and every record has a non-empty list of
      complete attendees. */
  predicate WellFormed(rs: seq<Registration>) {
    forall i :: 0 <= i < |rs| ==>
      rs[i].id == i + 1 &&
      InvoiceSerial(rs[i].invoiceNumber) == Some(i + 1) &&
      |rs[i].attendees| > 0 &&
      forall k :: 0 <= k < |rs[i].attendees| ==> Complete(rs[i].attendees[k])
  }

  /** In a well-formed ledger ids and invoice numbers are unique. */
  lemma WellFormedUnique(rs: seq<Registration>)
    requires WellFormed(rs)
    ensures forall i, j :: 0 <= i < j < |rs| ==> rs[i].id != rs[j].id
    ensures forall i, j :: 0 <= i < j < |rs| ==> rs[i].invoiceNumber != rs[j].invoiceNumber
  {
  }

  /** Appending the next record keeps the ledger well formed. */
  lemma WellFormedAppend(rs: seq<Registration>, rec: Registration)
    requires WellFormed(rs)
    requires rec.id == |rs| + 1 && InvoiceSerial(rec.invoiceNumber) == Some(|rs| + 1)
    requires |rec.attendees| > 0 && forall k :: 0 <= k < |rec.attendees| ==> Complete(rec.attendees[k])
    ensures WellFormed(rs + [rec])
  {
  }

  lemma RegisteredKeepsWellFormed(rs: seq<Registration>, req: Request, clock: Clock, meeting: Meeting)
    requires WellFormed(rs)
    ensures WellFormed(Registered(rs, req, clock, meeting))
  {
    match Admit(req, clock, meeting)
    case Err(_) =>
    case Ok(form) =>
      var rec := Enrol(|rs|, form, clock, meeting.registrationAmount);
      assert Registered(rs, req, clock, meeting) == rs + [rec];
      InvoiceNumberRoundTrip(clock.stamp, |rs| + 1);
      WellFormedAppend(rs, rec);
  }

  /** The position of the first record, at or after `i`, whose id is `id`. */
  function FirstWithId(rs: seq<Registration>, id: int, i: nat): (r: Option<nat>)
    requires i <= |rs|
    ensures r.None? <==> forall k :: i <= k < |rs| ==> rs[k].id != id
    ensures r.Some? ==> i <= r.value < |rs| && rs[r.value].id == id
    ensures r.Some? ==> forall k :: i <= k < r.value ==> rs[k].id != id
    decreases |rs| - i
  {
    if i == |rs| then None
    else if rs[i].id == id then Some(i)
    else FirstWithId(rs, id, i + 1)
  }

  /** The ledger after the payment for `id` is confirmed: the first record with
      that id is marked paid. */
  function Confirmed(rs: seq<Registration>, id: int): (r: seq<Registration>)
    ensures |r| == |rs|
    ensures forall k :: 0 <= k < |rs| ==> r[k].(paid := rs[k].paid) == rs[k]
    ensures forall k :: 0 <= k < |rs| ==>
              (r[k].paid <==> rs[k].paid || (rs[k].id == id && forall j :: 0 <= j < k ==> rs[j].id != id))
    ensures (forall k :: 0 <= k < |rs| ==> rs[k].id != id) ==> r == rs
  {
    match FirstWithId(rs, id, 0)
    case None => rs
    case Some(k) => rs[k := rs[k].(paid := true)]
  }

  /** Confirming twice is confirming once. */
  lemma ConfirmedIdempotent(rs: seq<Registration>, id: int)
    ensures Confirmed(Confirmed(rs, id), id) == Confirmed(rs, id)
  {
  }

  /** Confirmations of two payments may fire in either order. */
  lemma ConfirmedCommute(rs: seq<Registration>, a: int, b: int)
    ensures Confirmed(Confirmed(rs, a), b) == Confirmed(Confirmed(rs, b), a)
  {
  }

  /** In a well-formed ledger, confirming `id` marks exactly record `id - 1`
      as paid, and an id outside 1..n changes nothing. */
  lemma ConfirmedById(rs: seq<Registration>, id: int)
    requires WellFormed(rs)
    ensures 1 <= id <= |rs| ==> Confirmed(rs, id) == rs[id - 1 := rs[id - 1].(paid := true)]
    ensures !(1 <= id <= |rs|) ==> Confirmed(rs, id) == rs
  {
  }

  lemma ConfirmedKeepsWellFormed(rs: seq<Registration>, id: int)
    requires WellFormed(rs)
    ensures WellFormed(Confirmed(rs, id))
  {
  }

  /** The worked submission: two complete attendees, every key present. */
  function ExampleRequest(): Request {
    Request(Some("A"), Some("B"), Some("C"), Some("L"), Some("P"),
            Some([Attendee(Some("X"), Some(20)), Attendee(Some("Y"), Some(17))]))
  }

  function ExampleClock(): Clock {
    Clock(100, "2025-10-01T09:00:00", "2025-10-01", "2025-10-01T09:00:00.000000")
  }

  lemma ExampleValidates()
    ensures Validate(ExampleRequest()) == Ok(Form("A", "B", "C", "L", "P", ExampleRequest().attendees.value))
  {
    var attendees := ExampleRequest().attendees.value;
    assert Complete(attendees[0]) && Complete(attendees[1]);
  }

  /** A worked submission: two attendees at 1000 each, before the deadline,
      on an empty ledger, followed by the payment confirmation of id 1. The
      invoice number is `INV-<stamp>-0001` (`Decimal.Pad4Example`). */
  lemma FirstRegistrationExample()
    ensures
      var meeting := Meeting(200, 1000);
      var after := Registered([], ExampleRequest(), ExampleClock(), meeting);
      Response([], ExampleRequest(), ExampleClock(), meeting) ==
        Ok(Receipt(SuccessMessage,
                   Invoice(InvoiceNumber(ExampleClock().stamp, 1), 2000,
                           InvoiceNumber(ExampleClock().stamp, 1), "2025-10-01", 2),
                   1)) &&
      |after| == 1 && after[0].id == 1 && after[0].amount == 2000 && !after[0].paid &&
      Confirmed(after, 1)[0].paid
  {
    ExampleValidates();
    var form := Form("A", "B", "C", "L", "P", ExampleRequest().attendees.value);
    var rec := Enrol(0, form, ExampleClock(), 1000);
    var after := Registered([], ExampleRequest(), ExampleClock(), Meeting(200, 1000));
    assert after == [rec];
    assert FirstWithId(after, 1, 0) == Some(0);
  }

  /** The registration ledger, kept in insertion order. */
  class Ledger {
    var records: seq<Registration>

    ghost predicate Valid()
      reads this
    {
      WellFormed(records)
    }

    /** A ledger whose store is missing or unreadable starts empty. */
    constructor ()
      ensures records == [] && Valid()
    {
      records := [];
    }

    /** `POST /register`. */
    method Register(req: Request, clock: Clock, meeting: Meeting) returns (res: Result<Receipt, Error>)
      modifies this
      requires Valid()
      ensures res == Response(old(records), req, clock, meeting)
      ensures records == Registered(old(records), req, clock, meeting)
      ensures Valid()
    {
      if clock.now > meeting.deadline {
        return Err(DeadlinePassed);
      }
      for i := 0 to |RequiredFields|
        invariant FirstAbsent(req, i) == FirstAbsent(req, 0)
      {
        if !Has(req, RequiredFields[i]) {
          return Err(MissingField(RequiredFields[i]));
        }
      }
      var attendees := req.attendees.value;
      if |attendees| == 0 {
        return Err(NoAttendees);
      }
      for i := 0 to |attendees|
        invariant FirstIncomplete(attendees, i) == FirstIncomplete(attendees, 0)
      {
        if !Complete(attendees[i]) {
          return Err(IncompleteAttendee(i + 1));
        }
      }
      var form := Form(req.station.value, req.district.value, req.church.value,
                       req.leaderName.value, req.leaderPhone.value, attendees);
      var count := |records|;
      var invoice := IssueInvoice(count, form, clock, meeting.registrationAmount);
      var registration := Enrol(count, form, clock, meeting.registrationAmount);
      RegisteredKeepsWellFormed(records, req, clock, meeting);
      records := records + [registration];
      return Ok(Receipt(SuccessMessage, invoice, registration.id));
    }

    /** The body of the delayed payment confirmation: the first record with
        the given id is marked paid; `found` tells whether the ledger was
        saved. */
    method Confirm(id: int) returns (found: bool)
      modifies this
      ensures found <==> exists k :: 0 <= k < |old(records)| && old(records)[k].id == id
      requires Valid()
      ensures records == Confirmed(old(records), id)
      ensures Valid()
    {
      ConfirmedKeepsWellFormed(records, id);
      for i := 0 to |records|
        invariant FirstWithId(records, id, i) == FirstWithId(records, id, 0)
      {
        if records[i].id == id {
          records := records[i := records[i].(paid := true)];
          return true;
        }
      }
      return false;
    }
  }
}
