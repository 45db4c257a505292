/** The administrative views over the registration ledger: the summary of
    totals with its per-station attendee tally, and the export that flattens
    the ledger into one row per attendee. Both read the stored list of
    registrations and change nothing. */
module Admin {
  import opened Wrappers
  import opened Registrations

  /** The number of attendees over all registrations. */
  function AttendeeTotal(rs: seq<Registration>): nat {
    if rs == [] then 0 else AttendeeTotal(rs[..|rs| - 1]) + |rs[|rs| - 1].attendees|
  }

  /** The sum of all amounts. */
  function AmountTotal(rs: seq<Registration>): int {
    if rs == [] then 0 else AmountTotal(rs[..|rs| - 1]) + rs[|rs| - 1].amount
  }

  /** What a registration contributes to the paid total. */
  function PaidPart(r: Registration): int {
    if r.paid then r.amount else 0
  }

  /** The sum of the amounts of the paid registrations only. */
  function PaidTotal(rs: seq<Registration>): (t: int)
    ensures (forall i :: 0 <= i < |rs| ==> !rs[i].paid) ==> t == 0
    ensures (forall i :: 0 <= i < |rs| ==> rs[i].paid) ==> t == AmountTotal(rs)
    ensures (forall i :: 0 <= i < |rs| ==> rs[i].amount >= 0) ==> 0 <= t <= AmountTotal(rs)
  {
    if rs == [] then 0 else PaidTotal(rs[..|rs| - 1]) + PaidPart(rs[|rs| - 1])
  }

  /** The stations that occur in the ledger. */
  function Stations(rs: seq<Registration>): set<string> {
    set i | 0 <= i < |rs| :: rs[i].station
  }

  /** The number of attendees registered at station `s`. */
  function StationAttendees(rs: seq<Registration>, s: string): nat {
    if rs == [] then 0
    else StationAttendees(rs[..|rs| - 1], s) + (if rs[|rs| - 1].station == s then |rs[|rs| - 1].attendees| else 0)
  }

  /** `counts[key] = counts.get(key, 0) + n`. */
  function Bump(counts: map<string, int>, key: string, n: int): map<string, int> {
    counts[key := (if key in counts then counts[key] else 0) + n]
  }

  /** A station that does not occur has no attendees. */
  lemma {:induction false} AbsentStation(rs: seq<Registration>, s: string)
    ensures s !in Stations(rs) ==> StationAttendees(rs, s) == 0
    decreases |rs|
  {
    if rs != [] && s !in Stations(rs) {
      var prefix := rs[..|rs| - 1];
      assert forall i :: 0 <= i < |prefix| ==> prefix[i] == rs[i];
      assert rs[|rs| - 1].station in Stations(rs);
      AbsentStation(prefix, s);
    }
  }

  /** The station tally accumulated over the registrations in order: each
      station starts at 0 and receives the attendee count of each of its
      registrations. */
  function Tally(rs: seq<Registration>): (m: map<string, int>)
    ensures m.Keys == Stations(rs)
    ensures forall s :: s in m ==> m[s] == StationAttendees(rs, s)
  {
    if rs == [] then map[]
    else
      var prefix := rs[..|rs| - 1];
      var last := rs[|rs| - 1];
      var m := Tally(prefix);
      assert Stations(rs) == Stations(prefix) + {last.station} by {
        forall s | s in Stations(rs) ensures s in Stations(prefix) + {last.station} {
          var i :| 0 <= i < |rs| && rs[i].station == s;
          if i < |rs| - 1 {
            assert prefix[i] == rs[i];
          }
        }
        forall s | s in Stations(prefix) ensures s in Stations(rs) {
          var i :| 0 <= i < |prefix| && prefix[i].station == s;
          assert rs[i] == prefix[i];
        }
      }
      AbsentStation(prefix, last.station);
      Bump(m, last.station, |last.attendees|)
  }

  /** The summary report. */
  datatype Summary = Summary(
    totalRegistrations: nat,
    totalAttendees: nat,
    totalAmount: int,
    paidAmount: int,
    stationsBreakdown: map<string, int>)

  /** The summary with the tally taken over every registration. */
  function SummaryOf(rs: seq<Registration>): Summary {
    Summary(|rs|, AttendeeTotal(rs), AmountTotal(rs), PaidTotal(rs), Tally(rs))
  }

  /** The summary as the route computes it: the response is returned from
      inside the tally loop, so there is no response for an empty ledger and
      the breakdown covers the first registration only. */
  function SummaryAsWritten(rs: seq<Registration>): (r: Option<Summary>)
    ensures r.None? <==> rs == []
    ensures r.Some? ==> r.value.stationsBreakdown == map[rs[0].station := |rs[0].attendees|]
    ensures r.Some? ==> r.value.(stationsBreakdown := Tally(rs)) == SummaryOf(rs)
  {
    if rs == [] then None
    else
      assert rs[..1][..0] == [];
      Some(Summary(|rs|, AttendeeTotal(rs), AmountTotal(rs), PaidTotal(rs), Tally(rs[..1])))
  }

  /** With a second station in the ledger, the breakdown as written leaves it
      out while the full tally has it. */
  lemma AsWrittenMissesStation(rs: seq<Registration>, i: nat)
    requires 0 < i < |rs| && rs[i].station != rs[0].station
    ensures rs[i].station in SummaryOf(rs).stationsBreakdown
    ensures rs[i].station !in SummaryAsWritten(rs).value.stationsBreakdown
  {
  }

  /** A concrete ledger of two registrations at stations "A" and "B". */
  lemma AsWrittenCounterexample()
    ensures
      var a := Registration(1, "t1", "A", "d", "c", "L", "P", [Attendee(Some("X"), Some(20))], 1000, "INV-t-0001", false);
      var b := Registration(2, "t2", "B", "d", "c", "L", "P", [Attendee(Some("Y"), Some(17))], 1000, "INV-t-0002", false);
      SummaryAsWritten([a, b]) == Some(Summary(2, 2, 2000, 0, map["A" := 1])) &&
      SummaryOf([a, b]).stationsBreakdown == map["A" := 1, "B" := 1] &&
      SummaryAsWritten([]) == None
  {
  }

  /** `GET /summary`, with the tally loop completed before responding. */
  method GetSummary(rs: seq<Registration>) returns (s: Summary)
    ensures s == SummaryOf(rs)
  {
    var stations: map<string, int> := map[];
    for i := 0 to |rs|
      invariant stations == Tally(rs[..i])
    {
      var station := rs[i].station;
      stations := Bump(stations, station, |rs[i].attendees|);
      assert rs[..i + 1][..i] == rs[..i];
    }
    assert rs[..|rs|] == rs;
    s := Summary(|rs|, AttendeeTotal(rs), AmountTotal(rs), PaidTotal(rs), stations);
  }

  /** `GET /summary` as the route is written: it responds from the first
      iteration of the tally loop. */
  method GetSummaryAsWritten(rs: seq<Registration>) returns (r: Option<Summary>)
    ensures r == SummaryAsWritten(rs)
  {
    var stations: map<string, int> := map[];
    for i := 0 to |rs|
      invariant i == 0 && stations == map[]
    {
      var station := rs[i].station;
      stations := Bump(stations, station, |rs[i].attendees|);
      assert rs[..1][..0] == [];
      return Some(Summary(|rs|, AttendeeTotal(rs), AmountTotal(rs), PaidTotal(rs), stations));
    }
    return None;
  }

  /** Changing one record changes the totals by the difference it makes. */
  lemma {:induction false} TotalsUpdate(rs: seq<Registration>, k: nat, x: Registration)
    requires k < |rs|
    ensures AttendeeTotal(rs[k := x]) == AttendeeTotal(rs) - |rs[k].attendees| + |x.attendees|
    ensures AmountTotal(rs[k := x]) == AmountTotal(rs) - rs[k].amount + x.amount
    ensures PaidTotal(rs[k := x]) == PaidTotal(rs) - PaidPart(rs[k]) + PaidPart(x)
    decreases |rs|
  {
    var n := |rs| - 1;
    var u := rs[k := x];
    if k == n {
      assert u[..n] == rs[..n];
    } else {
      assert u[..n] == rs[..n][k := x];
      TotalsUpdate(rs[..n], k, x);
    }
  }

  /** A confirmation adds the confirmed record's amount to the paid total if
      it was unpaid, and changes no other total. */
  lemma ConfirmedTotals(rs: seq<Registration>, id: int)
    ensures |Confirmed(rs, id)| == |rs|
    ensures AttendeeTotal(Confirmed(rs, id)) == AttendeeTotal(rs)
    ensures AmountTotal(Confirmed(rs, id)) == AmountTotal(rs)
    ensures PaidTotal(Confirmed(rs, id)) ==
              PaidTotal(rs) + match FirstWithId(rs, id, 0)
                              case None => 0
                              case Some(k) => if rs[k].paid then 0 else rs[k].amount
  {
    match FirstWithId(rs, id, 0)
    case None =>
    case Some(k) =>
      assert Confirmed(rs, id) == rs[k := rs[k].(paid := true)];
      TotalsUpdate(rs, k, rs[k].(paid := true));
  }

  /** A successful registration adds one registration, its attendees and its
      amount to the totals and leaves the paid total unchanged. */
  lemma RegisteredTotals(rs: seq<Registration>, req: Request, clock: Clock, meeting: Meeting)
    ensures Response(rs, req, clock, meeting).Ok? ==>
      var after := Registered(rs, req, clock, meeting);
      |after| == |rs| + 1 &&
      AttendeeTotal(after) == AttendeeTotal(rs) + |req.attendees.value| &&
      AmountTotal(after) == AmountTotal(rs) + meeting.registrationAmount * |req.attendees.value| &&
      PaidTotal(after) == PaidTotal(rs)
  {
    var after := Registered(rs, req, clock, meeting);
    if Response(rs, req, clock, meeting).Ok? {
      assert after[..|rs|] == rs;
    }
  }

  /** One exported row. */
  datatype Row = Row(
    registrationId: int,
    invoiceNumber: string,
    station: string,
    district: string,
    church: string,
    leaderName: string,
    leaderPhone: string,
    attendeeName: Option<string>,
    attendeeAge: Option<int>,
    amount: int,
    paid: bool,
    registrationDate: string)

  /** The row for attendee `a` of registration `reg`. */
  function RowFor(reg: Registration, a: Attendee): Row {
    Row(reg.id, reg.invoiceNumber, reg.station, reg.district, reg.church,
        reg.leaderName, reg.leaderPhone, a.name, a.age, reg.amount, reg.paid, reg.timestamp)
  }

  /** The rows of one registration, one per attendee in order. */
  function RowsOf(reg: Registration): seq<Row> {
    seq(|reg.attendees|, j requires 0 <= j < |reg.attendees| => RowFor(reg, reg.attendees[j]))
  }

  /** All rows of the export, registration by registration. */
  function ExportRows(rs: seq<Registration>): (rows: seq<Row>)
    ensures |rows| == AttendeeTotal(rs)
  {
    if rs == [] then [] else ExportRows(rs[..|rs| - 1]) + RowsOf(rs[|rs| - 1])
  }

  /** Attendee `j` of registration `i` is exported at position
      `AttendeeTotal(rs[..i]) + j`: rows follow registration order, then
      attendee order, and carry that registration's and attendee's values. */
  lemma {:induction false} ExportRowAt(rs: seq<Registration>, i: nat, j: nat)
    requires i < |rs| && j < |rs[i].attendees|
    ensures AttendeeTotal(rs[..i]) + j < |ExportRows(rs)|
    ensures ExportRows(rs)[AttendeeTotal(rs[..i]) + j] == RowFor(rs[i], rs[i].attendees[j])
    decreases |rs|
  {
    var n := |rs| - 1;
    var prefix := rs[..n];
    if i < n {
      assert prefix[..i] == rs[..i] && prefix[i] == rs[i];
      ExportRowAt(prefix, i, j);
    } else {
      assert rs[..i] == prefix;
    }
  }

  /** `GET /registrations/export`: the rows handed to the spreadsheet writer. */
  method Export(rs: seq<Registration>) returns (rows: seq<Row>)
    ensures rows == ExportRows(rs)
  {
    rows := [];
    for i := 0 to |rs|
      invariant rows == ExportRows(rs[..i])
    {
      var reg := rs[i];
      for j := 0 to |reg.attendees|
        invariant rows == ExportRows(rs[..i]) + RowsOf(reg)[..j]
      {
        rows := rows + [RowFor(reg, reg.attendees[j])];
        assert RowsOf(reg)[..j + 1] == RowsOf(reg)[..j] + [RowsOf(reg)[j]];
      }
      assert RowsOf(reg)[..|reg.attendees|] == RowsOf(reg);
      assert rs[..i + 1][..i] == rs[..i];
    }
    assert rs[..|rs|] == rs;
  }
}
