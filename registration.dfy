/**
 * What registering a reservation does to the store, as one sequential
 * transaction: the seat phase (fare-type re-check, seat read, decrement,
 * update) over the legs in order, the reservation insert, and the leg and
 * passenger inserts; any failure leaves the store as it was.
 */
module Registration {
  import opened TicketTypes

  /** The statements whose affected-row count the service checks, in issue order. */
  datatype Statement =
    | UpdateFlight(leg: nat)
    | InsertReservation
    | InsertReserveFlight(leg: nat)
    | InsertPassenger(leg: nat, index: nat)

  datatype ReservationRow = ReservationRow(reserveNo: nat, reservation: Reservation)
  datatype ReserveFlightRow = ReserveFlightRow(reserveFlightNo: nat, reserveNo: nat, flight: FlightKey)
  datatype PassengerRow = PassengerRow(reserveFlightNo: nat, passenger: Passenger)

  /**
   * The tables the core reads and writes: vacant seats per flight key, the
   * member table, the three reservation tables, and the next numbers the
   * store will generate for a reservation and for a reserved leg.
   */
  datatype Store = Store(
    vacantNum: map<FlightKey, int>,
    members: map<string, Member>,
    reservations: seq<ReservationRow>,
    reserveFlights: seq<ReserveFlightRow>,
    passengers: seq<PassengerRow>,
    nextReserveNo: nat,
    nextReserveFlightNo: nat)

  /** The reservation number and the payment deadline handed back to the caller. */
  datatype TicketReserveDto = TicketReserveDto(reserveNo: nat, paymentDate: Date)

  /** The seats that the legs `legs` together ask of flight `k`. */
  function Demand(legs: seq<ReserveFlight>, k: FlightKey): nat
  {
    if |legs| == 0 then 0
    else (if KeyOf(legs[0].flight) == k then |legs[0].passengers| else 0) + Demand(legs[1..], k)
  }

  /** The seat phase on legs `legs[i..]`, starting from the vacant counts `vacant`. */
  function ReserveSeats(sh: Collaborators, vacant: map<FlightKey, int>, legs: seq<ReserveFlight>,
                        counts: Statement -> int, i: nat): (r: Result<map<FlightKey, int>>)
    requires i <= |legs|
    ensures r.Ok? ==> r.value.Keys == vacant.Keys
    ensures r.Err? ==> r.error != InvalidArgument
    decreases |legs| - i
  {
    if i == |legs| then Ok(vacant)
    else
      var f := legs[i].flight;
      var key := KeyOf(f);
      var n := |legs[i].passengers|;
      if !sh.isAvailableFareType(f.fareType, f.departureDate) then Err(Business(FareTypeUnavailable))
      else if key !in vacant then Err(NullReference)
      else if vacant[key] < n then Err(Business(SeatsInsufficient))
      else
        var c := counts(UpdateFlight(i));
        if c != 1 then Err(RowCountMismatch(c))
        else ReserveSeats(sh, vacant[key := vacant[key] - n], legs, counts, i + 1)
  }

  /** Inserting the passengers `ps[j..]` of leg number `leg` under the leg row `reserveFlightNo`. */
  function InsertPassengers(st: Store, ps: seq<Passenger>, reserveFlightNo: nat, leg: nat,
                            counts: Statement -> int, j: nat): (r: Result<Store>)
    requires j <= |ps|
    ensures r.Ok? ==> && r.value.vacantNum == st.vacantNum && r.value.members == st.members
                      && r.value.reservations == st.reservations && r.value.reserveFlights == st.reserveFlights
                      && r.value.nextReserveNo == st.nextReserveNo && r.value.nextReserveFlightNo == st.nextReserveFlightNo
    ensures r.Ok? ==> |r.value.passengers| == |st.passengers| + |ps| - j
    decreases |ps| - j
  {
    if j == |ps| then Ok(st)
    else
      var c := counts(InsertPassenger(leg, j));
      if c != 1 then Err(RowCountMismatch(c))
      else InsertPassengers(st.(passengers := st.passengers + [PassengerRow(reserveFlightNo, ps[j])]),
                            ps, reserveFlightNo, leg, counts, j + 1)
  }

  /** Inserting the legs `legs[i..]` under reservation `reserveNo`, each followed by its passengers. */
  function InsertLegs(st: Store, legs: seq<ReserveFlight>, reserveNo: nat, counts: Statement -> int, i: nat): (r: Result<Store>)
    requires i <= |legs|
    ensures r.Ok? ==> && r.value.vacantNum == st.vacantNum && r.value.members == st.members
                      && r.value.reservations == st.reservations && r.value.nextReserveNo == st.nextReserveNo
                      && r.value.nextReserveFlightNo == st.nextReserveFlightNo + (|legs| - i)
    decreases |legs| - i
  {
    if i == |legs| then Ok(st)
    else
      var id := st.nextReserveFlightNo;
      var st1 := st.(reserveFlights := st.reserveFlights + [ReserveFlightRow(id, reserveNo, KeyOf(legs[i].flight))],
                     nextReserveFlightNo := id + 1);
      var c := counts(InsertReserveFlight(i));
      if c != 1 then Err(RowCountMismatch(c))
      else
        match InsertPassengers(st1, legs[i].passengers, id, i, counts, 0)
        case Err(e) => Err(e)
        case Ok(st2) => InsertLegs(st2, legs, reserveNo, counts, i + 1)
  }

  /** The whole transaction: its result and the store after commit or rollback. */
  function Register(sh: Collaborators, st: Store, res: Reservation, counts: Statement -> int): (r: (Result<TicketReserveDto>, Store))
    ensures r.0.Err? ==> r.1 == st
    ensures r.0.Ok? ==> && |res.legs| > 0 && r.0.value.reserveNo == st.nextReserveNo
                        && r.0.value.paymentDate == res.legs[0].flight.departureDate
                        && r.1.nextReserveNo == st.nextReserveNo + 1
    ensures r.1.members == st.members
  {
    var legs := res.legs;
    // The argument assertion on the leg list comes before any statement.
    if |legs| == 0 then (Err(InvalidArgument), st)
    else
      match ReserveSeats(sh, st.vacantNum, legs, counts, 0)
      case Err(e) => (Err(e), st)
      case Ok(vacant) =>
        var no := st.nextReserveNo;
        var st1 := st.(vacantNum := vacant, reservations := st.reservations + [ReservationRow(no, res)],
                       nextReserveNo := no + 1);
        var c := counts(InsertReservation);
        if c != 1 then (Err(RowCountMismatch(c)), st)
        else
          match InsertLegs(st1, legs, no, counts, 0)
          case Err(e) => (Err(e), st)
          case Ok(st2) => (Ok(TicketReserveDto(no, legs[0].flight.departureDate)), st2)
  }

  // ---------------------------------------------------------------------------
  // Reference definitions of the rows a successful registration adds.

  /** The leg rows of `legs`, numbered from `firstNo`, all under reservation `reserveNo`. */
  function LegRows(legs: seq<ReserveFlight>, reserveNo: nat, firstNo: nat): (rows: seq<ReserveFlightRow>)
    ensures |rows| == |legs|
  {
    seq(|legs|, k requires 0 <= k < |legs| => ReserveFlightRow(firstNo + k, reserveNo, KeyOf(legs[k].flight)))
  }

  /** The passenger rows of one leg, all stamped with that leg's number. */
  function PassengerRows(ps: seq<Passenger>, reserveFlightNo: nat): (rows: seq<PassengerRow>)
    ensures |rows| == |ps|
  {
    seq(|ps|, j requires 0 <= j < |ps| => PassengerRow(reserveFlightNo, ps[j]))
  }

  /** The passenger rows of all legs in order, leg k stamped with `firstNo + k`. */
  function AllPassengerRows(legs: seq<ReserveFlight>, firstNo: nat): seq<PassengerRow>
  {
    if |legs| == 0 then []
    else PassengerRows(legs[0].passengers, firstNo) + AllPassengerRows(legs[1..], firstNo + 1)
  }

  /** The number of passengers over all legs. */
  function PassengerTotal(legs: seq<ReserveFlight>): nat
  {
    if |legs| == 0 then 0 else |legs[0].passengers| + PassengerTotal(legs[1..])
  }

  /** Every vacant count is non-negative. */
  ghost predicate SeatsNonNegative(vacant: map<FlightKey, int>)
  {
    forall k :: k in vacant ==> vacant[k] >= 0
  }

  /** The errors a registration may end with; a row-count fault never reports a count of one. */
  predicate RegisterError(e: TicketError)
  {
    || e == InvalidArgument
    || e == Business(FareTypeUnavailable)
    || e == Business(SeatsInsufficient)
    || e == NullReference
    || (e.RowCountMismatch? && e.count != 1)
  }

  // ---------------------------------------------------------------------------
  // The seat phase.

  /**
   * Seat conservation: a successful seat phase lowers each flight's vacant
   * count by exactly the seats its legs asked for, touches no other key, and
   * leaves every flight it touched at zero seats or more.
   */
  lemma {:induction false} ReserveSeatsConserves(sh: Collaborators, vacant: map<FlightKey, int>, legs: seq<ReserveFlight>,
                                                 counts: Statement -> int, i: nat, after: map<FlightKey, int>)
    requires i <= |legs|
    requires ReserveSeats(sh, vacant, legs, counts, i) == Ok(after)
    ensures after.Keys == vacant.Keys
    ensures forall k :: k in vacant ==> after[k] == vacant[k] - Demand(legs[i..], k)
    ensures forall j :: i <= j < |legs| ==> KeyOf(legs[j].flight) in after && after[KeyOf(legs[j].flight)] >= 0
    decreases |legs| - i
  {
    if i < |legs| {
      var key := KeyOf(legs[i].flight);
      var n := |legs[i].passengers|;
      var v1 := vacant[key := vacant[key] - n];
      assert legs[i..][1..] == legs[i + 1..];
      ReserveSeatsConserves(sh, v1, legs, counts, i + 1, after);
      assert after[key] >= 0 by {
        if Demand(legs[i + 1..], key) == 0 {
          assert after[key] == v1[key];
        } else {
          var j := DemandTouches(legs[i + 1..], key);
          assert legs[i + 1..][j] == legs[i + 1 + j];
        }
      }
    }
  }

  /** A key asked for by some leg is the key of one of them. */
  lemma {:induction false} DemandTouches(legs: seq<ReserveFlight>, k: FlightKey) returns (j: nat)
    requires Demand(legs, k) > 0
    ensures j < |legs| && KeyOf(legs[j].flight) == k
  {
    if KeyOf(legs[0].flight) == k {
      j := 0;
    } else {
      var j' := DemandTouches(legs[1..], k);
      j := j' + 1;
    }
  }

  /** Oversold flights are refused: a seat phase asking more of a flight than it has cannot succeed. */
  lemma ReserveSeatsRefusesOversell(sh: Collaborators, vacant: map<FlightKey, int>, legs: seq<ReserveFlight>,
                                    counts: Statement -> int, k: FlightKey)
    requires k in vacant && 0 < Demand(legs, k) && vacant[k] < Demand(legs, k)
    ensures ReserveSeats(sh, vacant, legs, counts, 0).Err?
  {
    if ReserveSeats(sh, vacant, legs, counts, 0).Ok? {
      var after := ReserveSeats(sh, vacant, legs, counts, 0).value;
      ReserveSeatsConserves(sh, vacant, legs, counts, 0, after);
      assert legs[0..] == legs;
      var j := DemandTouches(legs, k);
    }
  }

  /**
   * The converse: when every leg's fare type is on sale, every leg's flight
   * exists, every update reports one row, and no flight is asked for more
   * seats than it has, the seat phase succeeds.
   */
  lemma {:induction false} ReserveSeatsSucceeds(sh: Collaborators, vacant: map<FlightKey, int>, legs: seq<ReserveFlight>,
                                                counts: Statement -> int, i: nat)
    requires i <= |legs|
    requires forall j :: i <= j < |legs| ==> sh.isAvailableFareType(legs[j].flight.fareType, legs[j].flight.departureDate)
    requires forall j :: i <= j < |legs| ==> KeyOf(legs[j].flight) in vacant
    requires forall j :: i <= j < |legs| ==> counts(UpdateFlight(j)) == 1
    requires forall k :: k in vacant ==> Demand(legs[i..], k) <= vacant[k]
    ensures ReserveSeats(sh, vacant, legs, counts, i).Ok?
    decreases |legs| - i
  {
    if i < |legs| {
      var key := KeyOf(legs[i].flight);
      var n := |legs[i].passengers|;
      assert legs[i..][1..] == legs[i + 1..];
      assert Demand(legs[i..], key) == n + Demand(legs[i + 1..], key);
      var v1 := vacant[key := vacant[key] - n];
      forall k | k in v1
        ensures Demand(legs[i + 1..], k) <= v1[k]
      {
        assert Demand(legs[i..], k) == (if k == key then n else 0) + Demand(legs[i + 1..], k);
      }
      ReserveSeatsSucceeds(sh, v1, legs, counts, i + 1);
    }
  }

  /** A successful seat phase found every leg's fare type on sale for its departure date. */
  lemma {:induction false} ReserveSeatsChecksFareTypes(sh: Collaborators, vacant: map<FlightKey, int>, legs: seq<ReserveFlight>,
                                                       counts: Statement -> int, i: nat)
    requires i <= |legs|
    requires ReserveSeats(sh, vacant, legs, counts, i).Ok?
    ensures forall j :: i <= j < |legs| ==> sh.isAvailableFareType(legs[j].flight.fareType, legs[j].flight.departureDate)
    decreases |legs| - i
  {
    if i < |legs| {
      var key := KeyOf(legs[i].flight);
      ReserveSeatsChecksFareTypes(sh, vacant[key := vacant[key] - |legs[i].passengers|], legs, counts, i + 1);
    }
  }

  // ---------------------------------------------------------------------------
  // The insert phase.

  lemma {:induction false} InsertPassengersRows(st: Store, ps: seq<Passenger>, reserveFlightNo: nat, leg: nat,
                                               counts: Statement -> int, j: nat, after: Store)
    requires j <= |ps|
    requires InsertPassengers(st, ps, reserveFlightNo, leg, counts, j) == Ok(after)
    ensures after == st.(passengers := st.passengers + PassengerRows(ps[j..], reserveFlightNo))
    decreases |ps| - j
  {
    if j == |ps| {
      assert PassengerRows(ps[j..], reserveFlightNo) == [];
    } else {
      var st1 := st.(passengers := st.passengers + [PassengerRow(reserveFlightNo, ps[j])]);
      InsertPassengersRows(st1, ps, reserveFlightNo, leg, counts, j + 1, after);
      assert [PassengerRow(reserveFlightNo, ps[j])] + PassengerRows(ps[j + 1..], reserveFlightNo)
          == PassengerRows(ps[j..], reserveFlightNo);
    }
  }

  lemma InsertLegsRows(st: Store, legs: seq<ReserveFlight>, reserveNo: nat,
                       counts: Statement -> int, i: nat, after: Store)
    requires i <= |legs|
    requires InsertLegs(st, legs, reserveNo, counts, i) == Ok(after)
    ensures after.vacantNum == st.vacantNum && after.members == st.members
    ensures after.reservations == st.reservations && after.nextReserveNo == st.nextReserveNo
    ensures after.reserveFlights == st.reserveFlights + LegRows(legs[i..], reserveNo, st.nextReserveFlightNo)
    ensures after.passengers == st.passengers + AllPassengerRows(legs[i..], st.nextReserveFlightNo)
    ensures after.nextReserveFlightNo == st.nextReserveFlightNo + (|legs| - i)
  {
    InsertLegsLegRows(st, legs, reserveNo, counts, i, after);
    InsertLegsPassengerRows(st, legs, reserveNo, counts, i, after);
  }

  /** The leg rows a successful leg phase appends. */
  lemma {:induction false} InsertLegsLegRows(st: Store, legs: seq<ReserveFlight>, reserveNo: nat,
                                            counts: Statement -> int, i: nat, after: Store)
    requires i <= |legs|
    requires InsertLegs(st, legs, reserveNo, counts, i) == Ok(after)
    ensures after.reserveFlights == st.reserveFlights + LegRows(legs[i..], reserveNo, st.nextReserveFlightNo)
    decreases |legs| - i
  {
    if i == |legs| {
      assert legs[i..] == [];
    } else {
      var id := st.nextReserveFlightNo;
      var st1 := st.(reserveFlights := st.reserveFlights + [ReserveFlightRow(id, reserveNo, KeyOf(legs[i].flight))],
                     nextReserveFlightNo := id + 1);
      var st2 := InsertPassengers(st1, legs[i].passengers, id, i, counts, 0).value;
      assert InsertLegs(st2, legs, reserveNo, counts, i + 1) == Ok(after);
      assert st2.reserveFlights == st.reserveFlights + [ReserveFlightRow(id, reserveNo, KeyOf(legs[i].flight))];
      InsertLegsLegRows(st2, legs, reserveNo, counts, i + 1, after);
      RowsUnfold(legs, i, reserveNo, id);
      assert after.reserveFlights
          == st.reserveFlights + ([ReserveFlightRow(id, reserveNo, KeyOf(legs[i].flight))] + LegRows(legs[i + 1..], reserveNo, id + 1));
    }
  }

  /** The passenger rows a successful leg phase appends, each leg's under its own number. */
  lemma {:induction false} InsertLegsPassengerRows(st: Store, legs: seq<ReserveFlight>, reserveNo: nat,
                                                  counts: Statement -> int, i: nat, after: Store)
    requires i <= |legs|
    requires InsertLegs(st, legs, reserveNo, counts, i) == Ok(after)
    ensures after.passengers == st.passengers + AllPassengerRows(legs[i..], st.nextReserveFlightNo)
    decreases |legs| - i
  {
    if i == |legs| {
      assert legs[i..] == [];
    } else {
      var id := st.nextReserveFlightNo;
      var st1 := st.(reserveFlights := st.reserveFlights + [ReserveFlightRow(id, reserveNo, KeyOf(legs[i].flight))],
                     nextReserveFlightNo := id + 1);
      var st2 := InsertPassengers(st1, legs[i].passengers, id, i, counts, 0).value;
      InsertPassengersRows(st1, legs[i].passengers, id, i, counts, 0, st2);
      assert legs[i].passengers[0..] == legs[i].passengers;
      assert st2.passengers == st.passengers + PassengerRows(legs[i].passengers, id);
      assert st2.nextReserveFlightNo == id + 1;
      assert InsertLegs(st2, legs, reserveNo, counts, i + 1) == Ok(after);
      InsertLegsPassengerRows(st2, legs, reserveNo, counts, i + 1, after);
      assert after.passengers == st2.passengers + AllPassengerRows(legs[i + 1..], id + 1);
      RowsUnfold(legs, i, reserveNo, id);
      assert after.passengers
          == st.passengers + (PassengerRows(legs[i].passengers, id) + AllPassengerRows(legs[i + 1..], id + 1));
    }
  }

  lemma RowsUnfold(legs: seq<ReserveFlight>, i: nat, reserveNo: nat, id: nat)
    requires i < |legs|
    ensures LegRows(legs[i..], reserveNo, id)
         == [ReserveFlightRow(id, reserveNo, KeyOf(legs[i].flight))] + LegRows(legs[i + 1..], reserveNo, id + 1)
    ensures AllPassengerRows(legs[i..], id)
         == PassengerRows(legs[i].passengers, id) + AllPassengerRows(legs[i + 1..], id + 1)
  {
    assert legs[i..][1..] == legs[i + 1..];
    assert legs[i..][0] == legs[i];
  }

  /** With every row count one, the insert phases cannot fail. */
  lemma {:induction false} InsertPassengersCompletes(st: Store, ps: seq<Passenger>, reserveFlightNo: nat, leg: nat,
                                                    counts: Statement -> int, j: nat)
    requires j <= |ps|
    requires forall s :: counts(s) == 1
    ensures InsertPassengers(st, ps, reserveFlightNo, leg, counts, j).Ok?
    decreases |ps| - j
  {
    if j < |ps| {
      InsertPassengersCompletes(st.(passengers := st.passengers + [PassengerRow(reserveFlightNo, ps[j])]),
                                ps, reserveFlightNo, leg, counts, j + 1);
    }
  }

  lemma {:induction false} InsertLegsCompletes(st: Store, legs: seq<ReserveFlight>, reserveNo: nat,
                                              counts: Statement -> int, i: nat)
    requires i <= |legs|
    requires forall s :: counts(s) == 1
    ensures InsertLegs(st, legs, reserveNo, counts, i).Ok?
    decreases |legs| - i
  {
    if i < |legs| {
      var id := st.nextReserveFlightNo;
      var st1 := st.(reserveFlights := st.reserveFlights + [ReserveFlightRow(id, reserveNo, KeyOf(legs[i].flight))],
                     nextReserveFlightNo := id + 1);
      InsertPassengersCompletes(st1, legs[i].passengers, id, i, counts, 0);
      var st2 := InsertPassengers(st1, legs[i].passengers, id, i, counts, 0).value;
      InsertLegsCompletes(st2, legs, reserveNo, counts, i + 1);
    }
  }

  lemma {:induction false} InsertPassengersErrors(st: Store, ps: seq<Passenger>, reserveFlightNo: nat, leg: nat,
                                                 counts: Statement -> int, j: nat)
    requires j <= |ps|
    requires InsertPassengers(st, ps, reserveFlightNo, leg, counts, j).Err?
    ensures var e := InsertPassengers(st, ps, reserveFlightNo, leg, counts, j).error; e.RowCountMismatch? && e.count != 1
    decreases |ps| - j
  {
    if counts(InsertPassenger(leg, j)) == 1 {
      InsertPassengersErrors(st.(passengers := st.passengers + [PassengerRow(reserveFlightNo, ps[j])]),
                             ps, reserveFlightNo, leg, counts, j + 1);
    }
  }

  lemma {:induction false} InsertLegsErrors(st: Store, legs: seq<ReserveFlight>, reserveNo: nat,
                                           counts: Statement -> int, i: nat)
    requires i <= |legs|
    requires InsertLegs(st, legs, reserveNo, counts, i).Err?
    ensures var e := InsertLegs(st, legs, reserveNo, counts, i).error; e.RowCountMismatch? && e.count != 1
    decreases |legs| - i
  {
    var id := st.nextReserveFlightNo;
    var st1 := st.(reserveFlights := st.reserveFlights + [ReserveFlightRow(id, reserveNo, KeyOf(legs[i].flight))],
                   nextReserveFlightNo := id + 1);
    if counts(InsertReserveFlight(i)) == 1 {
      var r := InsertPassengers(st1, legs[i].passengers, id, i, counts, 0);
      if r.Err? {
        InsertPassengersErrors(st1, legs[i].passengers, id, i, counts, 0);
      } else {
        InsertLegsErrors(r.value, legs, reserveNo, counts, i + 1);
      }
    }
  }

  lemma {:induction false} ReserveSeatsErrors(sh: Collaborators, vacant: map<FlightKey, int>, legs: seq<ReserveFlight>,
                                             counts: Statement -> int, i: nat)
    requires i <= |legs|
    requires ReserveSeats(sh, vacant, legs, counts, i).Err?
    ensures RegisterError(ReserveSeats(sh, vacant, legs, counts, i).error)
    ensures ReserveSeats(sh, vacant, legs, counts, i).error != InvalidArgument
    decreases |legs| - i
  {
    var f := legs[i].flight;
    var key := KeyOf(f);
    var n := |legs[i].passengers|;
    if sh.isAvailableFareType(f.fareType, f.departureDate) && key in vacant && vacant[key] >= n
       && counts(UpdateFlight(i)) == 1 {
      ReserveSeatsErrors(sh, vacant[key := vacant[key] - n], legs, counts, i + 1);
    }
  }

  /** A missing-row dereference in the seat phase names a leg whose flight is not in the table. */
  lemma {:induction false} ReserveSeatsNullOnlyIf(sh: Collaborators, vacant: map<FlightKey, int>, legs: seq<ReserveFlight>,
                                                 counts: Statement -> int, i: nat) returns (j: nat)
    requires i <= |legs|
    requires ReserveSeats(sh, vacant, legs, counts, i) == Err(NullReference)
    ensures i <= j < |legs| && KeyOf(legs[j].flight) !in vacant
    decreases |legs| - i
  {
    var f := legs[i].flight;
    var key := KeyOf(f);
    var n := |legs[i].passengers|;
    if key !in vacant {
      j := i;
    } else {
      var rest := vacant[key := vacant[key] - n];
      assert rest.Keys == vacant.Keys;
      j := ReserveSeatsNullOnlyIf(sh, rest, legs, counts, i + 1);
    }
  }

  // ---------------------------------------------------------------------------
  // The whole transaction.

  /** All or nothing: a failed registration leaves every table and counter as it was. */
  lemma RegisterAtomic(sh: Collaborators, st: Store, res: Reservation, counts: Statement -> int)
    requires Register(sh, st, res, counts).0.Err?
    ensures Register(sh, st, res, counts).1 == st
  {
  }

  /**
   * A failure is one of the registration errors, a row-count fault is a
   * system error, not a business one, and a missing-row dereference names a
   * leg whose flight is not in the table.
   */
  lemma RegisterErrorKinds(sh: Collaborators, st: Store, res: Reservation, counts: Statement -> int)
    requires Register(sh, st, res, counts).0.Err?
    ensures RegisterError(Register(sh, st, res, counts).0.error)
    ensures Register(sh, st, res, counts).0.error == NullReference ==>
      exists j :: 0 <= j < |res.legs| && KeyOf(res.legs[j].flight) !in st.vacantNum
  {
    var legs := res.legs;
    if |legs| > 0 {
      var seats := ReserveSeats(sh, st.vacantNum, legs, counts, 0);
      if seats.Err? {
        ReserveSeatsErrors(sh, st.vacantNum, legs, counts, 0);
        if seats.error == NullReference {
          var j := ReserveSeatsNullOnlyIf(sh, st.vacantNum, legs, counts, 0);
        }
      } else if counts(InsertReservation) == 1 {
        var no := st.nextReserveNo;
        var st1 := st.(vacantNum := seats.value, reservations := st.reservations + [ReservationRow(no, res)],
                       nextReserveNo := no + 1);
        InsertLegsErrors(st1, legs, no, counts, 0);
      }
    }
  }

  /**
   * Once every flight has been updated, the only way left to fail is a
   * statement that reports a row count other than one (E_AR_A0_L9002).
   */
  lemma RegisterInsertFaults(sh: Collaborators, st: Store, res: Reservation, counts: Statement -> int)
    requires |res.legs| > 0
    requires ReserveSeats(sh, st.vacantNum, res.legs, counts, 0).Ok?
    requires Register(sh, st, res, counts).0.Err?
    ensures Register(sh, st, res, counts).0.error.RowCountMismatch?
    ensures Register(sh, st, res, counts).0.error.count != 1
  {
    if counts(InsertReservation) == 1 {
      var no := st.nextReserveNo;
      var st1 := st.(vacantNum := ReserveSeats(sh, st.vacantNum, res.legs, counts, 0).value,
                     reservations := st.reservations + [ReservationRow(no, res)], nextReserveNo := no + 1);
      InsertLegsErrors(st1, res.legs, no, counts, 0);
    }
  }

  /**
   * What a successful registration returns and commits: the generated
   * reservation number, the first leg's departure date as payment deadline,
   * one reservation row, one leg row per leg stamped with that number, one
   * passenger row per passenger stamped with its own leg's number, and every
   * flight lowered by exactly the seats its legs took, none below zero.
   */
  lemma RegisterCommits(sh: Collaborators, st: Store, res: Reservation, counts: Statement -> int)
    requires Register(sh, st, res, counts).0.Ok?
    ensures var (r, after) := Register(sh, st, res, counts);
      && |res.legs| > 0
      && r.value.reserveNo == st.nextReserveNo
      && r.value.paymentDate == res.legs[0].flight.departureDate
      && after.members == st.members
      && after.reservations == st.reservations + [ReservationRow(r.value.reserveNo, res)]
      && after.nextReserveNo == st.nextReserveNo + 1
      && after.reserveFlights == st.reserveFlights + LegRows(res.legs, r.value.reserveNo, st.nextReserveFlightNo)
      && after.passengers == st.passengers + AllPassengerRows(res.legs, st.nextReserveFlightNo)
      && after.nextReserveFlightNo == st.nextReserveFlightNo + |res.legs|
      && after.vacantNum.Keys == st.vacantNum.Keys
      && (forall k :: k in st.vacantNum ==> after.vacantNum[k] == st.vacantNum[k] - Demand(res.legs, k))
      && (forall j :: 0 <= j < |res.legs| ==>
            KeyOf(res.legs[j].flight) in after.vacantNum && after.vacantNum[KeyOf(res.legs[j].flight)] >= 0)
  {
    var legs := res.legs;
    var vacant := ReserveSeats(sh, st.vacantNum, legs, counts, 0).value;
    ReserveSeatsConserves(sh, st.vacantNum, legs, counts, 0, vacant);
    var no := st.nextReserveNo;
    var st1 := st.(vacantNum := vacant, reservations := st.reservations + [ReservationRow(no, res)],
                   nextReserveNo := no + 1);
    var st2 := InsertLegs(st1, legs, no, counts, 0).value;
    InsertLegsRows(st1, legs, no, counts, 0, st2);
    assert legs[0..] == legs;
  }

  /** When the store reports one row for every statement, a successful seat phase commits. */
  lemma RegisterCommitsAfterSeatPhase(sh: Collaborators, st: Store, res: Reservation, counts: Statement -> int)
    requires |res.legs| > 0
    requires forall s :: counts(s) == 1
    requires ReserveSeats(sh, st.vacantNum, res.legs, counts, 0).Ok?
    ensures Register(sh, st, res, counts).0.Ok?
  {
    var vacant := ReserveSeats(sh, st.vacantNum, res.legs, counts, 0).value;
    var no := st.nextReserveNo;
    var st1 := st.(vacantNum := vacant, reservations := st.reservations + [ReservationRow(no, res)],
                   nextReserveNo := no + 1);
    InsertLegsCompletes(st1, res.legs, no, counts, 0);
  }

  /**
   * A reservation whose fare types are all on sale, whose flights all exist
   * and which asks no flight for more seats than it has is registered when
   * the store reports one row for every statement.
   */
  lemma RegisterSucceedsWhenSeatsSuffice(sh: Collaborators, st: Store, res: Reservation, counts: Statement -> int)
    requires |res.legs| > 0
    requires forall s :: counts(s) == 1
    requires forall j :: 0 <= j < |res.legs| ==>
      sh.isAvailableFareType(res.legs[j].flight.fareType, res.legs[j].flight.departureDate)
    requires forall j :: 0 <= j < |res.legs| ==> KeyOf(res.legs[j].flight) in st.vacantNum
    requires forall k :: k in st.vacantNum ==> Demand(res.legs, k) <= st.vacantNum[k]
    ensures Register(sh, st, res, counts).0.Ok?
  {
    assert res.legs[0..] == res.legs;
    ReserveSeatsSucceeds(sh, st.vacantNum, res.legs, counts, 0);
    RegisterCommitsAfterSeatPhase(sh, st, res, counts);
  }

  /** A leg whose fare type is not on sale for its departure date makes the registration fail with nothing changed. */
  lemma RegisterRefusesUnavailableFareType(sh: Collaborators, st: Store, res: Reservation, counts: Statement -> int, j: nat)
    requires j < |res.legs|
    requires !sh.isAvailableFareType(res.legs[j].flight.fareType, res.legs[j].flight.departureDate)
    ensures Register(sh, st, res, counts).0.Err?
    ensures Register(sh, st, res, counts).1 == st
  {
    if ReserveSeats(sh, st.vacantNum, res.legs, counts, 0).Ok? {
      ReserveSeatsChecksFareTypes(sh, st.vacantNum, res.legs, counts, 0);
    }
  }

  /** A reservation asking more seats of a flight than it has fails and changes nothing. */
  lemma RegisterRefusesOversell(sh: Collaborators, st: Store, res: Reservation, counts: Statement -> int, k: FlightKey)
    requires k in st.vacantNum && 0 < Demand(res.legs, k) && st.vacantNum[k] < Demand(res.legs, k)
    ensures Register(sh, st, res, counts).0.Err?
    ensures Register(sh, st, res, counts).1 == st
  {
    if |res.legs| > 0 {
      ReserveSeatsRefusesOversell(sh, st.vacantNum, res.legs, counts, k);
    }
  }

  /** Registration keeps the flight table's invariant that no vacant count is negative. */
  lemma RegisterKeepsSeatsNonNegative(sh: Collaborators, st: Store, res: Reservation, counts: Statement -> int)
    requires SeatsNonNegative(st.vacantNum)
    ensures SeatsNonNegative(Register(sh, st, res, counts).1.vacantNum)
  {
    if Register(sh, st, res, counts).0.Ok? {
      RegisterCommits(sh, st, res, counts);
      var after := Register(sh, st, res, counts).1.vacantNum;
      forall k | k in after
        ensures after[k] >= 0
      {
        if Demand(res.legs, k) > 0 {
          var j := DemandTouches(res.legs, k);
        }
      }
    }
  }

  /** Every passenger row a registration adds points at the leg row of its own leg. */
  lemma {:induction false} PassengerRowsPointToTheirLeg(legs: seq<ReserveFlight>, firstNo: nat, q: nat)
    requires q < |AllPassengerRows(legs, firstNo)|
    ensures exists k, j ::
      (&& 0 <= k < |legs| && 0 <= j < |legs[k].passengers|
       && AllPassengerRows(legs, firstNo)[q] == PassengerRow(firstNo + k, legs[k].passengers[j]))
  {
    var head := PassengerRows(legs[0].passengers, firstNo);
    if q < |head| {
      assert AllPassengerRows(legs, firstNo)[q] == PassengerRow(firstNo + 0, legs[0].passengers[q]);
    } else {
      PassengerRowsPointToTheirLeg(legs[1..], firstNo + 1, q - |head|);
      var k, j :| && 0 <= k < |legs[1..]| && 0 <= j < |legs[1..][k].passengers|
        && AllPassengerRows(legs[1..], firstNo + 1)[q - |head|] == PassengerRow(firstNo + 1 + k, legs[1..][k].passengers[j]);
      assert AllPassengerRows(legs, firstNo)[q] == PassengerRow(firstNo + (k + 1), legs[k + 1].passengers[j]);
    }
  }

  /** Registration adds exactly one passenger row per passenger. */
  lemma {:induction false} AllPassengerRowsCount(legs: seq<ReserveFlight>, firstNo: nat)
    ensures |AllPassengerRows(legs, firstNo)| == PassengerTotal(legs)
  {
    if |legs| > 0 {
      AllPassengerRowsCount(legs[1..], firstNo + 1);
    }
  }
}
