/**
 * Which failure a registration ends with, and why: each error of the
 * seat phase is tied to the condition that raises it at the leg where it
 * is raised, the fare-type re-check comes before the flight is read, and
 * any affected-row count other than one makes the transaction fail.
 */
module RegistrationFailures {
  import opened TicketTypes
  import opened Registration

  // ---------------------------------------------------------------------------
  // One leg of the seat phase, with the vacancies as they stand at that leg.

  /** A leg whose fare type is off sale fails with E_AR_B2_2008 before its flight is read, whatever the vacancies. */
  lemma FareTypeCheckedFirst(sh: Collaborators, vacant: map<FlightKey, int>, legs: seq<ReserveFlight>,
                             counts: Statement -> int, i: nat)
    requires i < |legs|
    requires !sh.isAvailableFareType(legs[i].flight.fareType, legs[i].flight.departureDate)
    ensures ReserveSeats(sh, vacant, legs, counts, i) == Err(Business(FareTypeUnavailable))
  {
  }

  /** A leg on sale whose flight row is missing fails as the null dereference of the Java code. */
  lemma MissingFlightFails(sh: Collaborators, vacant: map<FlightKey, int>, legs: seq<ReserveFlight>,
                           counts: Statement -> int, i: nat)
    requires i < |legs|
    requires sh.isAvailableFareType(legs[i].flight.fareType, legs[i].flight.departureDate)
    requires KeyOf(legs[i].flight) !in vacant
    ensures ReserveSeats(sh, vacant, legs, counts, i) == Err(NullReference)
  {
  }

  /** A leg on sale asking more seats than its flight has left fails with E_AR_B2_2009. */
  lemma ShortfallFails(sh: Collaborators, vacant: map<FlightKey, int>, legs: seq<ReserveFlight>,
                       counts: Statement -> int, i: nat)
    requires i < |legs|
    requires sh.isAvailableFareType(legs[i].flight.fareType, legs[i].flight.departureDate)
    requires KeyOf(legs[i].flight) in vacant && vacant[KeyOf(legs[i].flight)] < |legs[i].passengers|
    ensures ReserveSeats(sh, vacant, legs, counts, i) == Err(Business(SeatsInsufficient))
  {
  }

  /** A leg whose seat update reports a row count other than one fails with that count. */
  lemma UpdateCountFails(sh: Collaborators, vacant: map<FlightKey, int>, legs: seq<ReserveFlight>,
                         counts: Statement -> int, i: nat)
    requires i < |legs|
    requires sh.isAvailableFareType(legs[i].flight.fareType, legs[i].flight.departureDate)
    requires KeyOf(legs[i].flight) in vacant && vacant[KeyOf(legs[i].flight)] >= |legs[i].passengers|
    requires counts(UpdateFlight(i)) != 1
    ensures ReserveSeats(sh, vacant, legs, counts, i) == Err(RowCountMismatch(counts(UpdateFlight(i))))
  {
  }

  // ---------------------------------------------------------------------------
  // Reaching leg j: the legs before it all passed and drew their seats.

  /** The vacancies after the legs `done` have drawn their seats. */
  function Drawn(vacant: map<FlightKey, int>, done: seq<ReserveFlight>): (r: map<FlightKey, int>)
    ensures r.Keys == vacant.Keys
  {
    map k | k in vacant :: vacant[k] - Demand(done, k)
  }

  /**
   * Every leg `m` in `i..j` passed its step: fare type on sale, flight row
   * present, enough seats once the earlier legs `legs[i..m]` drew theirs,
   * and one row updated.
   */
  ghost predicate StepsPass(sh: Collaborators, vacant: map<FlightKey, int>, legs: seq<ReserveFlight>,
                            counts: Statement -> int, i: nat, j: nat)
    requires i <= j <= |legs|
  {
    forall m :: i <= m < j ==>
      && sh.isAvailableFareType(legs[m].flight.fareType, legs[m].flight.departureDate)
      && KeyOf(legs[m].flight) in vacant
      && vacant[KeyOf(legs[m].flight)] - Demand(legs[i..m], KeyOf(legs[m].flight)) >= |legs[m].passengers|
      && counts(UpdateFlight(m)) == 1
  }

  /** The demand of `legs[i..m]` is leg i's share plus the demand of `legs[i + 1..m]`. */
  lemma DemandShift(legs: seq<ReserveFlight>, i: nat, m: nat, k: FlightKey)
    requires i < m <= |legs|
    ensures Demand(legs[i..m], k)
         == (if KeyOf(legs[i].flight) == k then |legs[i].passengers| else 0) + Demand(legs[i + 1..m], k)
  {
    assert legs[i..m][1..] == legs[i + 1..m];
    assert legs[i..m][0] == legs[i];
  }

  /** When legs `i..j` all pass, the seat phase from i is the seat phase from j on the drawn vacancies. */
  lemma {:induction false} ReserveSeatsReach(sh: Collaborators, vacant: map<FlightKey, int>, legs: seq<ReserveFlight>,
                                             counts: Statement -> int, i: nat, j: nat)
    requires i <= j <= |legs|
    requires StepsPass(sh, vacant, legs, counts, i, j)
    ensures ReserveSeats(sh, vacant, legs, counts, i) == ReserveSeats(sh, Drawn(vacant, legs[i..j]), legs, counts, j)
    decreases j - i
  {
    if i == j {
      assert legs[i..j] == [];
      assert Drawn(vacant, legs[i..j]) == vacant;
    } else {
      var key := KeyOf(legs[i].flight);
      var n := |legs[i].passengers|;
      assert legs[i..i] == [];
      var v1 := vacant[key := vacant[key] - n];
      assert ReserveSeats(sh, vacant, legs, counts, i) == ReserveSeats(sh, v1, legs, counts, i + 1);
      StepsPassShift(sh, vacant, legs, counts, i, j);
      ReserveSeatsReach(sh, v1, legs, counts, i + 1, j);
      DrawnShift(vacant, legs, i, j);
    }
  }

  /** After leg i drew its seats, legs `i + 1..j` still pass from the lowered vacancies. */
  lemma StepsPassShift(sh: Collaborators, vacant: map<FlightKey, int>, legs: seq<ReserveFlight>,
                       counts: Statement -> int, i: nat, j: nat)
    requires i < j <= |legs|
    requires KeyOf(legs[i].flight) in vacant
    requires StepsPass(sh, vacant, legs, counts, i, j)
    ensures var key := KeyOf(legs[i].flight);
      StepsPass(sh, vacant[key := vacant[key] - |legs[i].passengers|], legs, counts, i + 1, j)
  {
    var key := KeyOf(legs[i].flight);
    var v1 := vacant[key := vacant[key] - |legs[i].passengers|];
    forall m | i + 1 <= m < j
      ensures v1[KeyOf(legs[m].flight)] - Demand(legs[i + 1..m], KeyOf(legs[m].flight))
           == vacant[KeyOf(legs[m].flight)] - Demand(legs[i..m], KeyOf(legs[m].flight))
    {
      DemandShift(legs, i, m, KeyOf(legs[m].flight));
    }
  }

  /** Drawing leg i's seats and then those of `legs[i + 1..j]` is drawing those of `legs[i..j]`. */
  lemma DrawnShift(vacant: map<FlightKey, int>, legs: seq<ReserveFlight>, i: nat, j: nat)
    requires i < j <= |legs|
    requires KeyOf(legs[i].flight) in vacant
    ensures var key := KeyOf(legs[i].flight);
      Drawn(vacant[key := vacant[key] - |legs[i].passengers|], legs[i + 1..j]) == Drawn(vacant, legs[i..j])
  {
    var key := KeyOf(legs[i].flight);
    var v1 := vacant[key := vacant[key] - |legs[i].passengers|];
    forall k | k in vacant
      ensures Drawn(v1, legs[i + 1..j])[k] == Drawn(vacant, legs[i..j])[k]
    {
      DemandShift(legs, i, j, k);
    }
  }

  // ---------------------------------------------------------------------------
  // The seat-phase errors of a whole registration, at the first leg that fails.

  /**
   * When every leg before j passed, an off-sale fare type at leg j ends the
   * registration with E_AR_B2_2008 and the store unchanged.
   */
  lemma RegisterFareTypeUnavailableAt(sh: Collaborators, st: Store, res: Reservation, counts: Statement -> int, j: nat)
    requires j < |res.legs|
    requires StepsPass(sh, st.vacantNum, res.legs, counts, 0, j)
    requires !sh.isAvailableFareType(res.legs[j].flight.fareType, res.legs[j].flight.departureDate)
    ensures Register(sh, st, res, counts) == (Err(Business(FareTypeUnavailable)), st)
  {
    ReserveSeatsReach(sh, st.vacantNum, res.legs, counts, 0, j);
    FareTypeCheckedFirst(sh, Drawn(st.vacantNum, res.legs[0..j]), res.legs, counts, j);
  }

  /** When every leg before j passed, a missing flight row at leg j ends the registration as a null dereference. */
  lemma RegisterMissingFlightAt(sh: Collaborators, st: Store, res: Reservation, counts: Statement -> int, j: nat)
    requires j < |res.legs|
    requires StepsPass(sh, st.vacantNum, res.legs, counts, 0, j)
    requires sh.isAvailableFareType(res.legs[j].flight.fareType, res.legs[j].flight.departureDate)
    requires KeyOf(res.legs[j].flight) !in st.vacantNum
    ensures Register(sh, st, res, counts) == (Err(NullReference), st)
  {
    ReserveSeatsReach(sh, st.vacantNum, res.legs, counts, 0, j);
    MissingFlightFails(sh, Drawn(st.vacantNum, res.legs[0..j]), res.legs, counts, j);
  }

  /**
   * When every leg before j passed, leg j asking more seats than its flight
   * has left after those legs ends the registration with E_AR_B2_2009 and
   * the store unchanged.
   */
  lemma RegisterSeatsInsufficientAt(sh: Collaborators, st: Store, res: Reservation, counts: Statement -> int, j: nat)
    requires j < |res.legs|
    requires StepsPass(sh, st.vacantNum, res.legs, counts, 0, j)
    requires sh.isAvailableFareType(res.legs[j].flight.fareType, res.legs[j].flight.departureDate)
    requires KeyOf(res.legs[j].flight) in st.vacantNum
    requires st.vacantNum[KeyOf(res.legs[j].flight)] - Demand(res.legs[..j], KeyOf(res.legs[j].flight)) < |res.legs[j].passengers|
    ensures Register(sh, st, res, counts) == (Err(Business(SeatsInsufficient)), st)
  {
    assert res.legs[0..j] == res.legs[..j];
    ReserveSeatsReach(sh, st.vacantNum, res.legs, counts, 0, j);
    ShortfallFails(sh, Drawn(st.vacantNum, res.legs[0..j]), res.legs, counts, j);
  }

  /** When every leg before j passed, a seat update of leg j reporting a count other than one ends the registration with that count. */
  lemma RegisterUpdateCountAt(sh: Collaborators, st: Store, res: Reservation, counts: Statement -> int, j: nat)
    requires j < |res.legs|
    requires StepsPass(sh, st.vacantNum, res.legs, counts, 0, j)
    requires sh.isAvailableFareType(res.legs[j].flight.fareType, res.legs[j].flight.departureDate)
    requires KeyOf(res.legs[j].flight) in st.vacantNum
    requires st.vacantNum[KeyOf(res.legs[j].flight)] - Demand(res.legs[..j], KeyOf(res.legs[j].flight)) >= |res.legs[j].passengers|
    requires counts(UpdateFlight(j)) != 1
    ensures Register(sh, st, res, counts) == (Err(RowCountMismatch(counts(UpdateFlight(j)))), st)
  {
    assert res.legs[0..j] == res.legs[..j];
    ReserveSeatsReach(sh, st.vacantNum, res.legs, counts, 0, j);
    UpdateCountFails(sh, Drawn(st.vacantNum, res.legs[0..j]), res.legs, counts, j);
  }

  // ---------------------------------------------------------------------------
  // The converses: each seat-phase error has its cause at some leg.

  /** E_AR_B2_2008 is raised only for a leg whose fare type is off sale. */
  lemma {:induction false} FareTypeUnavailableOnlyIf(sh: Collaborators, vacant: map<FlightKey, int>, legs: seq<ReserveFlight>,
                                                     counts: Statement -> int, i: nat) returns (j: nat)
    requires i <= |legs|
    requires ReserveSeats(sh, vacant, legs, counts, i) == Err(Business(FareTypeUnavailable))
    ensures i <= j < |legs|
    ensures !sh.isAvailableFareType(legs[j].flight.fareType, legs[j].flight.departureDate)
    decreases |legs| - i
  {
    var key := KeyOf(legs[i].flight);
    if sh.isAvailableFareType(legs[i].flight.fareType, legs[i].flight.departureDate) {
      j := FareTypeUnavailableOnlyIf(sh, vacant[key := vacant[key] - |legs[i].passengers|], legs, counts, i + 1);
    } else {
      j := i;
    }
  }

  /**
   * E_AR_B2_2009 is raised only for a leg on sale whose flight has fewer
   * seats left, after the earlier legs drew theirs, than it asks for.
   */
  lemma {:induction false} SeatsInsufficientOnlyIf(sh: Collaborators, vacant: map<FlightKey, int>, legs: seq<ReserveFlight>,
                                                   counts: Statement -> int, i: nat) returns (j: nat)
    requires i <= |legs|
    requires ReserveSeats(sh, vacant, legs, counts, i) == Err(Business(SeatsInsufficient))
    ensures i <= j < |legs|
    ensures sh.isAvailableFareType(legs[j].flight.fareType, legs[j].flight.departureDate)
    ensures KeyOf(legs[j].flight) in vacant
    ensures vacant[KeyOf(legs[j].flight)] - Demand(legs[i..j], KeyOf(legs[j].flight)) < |legs[j].passengers|
    decreases |legs| - i
  {
    var key := KeyOf(legs[i].flight);
    var n := |legs[i].passengers|;
    if vacant[key] < n {
      j := i;
      assert legs[i..j] == [];
    } else {
      var v1 := vacant[key := vacant[key] - n];
      j := SeatsInsufficientOnlyIf(sh, v1, legs, counts, i + 1);
      DemandShift(legs, i, j, KeyOf(legs[j].flight));
    }
  }

  /** A registration refused with E_AR_B2_2008 has a leg whose fare type is off sale. */
  lemma RegisterFareTypeUnavailableOnlyIf(sh: Collaborators, st: Store, res: Reservation, counts: Statement -> int)
    returns (j: nat)
    requires Register(sh, st, res, counts).0 == Err(Business(FareTypeUnavailable))
    ensures j < |res.legs|
    ensures !sh.isAvailableFareType(res.legs[j].flight.fareType, res.legs[j].flight.departureDate)
  {
    InsertLegsErrorsAreCounts(sh, st, res, counts);
    j := FareTypeUnavailableOnlyIf(sh, st.vacantNum, res.legs, counts, 0);
  }

  /** A registration refused with E_AR_B2_2009 has a leg asking more seats than its flight has left after the earlier legs. */
  lemma RegisterSeatsInsufficientOnlyIf(sh: Collaborators, st: Store, res: Reservation, counts: Statement -> int)
    returns (j: nat)
    requires Register(sh, st, res, counts).0 == Err(Business(SeatsInsufficient))
    ensures j < |res.legs|
    ensures sh.isAvailableFareType(res.legs[j].flight.fareType, res.legs[j].flight.departureDate)
    ensures KeyOf(res.legs[j].flight) in st.vacantNum
    ensures st.vacantNum[KeyOf(res.legs[j].flight)] - Demand(res.legs[..j], KeyOf(res.legs[j].flight)) < |res.legs[j].passengers|
  {
    InsertLegsErrorsAreCounts(sh, st, res, counts);
    j := SeatsInsufficientOnlyIf(sh, st.vacantNum, res.legs, counts, 0);
    assert res.legs[0..j] == res.legs[..j];
  }

  /** A business error of a registration comes from its seat phase: the inserts fail only on row counts. */
  lemma InsertLegsErrorsAreCounts(sh: Collaborators, st: Store, res: Reservation, counts: Statement -> int)
    requires Register(sh, st, res, counts).0.Err?
    requires Register(sh, st, res, counts).0.error.Business?
    ensures |res.legs| > 0
    ensures ReserveSeats(sh, st.vacantNum, res.legs, counts, 0) == Err(Register(sh, st, res, counts).0.error)
  {
    var legs := res.legs;
    var seats := ReserveSeats(sh, st.vacantNum, legs, counts, 0);
    if seats.Ok? && counts(InsertReservation) == 1 {
      var no := st.nextReserveNo;
      var st1 := st.(vacantNum := seats.value, reservations := st.reservations + [ReservationRow(no, res)],
                     nextReserveNo := no + 1);
      InsertLegsErrors(st1, legs, no, counts, 0);
    }
  }

  // ---------------------------------------------------------------------------
  // Row counts: a commit means every statement reported exactly one row.

  /** A successful seat phase had every seat update report one row. */
  lemma {:induction false} ReserveSeatsOkCounts(sh: Collaborators, vacant: map<FlightKey, int>, legs: seq<ReserveFlight>,
                                                counts: Statement -> int, i: nat)
    requires i <= |legs|
    requires ReserveSeats(sh, vacant, legs, counts, i).Ok?
    ensures forall m :: i <= m < |legs| ==> counts(UpdateFlight(m)) == 1
    decreases |legs| - i
  {
    if i < |legs| {
      var key := KeyOf(legs[i].flight);
      ReserveSeatsOkCounts(sh, vacant[key := vacant[key] - |legs[i].passengers|], legs, counts, i + 1);
    }
  }

  /** Successful passenger inserts had every insert report one row. */
  lemma {:induction false} InsertPassengersOkCounts(st: Store, ps: seq<Passenger>, reserveFlightNo: nat, leg: nat,
                                                    counts: Statement -> int, j: nat)
    requires j <= |ps|
    requires InsertPassengers(st, ps, reserveFlightNo, leg, counts, j).Ok?
    ensures forall q :: j <= q < |ps| ==> counts(InsertPassenger(leg, q)) == 1
    decreases |ps| - j
  {
    if j < |ps| {
      InsertPassengersOkCounts(st.(passengers := st.passengers + [PassengerRow(reserveFlightNo, ps[j])]),
                               ps, reserveFlightNo, leg, counts, j + 1);
    }
  }

  /** Successful leg inserts had every leg insert and every passenger insert report one row. */
  lemma {:induction false} InsertLegsOkCounts(st: Store, legs: seq<ReserveFlight>, reserveNo: nat,
                                              counts: Statement -> int, i: nat)
    requires i <= |legs|
    requires InsertLegs(st, legs, reserveNo, counts, i).Ok?
    ensures forall m :: i <= m < |legs| ==> counts(InsertReserveFlight(m)) == 1
    ensures forall m, q :: i <= m < |legs| && 0 <= q < |legs[m].passengers| ==> counts(InsertPassenger(m, q)) == 1
    decreases |legs| - i
  {
    if i < |legs| {
      var id := st.nextReserveFlightNo;
      var st1 := st.(reserveFlights := st.reserveFlights + [ReserveFlightRow(id, reserveNo, KeyOf(legs[i].flight))],
                     nextReserveFlightNo := id + 1);
      var st2 := InsertPassengers(st1, legs[i].passengers, id, i, counts, 0);
      InsertPassengersOkCounts(st1, legs[i].passengers, id, i, counts, 0);
      InsertLegsOkCounts(st2.value, legs, reserveNo, counts, i + 1);
    }
  }

  /** The statements a registration of `legs` issues. */
  predicate Issued(legs: seq<ReserveFlight>, s: Statement)
  {
    match s
    case UpdateFlight(i) => i < |legs|
    case InsertReservation => true
    case InsertReserveFlight(i) => i < |legs|
    case InsertPassenger(i, q) => i < |legs| && q < |legs[i].passengers|
  }

  /** A committed registration had every statement it issued report exactly one row. */
  lemma RegisterOkMeansEveryCountOne(sh: Collaborators, st: Store, res: Reservation, counts: Statement -> int)
    requires Register(sh, st, res, counts).0.Ok?
    ensures forall s :: Issued(res.legs, s) ==> counts(s) == 1
  {
    var legs := res.legs;
    var seats := ReserveSeats(sh, st.vacantNum, legs, counts, 0);
    ReserveSeatsOkCounts(sh, st.vacantNum, legs, counts, 0);
    var no := st.nextReserveNo;
    var st1 := st.(vacantNum := seats.value, reservations := st.reservations + [ReservationRow(no, res)],
                   nextReserveNo := no + 1);
    InsertLegsOkCounts(st1, legs, no, counts, 0);
    forall s | Issued(legs, s)
      ensures counts(s) == 1
    {
      match s
      case UpdateFlight(i) =>
      case InsertReservation =>
      case InsertReserveFlight(i) =>
      case InsertPassenger(i, q) =>
    }
  }

  /** Any issued statement reporting a row count other than one makes the registration fail with the store unchanged. */
  lemma RegisterFailsOnBadCount(sh: Collaborators, st: Store, res: Reservation, counts: Statement -> int, s: Statement)
    requires Issued(res.legs, s) && counts(s) != 1
    ensures Register(sh, st, res, counts).0.Err?
    ensures Register(sh, st, res, counts).1 == st
  {
    if Register(sh, st, res, counts).0.Ok? {
      RegisterOkMeansEveryCountOne(sh, st, res, counts);
    }
  }
}
