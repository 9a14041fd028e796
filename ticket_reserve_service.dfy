/**
 * The ticket-reservation service: its configuration, the collaborators it
 * calls, and the store tables it reads and writes, with the fare calculation,
 * the member lookup, the ordered validation and the registration transaction
 * written as the step-by-step loops they are, each proved against the
 * specification functions of Fare, Validation and Registration.
 */
module TicketReserve {
  import opened Common
  import opened TicketTypes
  import opened Fare
  import opened Validation
  import opened Registration

  /** Java's whitespace characters in the Latin-1 range, as far as text checks go. */
  predicate IsWhitespace(c: char)
  {
    c == ' ' || c == '\t' || c == '\n' || c == '\r' || c == '\U{000B}' || c == '\U{000C}'
    || ('\U{001C}' <= c <= '\U{001F}')
  }

  /** The string is non-empty and holds a character other than whitespace. */
  predicate HasText(s: string)
  {
    exists i :: 0 <= i < |s| && !IsWhitespace(s[i])
  }

  class TicketReserveService {
    const representativeMinAge: int
    const adultPassengerMinAge: int
    const childFareRate: int
    const shared: Collaborators

    // The store: flight vacancies, members, the reservation tables and their id sequences.
    var vacantNum: map<FlightKey, int>
    var members: map<string, Member>
    var reservations: seq<ReservationRow>
    var reserveFlights: seq<ReserveFlightRow>
    var passengers: seq<PassengerRow>
    var nextReserveNo: nat
    var nextReserveFlightNo: nat

    /** The store as one value. */
    function State(): Store
      reads this
    {
      Store(vacantNum, members, reservations, reserveFlights, passengers, nextReserveNo, nextReserveFlightNo)
    }

    constructor (props: TicketProperties, sh: Collaborators, store: Store)
      ensures representativeMinAge == props.representativeMinAge
      ensures adultPassengerMinAge == props.adultPassengerMinAge
      ensures childFareRate == props.childFareRate
      ensures shared == sh
      ensures State() == store
    {
      representativeMinAge := props.representativeMinAge;
      adultPassengerMinAge := props.adultPassengerMinAge;
      childFareRate := props.childFareRate;
      shared := sh;
      vacantNum := store.vacantNum;
      members := store.members;
      reservations := store.reservations;
      reserveFlights := store.reserveFlights;
      passengers := store.passengers;
      nextReserveNo := store.nextReserveNo;
      nextReserveFlightNo := store.nextReserveFlightNo;
    }

    /**
     * The total fare of a booking: an argument error for an empty list or a
     * null element, otherwise the rounded sum of the leg fares, where children
     * are the passengers younger than the adult minimum age.
     */
    method CalculateTotalFare(flightList: seq<Option<Flight>>, passengerList: seq<Option<Passenger>>)
      returns (r: Result<int>)
      ensures r.Err? <==> |flightList| == 0 || |passengerList| == 0 || !AllPresent(flightList) || !AllPresent(passengerList)
      ensures r.Err? ==> r.error == InvalidArgument
      ensures r.Ok? ==>
        var childNum := ChildCount(passengerList, adultPassengerMinAge);
        var adultNum := AdultCount(passengerList, adultPassengerMinAge);
        && childNum + adultNum == |passengerList|
        && r.value == shared.ceilFare(FareSum(shared, childFareRate, flightList, adultNum, childNum))
      ensures r.Ok? && RoundsUpTo100(shared.ceilFare) ==>
        var sum := FareSum(shared, childFareRate, flightList,
                           AdultCount(passengerList, adultPassengerMinAge), ChildCount(passengerList, adultPassengerMinAge));
        r.value % 100 == 0 && sum <= r.value < sum + 100
    {
      if |flightList| == 0 || |passengerList| == 0 {
        return Err(InvalidArgument);
      }
      var childNum := 0;
      var i := 0;
      while i < |passengerList|
        invariant 0 <= i <= |passengerList|
        invariant AllPresent(passengerList[..i])
        invariant childNum == ChildCount(passengerList[..i], adultPassengerMinAge)
      {
        if passengerList[i].None? {
          assert !AllPresent(passengerList) by {
            assert passengerList[i].None?;
          }
          return Err(InvalidArgument);
        }
        assert passengerList[..i + 1][..i] == passengerList[..i];
        if passengerList[i].value.age < adultPassengerMinAge {
          childNum := childNum + 1;
        }
        i := i + 1;
      }
      assert passengerList[..i] == passengerList;
      ChildAdultPartition(passengerList, adultPassengerMinAge);
      var adultNum := |passengerList| - childNum;

      var totalFare := 0;
      var k := 0;
      while k < |flightList|
        invariant 0 <= k <= |flightList|
        invariant AllPresent(flightList[..k])
        invariant totalFare == FareSum(shared, childFareRate, flightList[..k], adultNum, childNum)
      {
        if flightList[k].None? {
          assert !AllPresent(flightList) by {
            assert flightList[k].None?;
          }
          return Err(InvalidArgument);
        }
        var flight := flightList[k].value;
        var baseFare := shared.calculateBasicFare(flight.basicFare, flight.boardingClassCd, flight.departureDate);
        var discountRate := flight.fareType.discountRate;
        var boardingFare := shared.calculateFare(baseFare, discountRate);
        var fare := boardingFare * adultNum + TruncDiv100(baseFare * (childFareRate - discountRate)) * childNum;
        assert fare == LegFare(shared, childFareRate, flight, adultNum, childNum);
        assert flightList[..k + 1][..k] == flightList[..k];
        totalFare := totalFare + fare;
        k := k + 1;
      }
      assert flightList[..k] == flightList;
      r := Ok(shared.ceilFare(totalFare));
    }

    /** The member lookup: an argument error unless the number has text, then the member if registered. */
    method FindMember(membershipNumber: string) returns (r: Result<Option<Member>>)
      ensures r.Err? <==> !HasText(membershipNumber)
      ensures r.Err? ==> r.error == InvalidArgument
      ensures r.Ok? ==> (r.value.Some? <==> membershipNumber in members)
      ensures r.Ok? && r.value.Some? ==> r.value.value == members[membershipNumber]
    {
      var i := 0;
      while i < |membershipNumber| && IsWhitespace(membershipNumber[i])
        invariant 0 <= i <= |membershipNumber|
        invariant forall j :: 0 <= j < i ==> IsWhitespace(membershipNumber[j])
      {
        i := i + 1;
      }
      if i == |membershipNumber| {
        return Err(InvalidArgument);
      }
      if membershipNumber in members {
        r := Ok(Some(members[membershipNumber]));
      } else {
        r := Ok(None);
      }
    }

    /** The business checks of a reservation, in their fixed order; it only reads the store. */
    method ValidateReservation(reservation: Reservation) returns (r: Outcome)
      ensures r == ValidationOutcome(representativeMinAge, members, reservation)
    {
      if |reservation.legs| == 0 {
        return Fail(InvalidArgument);
      }
      r := ValidateRepresentativeAge(reservation.repAge);
      if r.Fail? {
        return;
      }
      var legs := reservation.legs;
      r := ValidateFareType(legs);
      if r.Fail? {
        return;
      }
      r := ValidateRepresentativeMemberInfo(reservation);
      if r.Fail? {
        return;
      }
      r := ValidatePassengerMemberInfo(legs);
    }

    method ValidateRepresentativeAge(age: int) returns (r: Outcome)
      ensures r.Fail? <==> age < representativeMinAge
      ensures r.Fail? ==> r.error == Business(RepresentativeTooYoung(representativeMinAge))
    {
      if age < representativeMinAge {
        return Fail(Business(RepresentativeTooYoung(representativeMinAge)));
      }
      return Pass;
    }

    /** The fare-type rules, leg by leg; the first leg that breaks one decides. */
    method ValidateFareType(legs: seq<ReserveFlight>) returns (r: Outcome)
      ensures r == FirstFail(FareTypeOutcomes(legs))
    {
      var os := FareTypeOutcomes(legs);
      var i := 0;
      while i < |legs|
        invariant 0 <= i <= |legs|
        invariant forall k :: 0 <= k < i ==> os[k].Pass?
      {
        var fareType := legs[i].flight.fareType;
        var ps := legs[i].passengers;
        if |ps| == 0 {
          FirstFailAt(os, i);
          return Fail(InvalidArgument);
        }
        if fareType.cd == LD {
          var j := 0;
          while j < |ps|
            invariant 0 <= j <= |ps|
            invariant forall q :: 0 <= q < j ==> ps[q].gender != M
          {
            if ps[j].gender == M {
              FirstFailAt(os, i);
              return Fail(Business(LadiesDiscountMalePassenger));
            }
            j := j + 1;
          }
        } else if fareType.cd == GD {
          if |ps| < fareType.passengerMinNum {
            FirstFailAt(os, i);
            return Fail(Business(GroupDiscountTooFew(fareType.name, fareType.passengerMinNum)));
          }
        }
        assert os[i] == FareTypeOutcome(legs[i]);
        i := i + 1;
      }
      r := Pass;
    }

    /** The representative's identity against the member table, when a number was given. */
    method ValidateRepresentativeMemberInfo(reservation: Reservation) returns (r: Outcome)
      ensures r == RepresentativeOutcome(members, reservation)
    {
      var no := reservation.repMembershipNumber;
      if |no| > 0 {
        if no !in members {
          return Fail(Business(RepresentativeNotMember));
        }
        var repMember := members[no];
        if !(reservation.repFamilyName == repMember.kanaFamilyName
             && reservation.repGivenName == repMember.kanaGivenName
             && reservation.repGender == repMember.gender) {
          return Fail(Business(RepresentativeMismatch));
        }
      }
      return Pass;
    }

    /** Every passenger's identity against the member table, positions counted from 1 in each leg. */
    method ValidatePassengerMemberInfo(legs: seq<ReserveFlight>) returns (r: Outcome)
      ensures r == FirstFail(LegMemberOutcomes(members, legs))
    {
      var los := LegMemberOutcomes(members, legs);
      var i := 0;
      while i < |legs|
        invariant 0 <= i <= |legs|
        invariant forall k :: 0 <= k < i ==> los[k].Pass?
      {
        var ps := legs[i].passengers;
        if |ps| == 0 {
          FirstFailAt(los, i);
          return Fail(InvalidArgument);
        }
        var pos := PassengerOutcomes(members, ps);
        var position := 1;
        var j := 0;
        while j < |ps|
          invariant 0 <= j <= |ps| && position == j + 1
          invariant forall q :: 0 <= q < j ==> pos[q].Pass?
        {
          var p := ps[j];
          var no := p.membershipNumber;
          if |no| > 0 {
            if no !in members {
              FirstFailAt(pos, j);
              FirstFailAt(los, i);
              return Fail(Business(PassengerNotMember(position)));
            }
            var m := members[no];
            if !(p.familyName == m.kanaFamilyName && p.givenName == m.kanaGivenName && p.gender == m.gender) {
              FirstFailAt(pos, j);
              FirstFailAt(los, i);
              return Fail(Business(PassengerMismatch(position)));
            }
          }
          position := position + 1;
          j := j + 1;
        }
        assert los[i] == LegMemberOutcome(members, legs[i]);
        i := i + 1;
      }
      r := Pass;
    }

    /** Puts every table and sequence back to `s`: the rollback of the transaction. */
    method Rollback(s: Store)
      requires s.members == members
      modifies this
      ensures State() == s
    {
      vacantNum := s.vacantNum;
      reservations := s.reservations;
      reserveFlights := s.reserveFlights;
      passengers := s.passengers;
      nextReserveNo := s.nextReserveNo;
      nextReserveFlightNo := s.nextReserveFlightNo;
    }

    /**
     * The seat phase of the transaction: for each leg in order, re-check the
     * fare type for the departure date, read the flight's vacancy, refuse a
     * shortfall, and write the lowered vacancy back. On failure the vacancy
     * map is left partly updated; `RegisterReservation` always rolls back then.
     */
    method ReserveSeatsInOrder(legs: seq<ReserveFlight>, counts: Statement -> int) returns (o: Outcome)
      modifies this
      ensures ReserveSeats(shared, old(vacantNum), legs, counts, 0) == if o.Pass? then Ok(vacantNum) else Err(o.error)
      ensures State() == old(State()).(vacantNum := vacantNum)
    {
      ghost var vacant0 := vacantNum;
      var i := 0;
      while i < |legs|
        invariant 0 <= i <= |legs|
        invariant ReserveSeats(shared, vacant0, legs, counts, 0) == ReserveSeats(shared, vacantNum, legs, counts, i)
        invariant State() == old(State()).(vacantNum := vacantNum)
      {
        var flight := legs[i].flight;
        if !shared.isAvailableFareType(flight.fareType, flight.departureDate) {
          return Fail(Business(FareTypeUnavailable));
        }
        var key := KeyOf(flight);
        if key !in vacantNum {
          return Fail(NullReference);
        }
        var vacant := vacantNum[key];
        var passengerNum := |legs[i].passengers|;
        if vacant < passengerNum {
          return Fail(Business(SeatsInsufficient));
        }
        vacantNum := vacantNum[key := vacant - passengerNum];
        var flightUpdateCount := counts(UpdateFlight(i));
        if flightUpdateCount != 1 {
          return Fail(RowCountMismatch(flightUpdateCount));
        }
        i := i + 1;
      }
      o := Pass;
    }

    /**
     * Inserts the passengers of leg number `leg`, each stamped with the leg
     * row's number. On failure the rows inserted so far stay; the caller,
     * `RegisterReservation`, always rolls back then.
     */
    method InsertPassengerRows(ps: seq<Passenger>, reserveFlightNo: nat, leg: nat, counts: Statement -> int)
      returns (o: Outcome)
      modifies this
      ensures InsertPassengers(old(State()), ps, reserveFlightNo, leg, counts, 0)
           == if o.Pass? then Ok(State()) else Err(o.error)
      ensures members == old(members)
    {
      ghost var start := State();
      var j := 0;
      while j < |ps|
        invariant 0 <= j <= |ps|
        invariant InsertPassengers(start, ps, reserveFlightNo, leg, counts, 0)
               == InsertPassengers(State(), ps, reserveFlightNo, leg, counts, j)
        invariant members == old(members)
      {
        passengers := passengers + [PassengerRow(reserveFlightNo, ps[j])];
        var passengerInsertCount := counts(InsertPassenger(leg, j));
        if passengerInsertCount != 1 {
          return Fail(RowCountMismatch(passengerInsertCount));
        }
        j := j + 1;
      }
      o := Pass;
    }

    /**
     * Inserts every leg under `reserveNo`, the store numbering each, then its
     * passengers. On failure the rows inserted so far stay; the caller,
     * `RegisterReservation`, always rolls back then.
     */
    method InsertLegRows(legs: seq<ReserveFlight>, reserveNo: nat, counts: Statement -> int) returns (o: Outcome)
      modifies this
      ensures InsertLegs(old(State()), legs, reserveNo, counts, 0) == if o.Pass? then Ok(State()) else Err(o.error)
      ensures members == old(members)
    {
      ghost var start := State();
      var i := 0;
      while i < |legs|
        invariant 0 <= i <= |legs|
        invariant InsertLegs(start, legs, reserveNo, counts, 0) == InsertLegs(State(), legs, reserveNo, counts, i)
        invariant members == old(members)
      {
        var reserveFlightNo := nextReserveFlightNo;
        reserveFlights := reserveFlights + [ReserveFlightRow(reserveFlightNo, reserveNo, KeyOf(legs[i].flight))];
        nextReserveFlightNo := nextReserveFlightNo + 1;
        var reserveFlightInsertCount := counts(InsertReserveFlight(i));
        if reserveFlightInsertCount != 1 {
          return Fail(RowCountMismatch(reserveFlightInsertCount));
        }
        o := InsertPassengerRows(legs[i].passengers, reserveFlightNo, i, counts);
        if o.Fail? {
          return;
        }
        i := i + 1;
      }
      o := Pass;
    }

    /**
     * Registers a reservation as one transaction and returns its number and
     * payment deadline. `counts` gives the affected-row count the store
     * reports for each statement. On any failure the store is rolled back.
     */
    method RegisterReservation(reservation: Reservation, counts: Statement -> int)
      returns (r: Result<TicketReserveDto>)
      modifies this
      ensures (r, State()) == Register(shared, old(State()), reservation, counts)
      ensures r.Err? ==> State() == old(State())
    {
      var snapshot := State();
      var legs := reservation.legs;
      if |legs| == 0 {
        return Err(InvalidArgument);
      }
      var o := ReserveSeatsInOrder(legs, counts);
      if o.Fail? {
        Rollback(snapshot);
        return Err(o.error);
      }

      // The reservation row; the store generates its number.
      var reserveNo := nextReserveNo;
      reservations := reservations + [ReservationRow(reserveNo, reservation)];
      nextReserveNo := nextReserveNo + 1;
      var reservationInsertCount := counts(InsertReservation);
      if reservationInsertCount != 1 {
        Rollback(snapshot);
        return Err(RowCountMismatch(reservationInsertCount));
      }

      o := InsertLegRows(legs, reserveNo, counts);
      if o.Fail? {
        Rollback(snapshot);
        return Err(o.error);
      }
      var paymentDate := legs[0].flight.departureDate;
      r := Ok(TicketReserveDto(reserveNo, paymentDate));
    }
  }
}
