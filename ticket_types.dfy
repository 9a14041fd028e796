/**
 * The entities of the ticket-reservation core, its error codes, and the
 * "first failure wins" combinator that the ordered business checks use.
 */
module TicketTypes {
  import opened Common

  datatype Gender = M | F

  /** A departure date. Only equality is ever used, so it is an opaque day number. */
  datatype Date = Date(day: int)

  /**
   * Fare-type codes: ladies discount, group discount, and every other code.
   * By convention `OtherFareType` never holds "LD" or "GD": those two codes
   * are always the constructors `LD` and `GD`.
   */
  datatype FareTypeCd = LD | GD | OtherFareType(code: string)

  datatype FareType = FareType(
    cd: FareTypeCd,
    name: string,
    discountRate: int,      // percent taken off the basic fare
    passengerMinNum: int)   // minimum passengers for a group discount

  /** A scheduled flight as the caller sends it (route basic fare included). */
  datatype Flight = Flight(
    departureDate: Date,
    flightName: string,
    boardingClassCd: string,
    fareType: FareType,
    basicFare: int)

  /** The key under which the flight table is locked and updated. */
  datatype FlightKey = FlightKey(
    departureDate: Date,
    flightName: string,
    boardingClassCd: string,
    fareTypeCd: FareTypeCd)

  function KeyOf(f: Flight): FlightKey
  {
    FlightKey(f.departureDate, f.flightName, f.boardingClassCd, f.fareType.cd)
  }

  /** A passenger; an empty membership number means the field was left blank (or null). */
  datatype Passenger = Passenger(
    familyName: string,
    givenName: string,
    age: int,
    gender: Gender,
    membershipNumber: string)

  /** One leg of a reservation with its own ordered passenger list. */
  datatype ReserveFlight = ReserveFlight(flight: Flight, passengers: seq<Passenger>)

  datatype Reservation = Reservation(
    repFamilyName: string,
    repGivenName: string,
    repAge: int,
    repGender: Gender,
    repMembershipNumber: string,
    legs: seq<ReserveFlight>)

  /** A card member as stored in the member table (kana names). */
  datatype Member = Member(
    membershipNumber: string,
    kanaFamilyName: string,
    kanaGivenName: string,
    gender: Gender)

  /** The configuration values the service reads at construction. */
  datatype TicketProperties = TicketProperties(
    representativeMinAge: int,
    adultPassengerMinAge: int,
    childFareRate: int)

  /**
   * The services this core calls but whose code is not part of the model:
   * the basic fare of a route for a boarding class and date, the fare after a
   * fare-type discount, whether a fare type may be booked for a date, and the
   * rounding of a total fare.
   */
  datatype Collaborators = Collaborators(
    calculateBasicFare: (int, string, Date) -> int,
    calculateFare: (int, int) -> int,
    isAvailableFareType: (FareType, Date) -> bool,
    ceilFare: int -> int)

  /** The business errors of the reservation core, with their message codes. */
  datatype BusinessError =
    | RepresentativeNotMember                               // E_AR_B2_2002
    | RepresentativeMismatch                                // E_AR_B2_2003
    | RepresentativeTooYoung(minAge: int)                   // E_AR_B2_2004
    | PassengerNotMember(position: int)                     // E_AR_B2_2005
    | PassengerMismatch(position: int)                      // E_AR_B2_2006
    | LadiesDiscountMalePassenger                           // E_AR_B2_2007
    | FareTypeUnavailable                                   // E_AR_B2_2008
    | SeatsInsufficient                                     // E_AR_B2_2009
    | GroupDiscountTooFew(fareTypeName: string, minNum: int) // E_AR_B2_2010

  /**
   * Every way an operation of the core can end abnormally: a failed argument
   * assertion, a business error, a dereference of a missing row, and an
   * affected-row count other than one (a system error).
   */
  datatype TicketError =
    | InvalidArgument
    | Business(code: BusinessError)
    | NullReference
    | RowCountMismatch(count: int)

  datatype Result<T> = Ok(value: T) | Err(error: TicketError)

  datatype Outcome = Pass | Fail(error: TicketError)

  /** The outcome of running checks in order and stopping at the first failure. */
  function FirstFail(os: seq<Outcome>): (r: Outcome)
    ensures r.Pass? <==> forall i :: 0 <= i < |os| ==> os[i].Pass?
    ensures r.Fail? ==> exists i :: 0 <= i < |os| && os[i] == r && forall j :: 0 <= j < i ==> os[j].Pass?
  {
    if |os| == 0 then Pass
    else if os[0].Fail? then os[0]
    else
      var rest := FirstFail(os[1..]);
      assert forall i :: 1 <= i < |os| ==> os[i] == os[1..][i - 1];
      rest
  }

  /** A failing check preceded only by passing ones decides the outcome. */
  lemma {:induction false} FirstFailAt(os: seq<Outcome>, i: int)
    requires 0 <= i < |os| && os[i].Fail?
    requires forall j :: 0 <= j < i ==> os[j].Pass?
    ensures FirstFail(os) == os[i]
  {
    if i > 0 {
      assert forall j :: 0 <= j < i - 1 ==> os[1..][j] == os[j + 1];
      FirstFailAt(os[1..], i - 1);
    }
  }
}
