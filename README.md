# Ticket reservation core of the airline reservation system (ATRS), in Dafny

This project models the ticket-reservation service of the ATRS backend
(`TicketReserveService`) and the login input filter
(`AtrsUsernamePasswordAuthenticationFilter`), and proves properties of both.

- **Fare calculation.** It counts the child passengers, prices each flight
  leg from the basic fare and the fare-type discount, sums the legs, and
  rounds the total up to a multiple of 100 yen.
- **Reservation validation.** It runs a fixed sequence of read-only
  business checks and stops at the first failure:
  1. the representative's age;
  2. the ladies-discount and group-discount rules, leg by leg;
  3. the representative's identity against the member table;
  4. each passenger's identity, reported by 1-based position within its leg.
- **Reservation registration.** This is one transaction over the store.
  - For each leg in order, it re-checks the fare type, reads the flight's
    vacant seats, refuses a shortfall and writes the lowered count back.
  - It inserts the reservation, its legs and their passengers, passing the
    generated numbers down.
  - It returns the reservation number, with the first leg's departure date
    as the payment deadline.
  - Any failure rolls the store back.
- **Login input filter.** The membership number must have the configured
  length, and the password length must lie within the configured bounds.
  All three thresholds have defaults and setters.

Layout, one module per component:

| file | module | what it holds |
|---|---|---|
| `common.dfy` | `Common` | `Option` (a nullable reference) and `AllPresent` (no null element) |
| `ticket_types.dfy` | `TicketTypes` | the entities and error codes, `Result`/`Outcome`, and `FirstFail` (the first failure of a sequence of ordered checks) |
| `fare.dfy` | `Fare` | Java's truncating division by 100, child/adult counts, leg fare and sum, the round-up-to-100 contract |
| `validation.dfy` | `Validation` | what each validation check decides, and the whole ordered validation |
| `registration.dfy` | `Registration` | the store as a value and the transaction as functions; seat-conservation, atomicity and commit-shape lemmas |
| `registration_failures.dfy` | `RegistrationFailures` | which error a failed registration ends with and at which leg; row counts other than one always fail |
| `ticket_reserve_service.dfy` | `TicketReserve` | class `TicketReserveService`, described below |
| `auth_filter.dfy` | `AuthFilter` | the login filter's pure decision and its class with the three thresholds |

`TicketReserveService` holds the configuration and the collaborators as
constants and the store tables as fields. Its methods follow the Java methods,
loops included.

- The validators and the registration phases are proved equal to the
  matching specification function.
- `CalculateTotalFare`, `FindMember`, `ValidateRepresentativeAge` and
  `Rollback` state their result directly.

`RegistrationFailures` (`registration_failures.dfy`) ties each
registration error to the condition and the leg that raise it.

The collaborators whose code is not part of this model are function values
in the `Collaborators` record:

- `TicketSharedService.calculateBasicFare`, `calculateFare` and
  `isAvailableFareType`;
- `FareUtil.ceilFare`.

The affected-row count that the database reports for each update and insert
is an input to `RegisterReservation` (`counts: Statement -> int`). The store
generates reservation and leg numbers from two counters.

## Model

| member | source | states |
|---|---|---|
| `TicketReserve.TicketReserveService.constructor` | src/main/java/com/example/atrs/ticket/TicketReserveService.java:90-101 | the three configured thresholds come from the properties; the collaborators and store are the ones given |
| `TicketReserve.TicketReserveService.CalculateTotalFare` | src/main/java/com/example/atrs/ticket/TicketReserveService.java:110-161 | argument error exactly when a list is empty or has a null element; otherwise children + adults = passenger count, and the result is `ceilFare` of the sum of the leg fares; under the round-up contract it is a multiple of 100 in [sum, sum + 100) |
| `Fare.TruncDiv100` | src/main/java/com/example/atrs/ticket/TicketReserveService.java:150-151 | the quotient is truncated toward zero, as Java's `/` does: the remainder has the sign of the dividend and is below 100 in size |
| `Fare.ChildCount` | src/main/java/com/example/atrs/ticket/TicketReserveService.java:117-125 | the number of passengers younger than the adult minimum age never exceeds the list size |
| `Fare.ChildAdultPartition` | src/main/java/com/example/atrs/ticket/TicketReserveService.java:117-128 | with no null passenger, children plus passengers of adult age make up the whole list, so `size - childNum` is the adult count |
| `Fare.AdultCount` | src/main/java/com/example/atrs/ticket/TicketReserveService.java:128 | the passengers of adult age number at most the list size, and none when every present passenger is a child; `ChildAdultPartition` ties it to `size - childNum` |
| `Fare.LegFare` | src/main/java/com/example/atrs/ticket/TicketReserveService.java:142-151 | one leg's fare: with no passenger it is 0; with no child it is the boarding fare from `calculateFare` times the adults |
| `Fare.ChildFareRoundsDown` | src/main/java/com/example/atrs/ticket/TicketReserveService.java:150-151 | when the children's base share `base * (childFareRate - discountRate)` is non-negative, the children's share `base * (childFareRate - discountRate) / 100 * childNum` is rounded down: at least 0 and at most the exact share (for a negative base share Java's `/` rounds toward zero, that is, up) |
| `Fare.FareSum` | src/main/java/com/example/atrs/ticket/TicketReserveService.java:137-155 | the pre-rounding total: a single leg's total is that leg's fare, and with no passenger it is 0; with `FareSumAppend` the total is the sum of the leg fares |
| `Fare.FareSumAppend` | src/main/java/com/example/atrs/ticket/TicketReserveService.java:137-155 | the pre-rounding total is additive over legs: outbound plus return is the sum of the two |
| `Fare.CeilTo100` | src/main/java/com/example/atrs/ticket/TicketReserveService.java:157-158 | a reference rounding: a multiple of 100, at least the total and less than 100 above it |
| `Fare.CeilTo100RoundsUp` | src/main/java/com/example/atrs/ticket/TicketReserveService.java:157-158 | the reference rounding meets the round-up contract, so that contract can be satisfied |
| `Fare.RoundUpIsCeiling` | src/main/java/com/example/atrs/ticket/TicketReserveService.java:157-158 | any rounding that meets the round-up contract gives the smallest multiple of 100 not below the total |
| `Fare.OneAdultOneChildExample` | src/main/java/com/example/atrs/ticket/TicketReserveService.java:137-160 | one adult and one child at basic fare 10000, no discount, child rate 50 %: 15000 |
| `TicketReserve.TicketReserveService.FindMember` | src/main/java/com/example/atrs/ticket/TicketReserveService.java:169-174 | argument error exactly when the number has no non-whitespace character; otherwise the member under that number, or none when unregistered |
| `TicketTypes.FirstFail` | src/main/java/com/example/atrs/ticket/TicketReserveService.java:312-347 | checks run in order and the first failure wins: passes iff every check passes; a failure is the outcome of some check preceded only by passes |
| `TicketTypes.FirstFailAt` | src/main/java/com/example/atrs/ticket/TicketReserveService.java:359-397 | a failing check preceded only by passing checks is the result |
| `Validation.ValidationOutcome` | src/main/java/com/example/atrs/ticket/TicketReserveService.java:282-301 | the whole validation: no legs is an argument error; a too-young representative is E_AR_B2_2004 whatever else is wrong; every failure is an argument or business error, never a system fault |
| `Validation.LegMemberOutcome` | src/main/java/com/example/atrs/ticket/TicketReserveService.java:359-399 | a leg's passenger stage passes iff it has passengers and each of them, at its 1-based position, passes its identity check; failures are argument or business errors |
| `TicketReserve.TicketReserveService.ValidateReservation` | src/main/java/com/example/atrs/ticket/TicketReserveService.java:282-301 | empty leg list is an argument error; then age, fare types, representative, passengers, in that order, the first failure returned (the stage-by-stage lemmas of `Validation` below pin which error each stage reports); it writes nothing |
| `TicketReserve.TicketReserveService.ValidateRepresentativeAge` | src/main/java/com/example/atrs/ticket/TicketReserveService.java:407-412 | fails iff the age is below the representative minimum, with E_AR_B2_2004 carrying that minimum |
| `TicketReserve.TicketReserveService.ValidateFareType` | src/main/java/com/example/atrs/ticket/TicketReserveService.java:309-348 | the first leg that breaks its fare-type rule decides the result |
| `Validation.FareTypeOutcome` | src/main/java/com/example/atrs/ticket/TicketReserveService.java:317-346 | an empty passenger list is an argument error; an LD leg fails with E_AR_B2_2007 iff it has a male passenger; a GD leg fails with E_AR_B2_2010(name, min) iff it has fewer passengers than the minimum; no other fare type is rejected; and it passes iff the leg has a passenger, is not LD with a male passenger, and is not GD below the minimum |
| `TicketReserve.TicketReserveService.ValidateRepresentativeMemberInfo` | src/main/java/com/example/atrs/ticket/TicketReserveService.java:420-443 | the representative's identity outcome against the current member table |
| `Validation.RepresentativeOutcome` | src/main/java/com/example/atrs/ticket/TicketReserveService.java:423-442 | a blank number passes; E_AR_B2_2002 iff the number is given and unregistered; E_AR_B2_2003 iff registered with a different kana family name, kana given name or gender |
| `TicketReserve.TicketReserveService.ValidatePassengerMemberInfo` | src/main/java/com/example/atrs/ticket/TicketReserveService.java:356-400 | the first failing passenger of the first failing leg decides, positions counted from 1 in each leg |
| `Validation.PassengerOutcome` | src/main/java/com/example/atrs/ticket/TicketReserveService.java:373-395 | a blank number passes; E_AR_B2_2005(position) iff unregistered; E_AR_B2_2006(position) iff the names or gender differ |
| `Validation.ValidationPassesIff` | src/main/java/com/example/atrs/ticket/TicketReserveService.java:282-301 | validation passes iff there is a leg, the representative is old enough, every leg meets its fare-type rule, the representative matches, and every passenger with a number matches its member |
| `Validation.FareTypeErrorBeforeRepresentative` | src/main/java/com/example/atrs/ticket/TicketReserveService.java:290-297 | with an old-enough representative, the first leg breaking its fare-type rule decides the outcome whatever the representative's member record says |
| `Validation.RepresentativeErrorAfterFareTypes` | src/main/java/com/example/atrs/ticket/TicketReserveService.java:290-297 | a representative error is raised only after the age and every fare-type rule passed, and it is the representative check's outcome |
| `Validation.RepresentativeErrorReported` | src/main/java/com/example/atrs/ticket/TicketReserveService.java:290-297 | once the age and every fare-type rule passed, a failing representative check (E_AR_B2_2002 or E_AR_B2_2003) is exactly what validation reports |
| `Validation.PassengerErrorReported` | src/main/java/com/example/atrs/ticket/TicketReserveService.java:290-300 | once the age, every fare-type rule and the representative passed, validation reports exactly the passenger stage's first failure |
| `Validation.TooYoungOnlyIfUnderage` | src/main/java/com/example/atrs/ticket/TicketReserveService.java:407-412 | E_AR_B2_2004 is reported only for a representative younger than the minimum, and it carries that minimum |
| `Validation.FareTypeStageErrors` | src/main/java/com/example/atrs/ticket/TicketReserveService.java:309-348 | the fare-type stage fails only with an argument error, E_AR_B2_2007 or E_AR_B2_2010 |
| `Validation.PassengerStageErrors` | src/main/java/com/example/atrs/ticket/TicketReserveService.java:356-400 | the passenger stage fails only with an argument error or a passenger error |
| `Validation.PassengerErrorIsLastStage` | src/main/java/com/example/atrs/ticket/TicketReserveService.java:287-300 | a passenger error is reported only when the age, fare-type and representative checks all passed |
| `Validation.PassengerStageLeg` | src/main/java/com/example/atrs/ticket/TicketReserveService.java:359-399 | a passenger-stage failure comes from a leg all of whose predecessors passed |
| `Validation.PassengerStagePosition` | src/main/java/com/example/atrs/ticket/TicketReserveService.java:369-397 | a leg's failure is that of a passenger at 1-based position j + 1 all of whose predecessors passed |
| `Validation.PassengerErrorLocates` | src/main/java/com/example/atrs/ticket/TicketReserveService.java:356-400 | a passenger error names an existing passenger by its position within its own leg, after every earlier leg and passenger passed |
| `TicketReserve.TicketReserveService.ReserveSeatsInOrder` | src/main/java/com/example/atrs/ticket/TicketReserveService.java:193-229 | the seat phase over the store's vacancy map equals `Registration.ReserveSeats`; nothing else changes |
| `TicketReserve.TicketReserveService.InsertPassengerRows` | src/main/java/com/example/atrs/ticket/TicketReserveService.java:257-266 | the passenger inserts of one leg equal `Registration.InsertPassengers` |
| `TicketReserve.TicketReserveService.InsertLegRows` | src/main/java/com/example/atrs/ticket/TicketReserveService.java:242-267 | the leg and passenger inserts equal `Registration.InsertLegs` |
| `TicketReserve.TicketReserveService.Rollback` | src/main/java/com/example/atrs/ticket/TicketReserveService.java:52 | the store is put back to the snapshot taken when the transaction began |
| `TicketReserve.TicketReserveService.RegisterReservation` | src/main/java/com/example/atrs/ticket/TicketReserveService.java:183-274 | result and new store equal `Registration.Register` of the old store; on any error the store is unchanged |
| `Registration.ReserveSeats` | src/main/java/com/example/atrs/ticket/TicketReserveService.java:193-229 | the seat phase over the legs in order; on success the vacancy map has the same flights as before; it never fails with an argument error |
| `Registration.InsertPassengers` | src/main/java/com/example/atrs/ticket/TicketReserveService.java:257-266 | the passenger inserts of one leg; on success only the passenger table changes, and it grows by one row per passenger inserted |
| `Registration.InsertLegs` | src/main/java/com/example/atrs/ticket/TicketReserveService.java:242-267 | the leg and passenger inserts; on success seats, members and reservations are untouched and one leg number is used per leg |
| `Registration.Register` | src/main/java/com/example/atrs/ticket/TicketReserveService.java:183-274 | the whole transaction: on failure the store is the old one; on success it returns the next reservation number with the first leg's departure date and uses one reservation number; members never change |
| `Registration.ReserveSeatsConserves` | src/main/java/com/example/atrs/ticket/TicketReserveService.java:193-229 | a successful seat phase lowers each flight by exactly the seats its legs asked for (a repeated flight sees the earlier decrement), changes no other key, and leaves every touched flight ≥ 0 |
| `Registration.DemandTouches` | src/main/java/com/example/atrs/ticket/TicketReserveService.java:193-212 | seats are asked of a flight only by a leg on that flight |
| `Registration.ReserveSeatsRefusesOversell` | src/main/java/com/example/atrs/ticket/TicketReserveService.java:209-218 | a seat phase asking more of a flight than its vacant seats fails |
| `Registration.ReserveSeatsSucceeds` | src/main/java/com/example/atrs/ticket/TicketReserveService.java:199-228 | the converse of refusing an oversell: if every fare type is on sale, every flight exists, every update reports one row and no flight is asked for more than it has, the seat phase succeeds |
| `Registration.ReserveSeatsChecksFareTypes` | src/main/java/com/example/atrs/ticket/TicketReserveService.java:199-203 | a successful seat phase found every leg's fare type on sale for its departure date |
| `Registration.ReserveSeatsErrors` | src/main/java/com/example/atrs/ticket/TicketReserveService.java:199-228 | the seat phase fails only with E_AR_B2_2008, E_AR_B2_2009, a missing flight row, or a row count other than 1 |
| `Registration.InsertPassengersRows` | src/main/java/com/example/atrs/ticket/TicketReserveService.java:257-266 | successful passenger inserts append one row per passenger, stamped with the leg's number, and change nothing else |
| `Registration.RowsUnfold` | src/main/java/com/example/atrs/ticket/TicketReserveService.java:242-267 | the rows of legs i.. are the rows of leg i followed by the rows of legs i + 1.. |
| `Registration.InsertLegsLegRows` | src/main/java/com/example/atrs/ticket/TicketReserveService.java:242-256 | successful leg inserts append one row per leg, numbered consecutively and stamped with the reservation number |
| `Registration.InsertLegsPassengerRows` | src/main/java/com/example/atrs/ticket/TicketReserveService.java:257-266 | successful leg inserts append each leg's passenger rows in order, under that leg's number |
| `Registration.InsertLegsRows` | src/main/java/com/example/atrs/ticket/TicketReserveService.java:242-267 | successful leg inserts append one row per leg, numbered consecutively and stamped with the reservation number, then that leg's passenger rows; seats, members and reservations are untouched |
| `Registration.InsertPassengersCompletes` | src/main/java/com/example/atrs/ticket/TicketReserveService.java:257-266 | when every count is 1 the passenger inserts succeed |
| `Registration.InsertLegsCompletes` | src/main/java/com/example/atrs/ticket/TicketReserveService.java:242-267 | when every count is 1 the leg inserts succeed |
| `Registration.InsertPassengersErrors` | src/main/java/com/example/atrs/ticket/TicketReserveService.java:259-265 | a passenger-insert failure is a row count other than 1 |
| `Registration.ReserveSeatsNullOnlyIf` | src/main/java/com/example/atrs/ticket/TicketReserveService.java:204-208 | a missing-row dereference in the seat phase names a leg whose flight is not in the flight table |
| `Registration.InsertLegsErrors` | src/main/java/com/example/atrs/ticket/TicketReserveService.java:248-265 | a leg-phase failure is a row count other than 1 |
| `Registration.RegisterAtomic` | src/main/java/com/example/atrs/ticket/TicketReserveService.java:52 | a failed registration leaves every table and counter as it was |
| `Registration.RegisterErrorKinds` | src/main/java/com/example/atrs/ticket/TicketReserveService.java:183-274 | registration fails only with an argument error, E_AR_B2_2008, E_AR_B2_2009, a missing flight, or a system fault whose count is not 1; a missing-row dereference implies some leg's flight is not in the flight table |
| `Registration.RegisterInsertFaults` | src/main/java/com/example/atrs/ticket/TicketReserveService.java:232-265 | after a successful seat phase, a failed registration is a system fault (E_AR_A0_L9002) whose row count is not 1 |
| `Registration.RegisterCommits` | src/main/java/com/example/atrs/ticket/TicketReserveService.java:193-272 | covers a successful registration; see the list below the table |
| `Registration.RegisterCommitsAfterSeatPhase` | src/main/java/com/example/atrs/ticket/TicketReserveService.java:231-272 | when every count is 1, a successful seat phase commits |
| `Registration.RegisterSucceedsWhenSeatsSuffice` | src/main/java/com/example/atrs/ticket/TicketReserveService.java:193-272 | a reservation with legs, all fare types on sale, all flights present and no flight asked for more seats than it has, is registered when every count is 1 |
| `Registration.RegisterRefusesUnavailableFareType` | src/main/java/com/example/atrs/ticket/TicketReserveService.java:199-203 | a leg whose fare type is not on sale for its date makes the registration fail and change nothing |
| `Registration.RegisterRefusesOversell` | src/main/java/com/example/atrs/ticket/TicketReserveService.java:209-218 | a reservation asking more of a flight than its vacant seats fails and changes nothing |
| `RegistrationFailures.FareTypeCheckedFirst` | src/main/java/com/example/atrs/ticket/TicketReserveService.java:199-209 | at any leg, an off-sale fare type fails with E_AR_B2_2008 whatever the vacancies hold, so the check comes before the flight is read |
| `RegistrationFailures.MissingFlightFails` | src/main/java/com/example/atrs/ticket/TicketReserveService.java:205-209 | a leg on sale whose flight row is missing fails as the null dereference |
| `RegistrationFailures.ShortfallFails` | src/main/java/com/example/atrs/ticket/TicketReserveService.java:212-218 | a leg on sale whose flight has fewer vacant seats than passengers fails with E_AR_B2_2009 |
| `RegistrationFailures.UpdateCountFails` | src/main/java/com/example/atrs/ticket/TicketReserveService.java:224-228 | a leg whose seat update reports a count other than 1 fails with that count |
| `RegistrationFailures.ReserveSeatsReach` | src/main/java/com/example/atrs/ticket/TicketReserveService.java:193-229 | when legs i..j all pass their step, the seat phase from i continues at j with every vacancy lowered by those legs' demand |
| `RegistrationFailures.RegisterFareTypeUnavailableAt` | src/main/java/com/example/atrs/ticket/TicketReserveService.java:193-203 | every leg before j passed and leg j's fare type is off sale: the registration ends with E_AR_B2_2008 and the store unchanged |
| `RegistrationFailures.RegisterMissingFlightAt` | src/main/java/com/example/atrs/ticket/TicketReserveService.java:193-209 | every leg before j passed and leg j's flight row is missing: the registration fails as a null dereference, store unchanged |
| `RegistrationFailures.RegisterSeatsInsufficientAt` | src/main/java/com/example/atrs/ticket/TicketReserveService.java:193-218 | every leg before j passed and leg j asks more than `vacant[k] - Demand(legs[..j], k)`: E_AR_B2_2009, store unchanged |
| `RegistrationFailures.RegisterUpdateCountAt` | src/main/java/com/example/atrs/ticket/TicketReserveService.java:193-228 | every leg before j passed and leg j's update reports a count other than 1: that fault, store unchanged |
| `RegistrationFailures.FareTypeUnavailableOnlyIf` | src/main/java/com/example/atrs/ticket/TicketReserveService.java:199-203 | a seat phase failing with E_AR_B2_2008 has a leg whose fare type is off sale |
| `RegistrationFailures.SeatsInsufficientOnlyIf` | src/main/java/com/example/atrs/ticket/TicketReserveService.java:212-218 | a seat phase failing with E_AR_B2_2009 has a leg on sale asking more than its flight has left after the earlier legs |
| `RegistrationFailures.InsertLegsErrorsAreCounts` | src/main/java/com/example/atrs/ticket/TicketReserveService.java:231-267 | a business error of a registration is the error of its seat phase; the inserts fail only on row counts |
| `RegistrationFailures.RegisterFareTypeUnavailableOnlyIf` | src/main/java/com/example/atrs/ticket/TicketReserveService.java:193-203 | a registration refused with E_AR_B2_2008 has a leg whose fare type is off sale |
| `RegistrationFailures.RegisterSeatsInsufficientOnlyIf` | src/main/java/com/example/atrs/ticket/TicketReserveService.java:193-218 | a registration refused with E_AR_B2_2009 has a leg asking more seats than its flight has left after the earlier legs |
| `RegistrationFailures.ReserveSeatsOkCounts` | src/main/java/com/example/atrs/ticket/TicketReserveService.java:224-228 | a successful seat phase had every seat update report one row |
| `RegistrationFailures.InsertPassengersOkCounts` | src/main/java/com/example/atrs/ticket/TicketReserveService.java:257-265 | successful passenger inserts had every insert report one row |
| `RegistrationFailures.InsertLegsOkCounts` | src/main/java/com/example/atrs/ticket/TicketReserveService.java:242-266 | successful leg inserts had every leg insert and every passenger insert report one row |
| `RegistrationFailures.RegisterOkMeansEveryCountOne` | src/main/java/com/example/atrs/ticket/TicketReserveService.java:224-266 | a committed registration had every statement it issued (updates, the reservation insert, leg and passenger inserts) report exactly one row |
| `RegistrationFailures.RegisterFailsOnBadCount` | src/main/java/com/example/atrs/ticket/TicketReserveService.java:224-266 | any issued statement reporting a count other than 1 makes the registration fail with the store unchanged |
| `Registration.RegisterKeepsSeatsNonNegative` | src/main/java/com/example/atrs/ticket/TicketReserveService.java:214-221 | if no vacant count is negative before a registration, none is after it |
| `Registration.PassengerRowsPointToTheirLeg` | src/main/java/com/example/atrs/ticket/TicketReserveService.java:242-258 | every passenger row added carries the number of its own leg's row |
| `Registration.AllPassengerRowsCount` | src/main/java/com/example/atrs/ticket/TicketReserveService.java:257-266 | one passenger row is added per passenger over all legs |
| `AuthFilter.CheckCredentials` | src/main/java/com/example/atrs/auth/security/AtrsUsernamePasswordAuthenticationFilter.java:72-85 | UsernameNotFound iff the username is null or not of the configured length; BadCredentials iff the username passes and the password is null or outside [min, max]; delegation iff both pass |
| `AuthFilter.UsernameReportedFirst` | src/main/java/com/example/atrs/auth/security/AtrsUsernamePasswordAuthenticationFilter.java:72-83 | a request wrong in both fields reports the username |
| `AuthFilter.PasswordBoundsInclusive` | src/main/java/com/example/atrs/auth/security/AtrsUsernamePasswordAuthenticationFilter.java:78-79 | passwords exactly at the minimum or maximum length are accepted |
| `AuthFilter.AtrsUsernamePasswordAuthenticationFilter.constructor` | src/main/java/com/example/atrs/auth/security/AtrsUsernamePasswordAuthenticationFilter.java:50-60 | defaults: membership number length 10, password max 20, password min 8 |
| `AuthFilter.AtrsUsernamePasswordAuthenticationFilter.AttemptAuthentication` | src/main/java/com/example/atrs/auth/security/AtrsUsernamePasswordAuthenticationFilter.java:66-86 | the decision under the filter's current thresholds; delegation only with a username of exactly the set length and a password within the set bounds |
| `AuthFilter.AtrsUsernamePasswordAuthenticationFilter.SetMembershipNumberLength` | src/main/java/com/example/atrs/auth/security/AtrsUsernamePasswordAuthenticationFilter.java:96-98 | replaces the number length only; the two password bounds stay |
| `AuthFilter.AtrsUsernamePasswordAuthenticationFilter.SetPasswordMaxLength` | src/main/java/com/example/atrs/auth/security/AtrsUsernamePasswordAuthenticationFilter.java:108-110 | replaces the password maximum only |
| `AuthFilter.AtrsUsernamePasswordAuthenticationFilter.SetPasswordMinLength` | src/main/java/com/example/atrs/auth/security/AtrsUsernamePasswordAuthenticationFilter.java:120-122 | replaces the password minimum only |

`Registration.RegisterCommits` states that a successful registration:

- returns the generated reservation number;
- returns the first leg's departure date as the payment date;
- adds one reservation row;
- adds one leg row per leg, stamped with the reservation number;
- adds the passenger rows, each stamped with its own leg's number;
- lowers each flight by exactly the seats its legs took, leaving none below zero;
- leaves the member table unchanged.

## Notes on the code

Facts about the Java code that the model keeps:

- **Leg fare.** The code does not compute the adult per-leg fare itself. It comes from `TicketSharedService.calculateFare(baseFare, discountRate)` (line 148). The model leaves that collaborator uninterpreted as `calculateFare`. Only the child share is computed in the service, at lines 150-151.
- **Representative identity mismatch.** E_AR_B2_2003 carries no argument (line 440). The passenger errors carry the 1-based position.
- **Ladies-discount rule.** A leg fails exactly when some passenger's gender is `M` (line 331).
- **Empty leg list in registration.** `registerReservation` asserts that the leg list is not empty (line 190) before its seat loop, so `Registration.Register` fails with an argument error and issues no statement; the reservation insert (line 233) and `reserveFlightList.get(0)` (line 270) are never reached with an empty list.
- **Fare-type availability.** The check `isAvailableFareType` is made only in the registration seat loop (lines 200-203), not during validation. It fails with E_AR_B2_2008.

## Left out

- CalculateTotalFare: does not model Java's 32-bit `int` wrap-around in the fare products and sums, because integers here are unbounded.
- The internals of the collaborators are not part of this model. They are the function values of `Collaborators`.
  - `TicketSharedService.calculateBasicFare`, `calculateFare` and `isAvailableFareType`.
  - `FareUtil.ceilFare`. Its only property, the round-up to 100 stated in the comment at line 157, is the hypothesis `RoundsUpTo100`.
- Row locking by `findOneForUpdate` is left out. It matters only under concurrency, and the model is one sequential transaction, so the read is a map lookup. Deadlock ordering across concurrent requests is not modelled.
- A missing flight row makes `findOneForUpdate` return null. The Java code then fails with a null dereference, which the model reports as `NullReference`.
- Null elements are modelled only where `calculateTotalFare` asserts against them.
  - A null reservation, leg, flight, flight master or passenger member object is not modelled. Reservation legs and passengers are plain values.
  - A blank or null membership number is the empty string.
- RegisterReservation: the generated numbers are recorded only in the stored rows. In the Java code they are also written onto the caller's own objects: `reservation.reserveNo` (by the mapper's insert, line 233), `reserveFlight.reserveNo` (line 245), `reserveFlight.reserveFlightNo` (by the mapper's `insertReserveFlight`, line 249), and `passenger.reserveFlightNo` (line 258). The generated numbers come from two store counters rather than from the database's key generator.
- The affected-row counts are an input. The model does not decide when a real database would report a count other than 1.
- FindMember: `HasText` treats only the ASCII and C0 separator whitespace characters as blank. It does not cover the other Unicode space characters that Java's `Character.isWhitespace` also accepts.
- CheckCredentials and AttemptAuthentication count string length in characters. Java counts UTF-16 code units, which differ for characters outside the Basic Multilingual Plane.
- The filter's logging, its message lookup, `obtainUsername`/`obtainPassword`, and the parent `super.attemptAuthentication` are left out. Delegation is the `Delegate` outcome.
- Dates are opaque day numbers. Only equality is used.
- Fare-type codes other than ladies and group discount are `OtherFareType(code)`. By convention such a value never holds "LD" or "GD"; the convention is stated in the comment on `TicketTypes.FareTypeCd` and is not enforced by a contract. A value breaking that convention would be a different code and a different flight key from `LD`/`GD`. The Java code compares the code with an enum, so it cannot have this ambiguity.
- Context files outside the core are not part of this model:
  - `MemberUpdateController.java` (web plumbing);
  - `MemberRegisterService.java` (password encoding and mapper inserts);
  - `AtrsAuthenticationSuccessListener.java` (event forwarding);
  - `AuthLogin.java` (a bean);
  - `MessageKeys.java`, `AuthErrorCode.java` and `FlightType.java` (constant enums).
  - `MemberMapper.java` becomes the member map, and `TicketProperties.java` becomes the `TicketProperties` record.
