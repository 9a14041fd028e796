/**
 * What the business-rule validation of a reservation decides: the ordered
 * checks (representative age, fare-type rules per leg, representative
 * identity, passenger identities) and the first failure among them.
 */
module Validation {
  import opened TicketTypes

  predicate HasMalePassenger(ps: seq<Passenger>)
  {
    exists i :: 0 <= i < |ps| && ps[i].gender == M
  }

  /** The fare-type rule of one leg. */
  function FareTypeOutcome(leg: ReserveFlight): (o: Outcome)
    ensures o == Fail(InvalidArgument) <==> |leg.passengers| == 0
    ensures o == Fail(Business(LadiesDiscountMalePassenger))
        <==> |leg.passengers| > 0 && leg.flight.fareType.cd == LD && HasMalePassenger(leg.passengers)
    ensures o.Fail? && o.error.Business? && o.error.code.GroupDiscountTooFew?
        <==> |leg.passengers| > 0 && leg.flight.fareType.cd == GD
             && |leg.passengers| < leg.flight.fareType.passengerMinNum
    ensures o.Fail? && o.error.Business? && o.error.code.GroupDiscountTooFew? ==>
        o.error.code == GroupDiscountTooFew(leg.flight.fareType.name, leg.flight.fareType.passengerMinNum)
    ensures leg.flight.fareType.cd.OtherFareType? && |leg.passengers| > 0 ==> o.Pass?
    ensures o.Pass? <==> && |leg.passengers| > 0
                         && !(leg.flight.fareType.cd == LD && HasMalePassenger(leg.passengers))
                         && !(leg.flight.fareType.cd == GD && |leg.passengers| < leg.flight.fareType.passengerMinNum)
  {
    var ft := leg.flight.fareType;
    var ps := leg.passengers;
    if |ps| == 0 then Fail(InvalidArgument)
    else if ft.cd == LD then
      (if HasMalePassenger(ps) then Fail(Business(LadiesDiscountMalePassenger)) else Pass)
    else if ft.cd == GD then
      (if |ps| < ft.passengerMinNum then Fail(Business(GroupDiscountTooFew(ft.name, ft.passengerMinNum))) else Pass)
    else Pass
  }

  function FareTypeOutcomes(legs: seq<ReserveFlight>): (os: seq<Outcome>)
    ensures |os| == |legs|
  {
    seq(|legs|, i requires 0 <= i < |legs| => FareTypeOutcome(legs[i]))
  }

  /** The stated name and gender agree with the member record. */
  predicate SameIdentity(familyName: string, givenName: string, gender: Gender, m: Member)
  {
    familyName == m.kanaFamilyName && givenName == m.kanaGivenName && gender == m.gender
  }

  /** The representative's identity check against the member table. */
  function RepresentativeOutcome(members: map<string, Member>, res: Reservation): (o: Outcome)
    ensures |res.repMembershipNumber| == 0 ==> o.Pass?
    ensures o == Fail(Business(RepresentativeNotMember))
        <==> |res.repMembershipNumber| > 0 && res.repMembershipNumber !in members
    ensures o == Fail(Business(RepresentativeMismatch))
        <==> res.repMembershipNumber in members && |res.repMembershipNumber| > 0
             && !SameIdentity(res.repFamilyName, res.repGivenName, res.repGender, members[res.repMembershipNumber])
    ensures o.Pass? || o == Fail(Business(RepresentativeNotMember)) || o == Fail(Business(RepresentativeMismatch))
  {
    var no := res.repMembershipNumber;
    if |no| == 0 then Pass
    else if no !in members then Fail(Business(RepresentativeNotMember))
    else if !SameIdentity(res.repFamilyName, res.repGivenName, res.repGender, members[no])
    then Fail(Business(RepresentativeMismatch))
    else Pass
  }

  /** The identity check of the passenger at 1-based `position` of its leg. */
  function PassengerOutcome(members: map<string, Member>, p: Passenger, position: int): (o: Outcome)
    ensures |p.membershipNumber| == 0 ==> o.Pass?
    ensures o == Fail(Business(PassengerNotMember(position)))
        <==> |p.membershipNumber| > 0 && p.membershipNumber !in members
    ensures o == Fail(Business(PassengerMismatch(position)))
        <==> p.membershipNumber in members && |p.membershipNumber| > 0
             && !SameIdentity(p.familyName, p.givenName, p.gender, members[p.membershipNumber])
    ensures o.Pass? || o == Fail(Business(PassengerNotMember(position))) || o == Fail(Business(PassengerMismatch(position)))
  {
    var no := p.membershipNumber;
    if |no| == 0 then Pass
    else if no !in members then Fail(Business(PassengerNotMember(position)))
    else if !SameIdentity(p.familyName, p.givenName, p.gender, members[no])
    then Fail(Business(PassengerMismatch(position)))
    else Pass
  }

  /** The passenger checks of one leg, positions numbered from 1. */
  function PassengerOutcomes(members: map<string, Member>, ps: seq<Passenger>): (os: seq<Outcome>)
    ensures |os| == |ps|
  {
    seq(|ps|, j requires 0 <= j < |ps| => PassengerOutcome(members, ps[j], j + 1))
  }

  /** The passenger stage of one leg: an argument error if it has no passenger, else its first failing passenger. */
  function LegMemberOutcome(members: map<string, Member>, leg: ReserveFlight): (o: Outcome)
    ensures o.Pass? <==> (&& |leg.passengers| > 0
                          && forall j :: 0 <= j < |leg.passengers| ==> PassengerOutcome(members, leg.passengers[j], j + 1).Pass?)
    ensures o.Fail? ==> o.error == InvalidArgument || o.error.Business?
  {
    if |leg.passengers| == 0 then Fail(InvalidArgument)
    else
      var pos := PassengerOutcomes(members, leg.passengers);
      assert forall j :: 0 <= j < |pos| ==> pos[j] == PassengerOutcome(members, leg.passengers[j], j + 1);
      FirstFail(pos)
  }

  function LegMemberOutcomes(members: map<string, Member>, legs: seq<ReserveFlight>): (os: seq<Outcome>)
    ensures |os| == |legs|
  {
    seq(|legs|, i requires 0 <= i < |legs| => LegMemberOutcome(members, legs[i]))
  }

  /** The whole validation: the checks in their fixed order, the first failure winning. */
  function ValidationOutcome(representativeMinAge: int, members: map<string, Member>, res: Reservation): (o: Outcome)
    ensures |res.legs| == 0 ==> o == Fail(InvalidArgument)
    ensures |res.legs| > 0 && res.repAge < representativeMinAge ==> o == Fail(Business(RepresentativeTooYoung(representativeMinAge)))
    ensures o.Fail? ==> o.error == InvalidArgument || o.error.Business?
  {
    if |res.legs| == 0 then Fail(InvalidArgument)
    else if res.repAge < representativeMinAge then Fail(Business(RepresentativeTooYoung(representativeMinAge)))
    else
      var fareType := FirstFail(FareTypeOutcomes(res.legs));
      if fareType.Fail? then fareType
      else
        var rep := RepresentativeOutcome(members, res);
        if rep.Fail? then rep
        else FirstFail(LegMemberOutcomes(members, res.legs))
  }

  /** Every passenger with a membership number is a member whose kana names and gender match. */
  ghost predicate PassengersMatchMembers(members: map<string, Member>, legs: seq<ReserveFlight>)
  {
    forall i, j :: 0 <= i < |legs| && 0 <= j < |legs[i].passengers| ==>
      var p := legs[i].passengers[j];
      |p.membershipNumber| > 0 ==>
        p.membershipNumber in members && SameIdentity(p.familyName, p.givenName, p.gender, members[p.membershipNumber])
  }

  /** A reservation passes exactly when every rule holds. */
  lemma {:induction false} ValidationPassesIff(representativeMinAge: int, members: map<string, Member>, res: Reservation)
    ensures ValidationOutcome(representativeMinAge, members, res).Pass? <==>
      && |res.legs| > 0
      && res.repAge >= representativeMinAge
      && (forall i :: 0 <= i < |res.legs| ==> FareTypeOutcome(res.legs[i]).Pass?)
      && RepresentativeOutcome(members, res).Pass?
      && PassengersMatchMembers(members, res.legs)
  {
    var legs := res.legs;
    var lhs := ValidationOutcome(representativeMinAge, members, res).Pass?;
    var fareOk := forall i :: 0 <= i < |legs| ==> FareTypeOutcome(legs[i]).Pass?;
    assert fareOk <==> FirstFail(FareTypeOutcomes(legs)).Pass? by {
      assert forall i :: 0 <= i < |legs| ==> FareTypeOutcomes(legs)[i] == FareTypeOutcome(legs[i]);
    }
    if fareOk && |legs| > 0 {
      var mos := LegMemberOutcomes(members, legs);
      assert (forall i :: 0 <= i < |legs| ==> mos[i].Pass?) <==> PassengersMatchMembers(members, legs) by {
        forall i | 0 <= i < |legs|
          ensures mos[i].Pass? <==> (forall j :: 0 <= j < |legs[i].passengers| ==>
              var p := legs[i].passengers[j];
              |p.membershipNumber| > 0 ==>
                p.membershipNumber in members && SameIdentity(p.familyName, p.givenName, p.gender, members[p.membershipNumber]))
        {
          assert FareTypeOutcome(legs[i]).Pass?;
          var pos := PassengerOutcomes(members, legs[i].passengers);
          assert mos[i] == FirstFail(pos);
          assert forall j :: 0 <= j < |pos| ==> pos[j] == PassengerOutcome(members, legs[i].passengers[j], j + 1);
        }
      }
    }
  }

  /**
   * The fare-type stage runs before the representative's identity: with an
   * old-enough representative, the first leg breaking its fare-type rule
   * decides the outcome whatever the member table says of the representative.
   */
  lemma FareTypeErrorBeforeRepresentative(representativeMinAge: int, members: map<string, Member>, res: Reservation, i: nat)
    requires i < |res.legs| && res.repAge >= representativeMinAge
    requires FareTypeOutcome(res.legs[i]).Fail?
    requires forall k :: 0 <= k < i ==> FareTypeOutcome(res.legs[k]).Pass?
    ensures ValidationOutcome(representativeMinAge, members, res) == FareTypeOutcome(res.legs[i])
  {
    var fos := FareTypeOutcomes(res.legs);
    assert forall k :: 0 <= k < |res.legs| ==> fos[k] == FareTypeOutcome(res.legs[k]);
    FirstFailAt(fos, i);
  }

  /**
   * A representative error is raised only after the age and fare-type
   * stages passed, and it is the representative check's own outcome.
   */
  lemma RepresentativeErrorAfterFareTypes(representativeMinAge: int, members: map<string, Member>, res: Reservation)
    requires ValidationOutcome(representativeMinAge, members, res).Fail?
    requires ValidationOutcome(representativeMinAge, members, res).error.Business?
    requires ValidationOutcome(representativeMinAge, members, res).error.code.RepresentativeNotMember?
          || ValidationOutcome(representativeMinAge, members, res).error.code.RepresentativeMismatch?
    ensures |res.legs| > 0 && res.repAge >= representativeMinAge
    ensures forall i :: 0 <= i < |res.legs| ==> FareTypeOutcome(res.legs[i]).Pass?
    ensures ValidationOutcome(representativeMinAge, members, res) == RepresentativeOutcome(members, res)
  {
    var legs := res.legs;
    var fos := FareTypeOutcomes(legs);
    assert forall i :: 0 <= i < |legs| ==> fos[i] == FareTypeOutcome(legs[i]);
    PassengerStageErrors(members, legs);
  }

  /**
   * Once the age and every fare-type rule passed, a failing representative
   * check is what validation reports.
   */
  lemma RepresentativeErrorReported(representativeMinAge: int, members: map<string, Member>, res: Reservation)
    requires |res.legs| > 0 && res.repAge >= representativeMinAge
    requires forall i :: 0 <= i < |res.legs| ==> FareTypeOutcome(res.legs[i]).Pass?
    requires RepresentativeOutcome(members, res).Fail?
    ensures ValidationOutcome(representativeMinAge, members, res) == RepresentativeOutcome(members, res)
  {
    var fos := FareTypeOutcomes(res.legs);
    assert forall i :: 0 <= i < |res.legs| ==> fos[i] == FareTypeOutcome(res.legs[i]);
  }

  /**
   * Once the age, every fare-type rule and the representative passed, the
   * outcome is that of the passenger stage: its first failing passenger.
   */
  lemma PassengerErrorReported(representativeMinAge: int, members: map<string, Member>, res: Reservation)
    requires |res.legs| > 0 && res.repAge >= representativeMinAge
    requires forall i :: 0 <= i < |res.legs| ==> FareTypeOutcome(res.legs[i]).Pass?
    requires RepresentativeOutcome(members, res).Pass?
    ensures ValidationOutcome(representativeMinAge, members, res) == FirstFail(LegMemberOutcomes(members, res.legs))
  {
    var fos := FareTypeOutcomes(res.legs);
    assert forall i :: 0 <= i < |res.legs| ==> fos[i] == FareTypeOutcome(res.legs[i]);
  }

  /** E_AR_B2_2004 is reported only for a representative younger than the minimum. */
  lemma TooYoungOnlyIfUnderage(representativeMinAge: int, members: map<string, Member>, res: Reservation, m: int)
    requires ValidationOutcome(representativeMinAge, members, res) == Fail(Business(RepresentativeTooYoung(m)))
    ensures res.repAge < representativeMinAge && m == representativeMinAge
  {
    if |res.legs| > 0 && res.repAge >= representativeMinAge {
      FareTypeStageErrors(res.legs);
      PassengerStageErrors(members, res.legs);
    }
  }

  /** The fare-type stage fails only with an argument error or a fare-type error. */
  lemma FareTypeStageErrors(legs: seq<ReserveFlight>)
    ensures var o := FirstFail(FareTypeOutcomes(legs));
      o.Fail? ==> || o.error == InvalidArgument
                  || o.error == Business(LadiesDiscountMalePassenger)
                  || (o.error.Business? && o.error.code.GroupDiscountTooFew?)
  {
    var fos := FareTypeOutcomes(legs);
    if FirstFail(fos).Fail? {
      var i :| 0 <= i < |fos| && fos[i] == FirstFail(fos);
      assert fos[i] == FareTypeOutcome(legs[i]);
    }
  }

  /** The passenger stage fails only with an argument error or a passenger error. */
  lemma PassengerStageErrors(members: map<string, Member>, legs: seq<ReserveFlight>)
    ensures var o := FirstFail(LegMemberOutcomes(members, legs));
      o.Fail? ==> || o.error == InvalidArgument
                  || (o.error.Business? && (o.error.code.PassengerNotMember? || o.error.code.PassengerMismatch?))
  {
    if FirstFail(LegMemberOutcomes(members, legs)).Fail? {
      var i := PassengerStageLeg(members, legs);
      if |legs[i].passengers| > 0 {
        var j := PassengerStagePosition(members, legs[i].passengers);
      }
    }
  }

  /**
   * A passenger error can only come from the last stage: age, fare types and
   * the representative all passed.
   */
  lemma PassengerErrorIsLastStage(representativeMinAge: int, members: map<string, Member>, res: Reservation)
    requires ValidationOutcome(representativeMinAge, members, res).Fail?
    requires ValidationOutcome(representativeMinAge, members, res).error.Business?
    requires ValidationOutcome(representativeMinAge, members, res).error.code.PassengerNotMember?
          || ValidationOutcome(representativeMinAge, members, res).error.code.PassengerMismatch?
    ensures |res.legs| > 0 && res.repAge >= representativeMinAge
    ensures forall i :: 0 <= i < |res.legs| ==> FareTypeOutcome(res.legs[i]).Pass?
    ensures RepresentativeOutcome(members, res).Pass?
    ensures ValidationOutcome(representativeMinAge, members, res) == FirstFail(LegMemberOutcomes(members, res.legs))
  {
    var fos := FareTypeOutcomes(res.legs);
    assert forall i :: 0 <= i < |res.legs| ==> fos[i] == FareTypeOutcome(res.legs[i]);
  }

  /** The first failing leg of the passenger stage: every earlier leg passed. */
  lemma PassengerStageLeg(members: map<string, Member>, legs: seq<ReserveFlight>) returns (i: int)
    requires FirstFail(LegMemberOutcomes(members, legs)).Fail?
    ensures 0 <= i < |legs|
    ensures FirstFail(LegMemberOutcomes(members, legs)) == LegMemberOutcome(members, legs[i])
    ensures forall k :: 0 <= k < i ==> LegMemberOutcomes(members, legs)[k].Pass?
  {
    var mos := LegMemberOutcomes(members, legs);
    i :| 0 <= i < |mos| && mos[i] == FirstFail(mos) && forall k :: 0 <= k < i ==> mos[k].Pass?;
  }

  /** The first failing passenger of a leg: every earlier passenger of it passed. */
  lemma PassengerStagePosition(members: map<string, Member>, ps: seq<Passenger>) returns (j: int)
    requires FirstFail(PassengerOutcomes(members, ps)).Fail?
    ensures 0 <= j < |ps|
    ensures FirstFail(PassengerOutcomes(members, ps)) == PassengerOutcome(members, ps[j], j + 1)
    ensures forall k :: 0 <= k < j ==> PassengerOutcomes(members, ps)[k].Pass?
  {
    var pos := PassengerOutcomes(members, ps);
    j :| 0 <= j < |pos| && pos[j] == FirstFail(pos) && forall k :: 0 <= k < j ==> pos[k].Pass?;
  }

  /**
   * For a whole reservation: a passenger error is raised only after every
   * other rule passed, and it names the first failing passenger of the first
   * failing leg by its 1-based position within that leg.
   */
  lemma PassengerErrorLocates(representativeMinAge: int, members: map<string, Member>, res: Reservation)
    requires ValidationOutcome(representativeMinAge, members, res).Fail?
    requires ValidationOutcome(representativeMinAge, members, res).error.Business?
    requires ValidationOutcome(representativeMinAge, members, res).error.code.PassengerNotMember?
          || ValidationOutcome(representativeMinAge, members, res).error.code.PassengerMismatch?
    ensures exists i, j ::
      (&& 0 <= i < |res.legs| && 0 <= j < |res.legs[i].passengers|
       && ValidationOutcome(representativeMinAge, members, res) == PassengerOutcome(members, res.legs[i].passengers[j], j + 1)
       && (forall k :: 0 <= k < i ==> LegMemberOutcomes(members, res.legs)[k].Pass?)
       && (forall k :: 0 <= k < j ==> PassengerOutcomes(members, res.legs[i].passengers)[k].Pass?))
  {
    PassengerErrorIsLastStage(representativeMinAge, members, res);
    var i := PassengerStageLeg(members, res.legs);
    var ps := res.legs[i].passengers;
    assert |ps| > 0;
    var j := PassengerStagePosition(members, ps);
    assert 0 <= j < |res.legs[i].passengers|;
  }
}
