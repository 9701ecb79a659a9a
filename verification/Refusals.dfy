/** What each refusal of an admission means. */
module Refusals {
  import opened Ids
  import opened Admission
  import opened AdmissionRuns
  import opened Authority
  import Domain
  import Placement
  import Roomcred
  import MediaFake

  /** The credential is none for this room and moment, or carries no role. */
  ghost predicate NothingCredited(s: Seams, credential: Bytes, room: Id, now: int)
  {
    forall claims :: !Credited(s, credential, room, now, claims)
  }

  /** The credential is one whose role may not publish. */
  ghost predicate CreditedWithoutPower(s: Seams, credential: Bytes, room: Id, now: int)
  {
    exists claims :: Credited(s, credential, room, now, claims) && !s.mayPublish(claims.role)
  }

  lemma WhatTheCredentialSays(s: Seams, credential: Bytes, room: Id, now: int)
    requires Roomcred.IsDigest(s.sign)
    ensures match Roomcred.Verify(s.sign, s.key, credential, room, now)
            case Refused(_) => NothingCredited(s, credential, room, now)
            case Read(claims) =>
              if claims.role == [] then NothingCredited(s, credential, room, now)
              else !s.mayPublish(claims.role) ==> CreditedWithoutPower(s, credential, room, now)
  {
    CreditedExactlyWhen(s, credential, room, now);
    hide Roomcred.Verify, Credited;
  }

  /** Some offer is of a kind there is not, or of no layer. */
  ghost predicate SomeOfferIsNone(offers: seq<Offer>)
  {
    exists o :: o in offers && !(o.kind in KINDS && o.layers >= 1)
  }

  lemma {:induction false} StoppedAtAnOffer(names: seq<Name>, offers: seq<Offer>, participant: Id)
    requires participant != []
    ensures Minted(names, offers, participant).Stopped? ==> SomeOfferIsNone(offers)
  {
    if offers != [] {
      var n := |offers| - 1;
      StoppedAtAnOffer(names, offers[..n], participant);
      assert offers[n] in offers && forall o | o in offers[..n] :: o in offers;
      hide KindOf;
    }
  }

  /** What is true where an admission is refused for a reason before any unit is asked. */
  ghost predicate Explains(reason: Reason, s: Seams, room: Room, m: Message, names: seq<Name>, held: set<Id>, now: int)
  {
    var where := Placement.ParticipantPlace(room.pool, room.placement);
    match reason
    case MalformedRequest => !Reads(m) || m.request.conference != room.id || SomeOfferIsNone(m.request.offers)
    case CredentialRefused => m.Decoded? && NothingCredited(s, m.request.credential, room.id, now)
    case NotPermitted =>
      && m.Decoded? && m.request.publishing
      && CreditedWithoutPower(s, m.request.credential, room.id, now)
    case ConferenceNotOpen => !room.open
    case NoCapacity => room.pool == []
    case ConferenceAtItsUnitCeiling =>
      && |room.placement.carrying| >= room.placement.unitCeiling
      && !Placement.SomeEligible(room.pool, Placement.On(Placement.UnitSet(room.placement)))
    case RoomFull => room.pool != [] && forall u | u in room.pool :: !Placement.Eligible(u)
    case UnitUnavailable => where.Place? && where.unit !in held
    case UnitRefused => false
  }

  lemma WhyNotPlaced(rows: seq<Placement.Row>, c: Placement.Conference)
    requires Placement.Distinct(Placement.IdsOf(rows))
    ensures match Placement.ParticipantPlace(rows, c)
            case Place(_) => true
            case Refuse(NoUnits) => rows == []
            case Refuse(ReachedUnitCeiling) =>
              && |c.carrying| >= c.unitCeiling
              && !Placement.SomeEligible(rows, Placement.On(Placement.UnitSet(c)))
            case Refuse(NoEligibleUnit) => rows != [] && forall u | u in rows :: !Placement.Eligible(u)
  {
    Placement.ParticipantPlaceExactly(rows, c);
    hide Placement.ParticipantPlace;
  }

  lemma WhyNotMinted(names: seq<Name>, offers: seq<Offer>)
    requires Mints(NameAt(names, 0))
    ensures var minted := Minted(names, offers, names[0].text);
            !minted.NoNames? && |minted.sources| != |offers| ==> SomeOfferIsNone(offers)
  {
    MintedMatches(names, offers, names[0].text);
    StoppedAtAnOffer(names, offers, names[0].text);
    hide Minted, SomeOfferIsNone, OnePerOffer, NamedBy;
    assert forall ss | OnePerOffer(offers, ss, names[0].text) :: |ss| == |offers| by {
      AsManyAsOffers(offers, names[0].text);
    }
  }

  lemma AsManyAsOffers(offers: seq<Offer>, participant: Id)
    ensures forall ss | OnePerOffer(offers, ss, participant) :: |ss| == |offers|
  {
  }

  /** Every refusal made before a unit is asked says what stood in the way. */
  lemma RefusedBeforeAsking(s: Seams, room: Room, m: Message, names: seq<Name>, held: set<Id>, now: int)
    requires Roomcred.IsDigest(s.sign) && Placement.Distinct(Placement.IdsOf(room.pool))
    ensures var d := Decide(s, room, m, names, held, now);
            d.No? && d.outcome.Refused? ==> Explains(d.outcome.reason, s, room, m, names, held, now)
  {
    WhyNotPlaced(room.pool, room.placement);
    var d := Decide(s, room, m, names, held, now);
    hide Placement.ParticipantPlace, Placement.SomeEligible, Placement.Eligible;
    hide Placement.Distinct, Placement.IdsOf, Placement.UnitSet;
    if Reads(m) {
      WhatTheCredentialSays(s, m.request.credential, room.id, now);
      if Mints(NameAt(names, 0)) {
        WhyNotMinted(names, m.request.offers);
      }
    }
    hide NothingCredited, CreditedWithoutPower, SomeOfferIsNone, Minted, Roomcred.Verify, Reads, NameAt, Mints;
  }

  /** What is true where a unit refuses. */
  ghost predicate UnitExplains(reason: Reason, u: MediaFake.Unit, c: Id, publishing: bool, d: Decision)
    requires d.Ask?
  {
    match reason
    case UnitRefused =>
      (if publishing then MediaFake.AdmittingAPublisher else MediaFake.AdmittingASubscriber) in u.knobs.refusing
    case MalformedRequest =>
      && publishing && c in u.conferences
      && (|| d.participant == []
          || exists x :: x in d.sources
               && (x.publisher != d.participant || MediaFake.OutsideProfile(u.conferences[c].profile, x)))
    case UnitUnavailable =>
      || !u.alive || c in u.lost || c !in u.conferences
      || (if publishing then
            || d.participant in u.conferences[c].publishers
            || exists x :: x in d.sources && x.id in u.conferences[c].sources
          else d.participant in u.conferences[c].subscribers)
    case _ => false
  }

  lemma {:induction false} WhySourcesRefused(h: MediaFake.Held, p: Id, sources: seq<Domain.Source>)
    ensures MediaFake.SourcesRefused(h, p, sources) == MediaFake.No(MediaFake.Invalid) ==>
              exists x :: x in sources && (x.publisher != p || MediaFake.OutsideProfile(h.profile, x))
    ensures MediaFake.SourcesRefused(h, p, sources) == MediaFake.No(MediaFake.Conflict) ==>
              exists x :: x in sources && x.id in h.sources
  {
    if sources != [] {
      WhySourcesRefused(h, p, sources[1..]);
      assert sources[0] in sources && forall x | x in sources[1..] :: x in sources;
      hide MediaFake.OutsideProfile;
    }
  }

  /** And every refusal by a unit says which of its answers it was. */
  lemma RefusedByTheUnit(u: MediaFake.Unit, room: Room, publishing: bool, d: Decision)
    requires d.Ask? && d.participant != [] && AskUnit(u, room, publishing, d).1 != MediaFake.Ok
    ensures UnitExplains(UnitReason(AskUnit(u, room, publishing, d).1.why), u, room.id, publishing, d)
  {
    if publishing && MediaFake.ConferenceFor(u, room.id) == MediaFake.Ok {
      WhySourcesRefused(u.conferences[room.id], d.participant, d.sources);
    }
    hide MediaFake.SourcesRefused, MediaFake.WithSources, MediaFake.OutsideProfile;
  }

  /** So a client that is refused knows which it was: the message, the credential, the role, the room, the pool, the
      ceiling, or a unit. */
  lemma RefusalsSayWhy(s: Seams, st: System, op: Op, reason: Reason)
    requires Roomcred.IsDigest(s.sign) && op.Begin? && Placement.Distinct(Placement.IdsOf(op.room.pool))
    requires Apply(s, st, op).1 == Heard(Answered(Refused(reason)))
    ensures var d := Decide(s, op.room, op.m, op.names, st.units.Keys, op.now);
            if d.Ask? then UnitExplains(reason, st.units[d.unit], op.room.id, op.m.request.publishing, d)
            else Explains(reason, s, op.room, op.m, op.names, st.units.Keys, op.now)
  {
    var d := Decide(s, op.room, op.m, op.names, st.units.Keys, op.now);
    if d.Ask? {
      AskRestsOn(s, op.room, op.m, op.names, st.units.Keys, op.now);
      if AskUnit(st.units[d.unit], op.room, op.m.request.publishing, d).1 != MediaFake.Ok {
        RefusedByTheUnit(st.units[d.unit], op.room, op.m.request.publishing, d);
      }
    } else {
      RefusedBeforeAsking(s, op.room, op.m, op.names, st.units.Keys, op.now);
    }
    hide Decide, AskUnit, UnitExplains, Explains, Credited, OnePerOffer, UnitReason;
  }

  // ---------------------------------------------------------------- in which order

  /** There is no name left for an offer that could be made a source, and those before it have theirs. */
  ghost predicate NamesRunOut(names: seq<Name>, offers: seq<Offer>)
  {
    exists k: nat ::
      && k < |offers| && (forall j: nat | j < k :: Offerable(NameAt(names, j + 1), offers[j]))
      && offers[k].kind in KINDS && !Mints(NameAt(names, k + 1))
  }

  lemma NamesRunOutOnce(names: seq<Name>, offers: seq<Offer>)
    requires offers != []
    ensures var past, n := offers[..|offers| - 1], |offers| - 1;
            && (NamesRunOut(names, past) ==> !AllOfferable(names, past))
            && (NamesRunOut(names, offers) <==>
                  || NamesRunOut(names, past)
                  || (AllOfferable(names, past) && offers[n].kind in KINDS && !Mints(NameAt(names, n + 1))))
  {
    var past, n := offers[..|offers| - 1], |offers| - 1;
    assert forall k: nat | k < n :: past[k] == offers[k];
    forall m: Name, o: Offer | !Mints(m) ensures !Offerable(m, o) {
      NotOfferable(m, o);
    }
    hide Offerable, Mints, NameAt;
    if NamesRunOut(names, past) {
      var k: nat :| && k < n && (forall j: nat | j < k :: Offerable(NameAt(names, j + 1), past[j]))
                    && past[k].kind in KINDS && !Mints(NameAt(names, k + 1));
      assert offers[k].kind in KINDS;
    }
    if NamesRunOut(names, offers) {
      var k: nat :| && k < |offers| && (forall j: nat | j < k :: Offerable(NameAt(names, j + 1), offers[j]))
                    && offers[k].kind in KINDS && !Mints(NameAt(names, k + 1));
      assert k < n ==> past[k].kind in KINDS;
    }
  }

  lemma OneOfferStops(n: Name, o: Offer, participant: Id, sources: seq<Domain.Source>)
    ensures OneOffer(n, o, participant, sources).NoNames? <==> o.kind in KINDS && !Mints(n)
  {
    KindsByName(o.kind);
    hide KindOf;
  }

  lemma {:induction false} MintingStopsWithoutNames(names: seq<Name>, offers: seq<Offer>, participant: Id)
    requires participant != []
    ensures Minted(names, offers, participant).NoNames? <==> NamesRunOut(names, offers)
  {
    hide NamesRunOut, AllOfferable, OneOffer, Mints, NameAt;
    if offers == [] {
      NoneRunOut(names);
    } else {
      var n := |offers| - 1;
      var past := Minted(names, offers[..n], participant);
      MintingStopsWithoutNames(names, offers[..n], participant);
      MintsExactlyWhen(names, offers[..n], participant);
      NamesRunOutOnce(names, offers);
      if past.Going? {
        OneOfferStops(NameAt(names, n + 1), offers[n], participant, past.sources);
      }
    }
  }

  lemma NoneRunOut(names: seq<Name>)
    ensures !NamesRunOut(names, [])
  {
  }

  lemma NotOfferable(n: Name, o: Offer)
    requires !Mints(n)
    ensures !Offerable(n, o)
  {
  }

  ghost predicate Vouched(s: Seams, m: Message, room: Id, now: int)
    requires m.Decoded?
  {
    exists claims :: Credited(s, m.request.credential, room, now, claims)
  }

  ghost predicate Empowered(s: Seams, m: Message, room: Id, now: int)
    requires m.Decoded?
  {
    exists claims ::
      Credited(s, m.request.credential, room, now, claims) && (m.request.publishing ==> s.mayPublish(claims.role))
  }

  /** What an admission comes to before any unit is asked, in the order the questions are asked in: the first that fails
      is the one answered, and where none does the unit the placer names is asked. */
  lemma DecidedInOrder(s: Seams, room: Room, m: Message, names: seq<Name>, held: set<Id>, now: int)
    requires Roomcred.IsDigest(s.sign)
    ensures var d, where := Decide(s, room, m, names, held, now), Placement.ParticipantPlace(room.pool, room.placement);
            if room.id == [] || room.placement.id != room.id then d == No(Fault)
            else if !Reads(m) || m.request.conference != room.id then d == No(Refused(MalformedRequest))
            else if !Vouched(s, m, room.id, now) then d == No(Refused(CredentialRefused))
            else if !Empowered(s, m, room.id, now) then d == No(Refused(NotPermitted))
            else if !room.open then d == No(Refused(ConferenceNotOpen))
            else if !Mints(NameAt(names, 0)) then d == No(Fault)
            else if !AllOfferable(names, m.request.offers) then
              d == No(if NamesRunOut(names, m.request.offers) then Fault else Refused(MalformedRequest))
            else if where.Refuse? then d == No(Refused(PlacementReason(where.reason)))
            else if where.unit !in held then d == No(Refused(UnitUnavailable))
            else d.Ask? && d.unit == where.unit && d.participant == names[0].text
  {
    if Reads(m) {
      CreditedExactlyWhen(s, m.request.credential, room.id, now);
      if Mints(NameAt(names, 0)) {
        var participant := names[0].text;
        MintsExactlyWhen(names, m.request.offers, participant);
        MintedMatches(names, m.request.offers, participant);
        MintingStopsWithoutNames(names, m.request.offers, participant);
      }
    }
    hide Credited, AllOfferable, NamesRunOut, Minted, OnePerOffer, NamedBy, Roomcred.Verify, Placement.ParticipantPlace;
    hide Reads, PlacementReason;
  }
}
