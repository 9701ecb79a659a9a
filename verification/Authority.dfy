/** By what right anybody publishes: what a grant rests on, and where what a unit holds came from. */
module Authority {
  import opened Ids
  import opened Admission
  import opened AdmissionRuns
  import Domain
  import Roomcred
  import Placement
  import Base64
  import MediaFake
  import FabricRuns
  import Receptions

  // ---------------------------------------------------------------- one grant

  /** What a kind of stream is called in a request. */
  function KindName(k: Domain.Kind): Bytes
  {
    match k
    case Audio => Ascii("audio")
    case Video => Ascii("video")
  }

  const KINDS := {KindName(Domain.Audio), KindName(Domain.Video)}

  lemma KindsByName(b: Bytes)
    ensures KindOf(b) == (if b in KINDS then KindOf(b) else NotAKind) && (b in KINDS ==> KindOf(b).Kind?)
    ensures forall k: Domain.Kind :: KindOf(b) == Kind(k) <==> b == KindName(k)
  {
    assert Ascii("audio")[0] == 97 && Ascii("video")[0] == 118;
  }

  /** Source `k` is the one the `k`th offer asked for, published by the participant. */
  predicate Answers(o: Offer, source: Domain.Source, participant: Id)
  {
    o.kind == KindName(source.kind) && source.layers == o.layers >= 1 && source.publisher == participant
    && source.id != []
  }

  predicate OnePerOffer(offers: seq<Offer>, sources: seq<Domain.Source>, participant: Id)
  {
    |sources| == |offers| && forall k :: 0 <= k < |offers| ==> Answers(offers[k], sources[k], participant)
  }

  /** What minting has made of some offers: a source for each, or fewer. */
  ghost predicate Matched(names: seq<Name>, offers: seq<Offer>, participant: Id, m: Minting)
  {
    match m
    case Going(sources) =>
      OnePerOffer(offers, sources, participant) && NamedBy(names, sources)
    case Stopped(sources) => |sources| < |offers|
    case NoNames => true
  }

  lemma {:induction false} MintedMatches(names: seq<Name>, offers: seq<Offer>, participant: Id)
    requires participant != []
    ensures Matched(names, offers, participant, Minted(names, offers, participant))
  {
    if offers != [] {
      var n := |offers| - 1;
      MintedMatches(names, offers[..n], participant);
      var past := Minted(names, offers[..n], participant);
      if past.Going? {
        OneMoreMatched(names, offers, participant, past.sources);
      }
      hide OneOffer, NameAt, OnePerOffer;
    }
  }

  lemma OneMoreMatched(names: seq<Name>, offers: seq<Offer>, participant: Id, sources: seq<Domain.Source>)
    requires participant != [] && offers != [] && Matched(names, offers[..|offers| - 1], participant, Going(sources))
    ensures Matched(names, offers, participant,
                    OneOffer(NameAt(names, |offers|), offers[|offers| - 1], participant, sources))
  {
    var n := |offers| - 1;
    OneOfferMatches(NameAt(names, |offers|), offers[n], participant, sources);
    hide OneOffer, Answers, NameAt;
    var r := OneOffer(NameAt(names, |offers|), offers[n], participant, sources);
    if r.Going? {
      forall k | 0 <= k < n ensures r.sources[k] == sources[k] && offers[k] == offers[..n][k] {
        assert r.sources[..n][k] == r.sources[k];
      }
    }
  }

  lemma OneOfferMatches(n: Name, o: Offer, participant: Id, sources: seq<Domain.Source>)
    requires participant != []
    ensures match OneOffer(n, o, participant, sources)
            case Going(more) =>
              && |more| == |sources| + 1 && more[..|sources|] == sources
              && Answers(o, more[|sources|], participant) && n == Name(more[|sources|].id)
            case Stopped(more) => more == sources
            case NoNames => true
  {
    KindsByName(o.kind);
    hide KindOf, KindName;
  }

  /** The credential is one laid out as this system lays one out, tagged under its key, for this room, for a role,
      and read within its window. */
  ghost predicate Credited(s: Seams, credential: Bytes, room: Id, now: int, claims: Roomcred.Claims)
  {
    && |credential| <= Roomcred.MAX_TOKEN_BYTES && Roomcred.Fits(claims) && Roomcred.Floored(claims) == claims
    && Base64.Decode(credential) == Base64.Decoded(Roomcred.Layout(claims) + s.sign(s.key, Roomcred.Layout(claims)))
    && claims.conference == room != [] && claims.role != [] && claims.notBefore <= now <= claims.expires
  }

  /** What letting somebody in rests on. */
  ghost predicate Authorised(s: Seams, op: Op, l: Letting)
  {
    && op.Begin? && op.m.Decoded? && op.room.open && l.conference == op.room.id == op.m.request.conference
    && l.publishing == op.m.request.publishing && (l.publishing ==> s.mayPublish(l.role))
    && OnePerOffer(op.m.request.offers, l.sources, l.participant) && (l.publishing <==> l.sources != [])
    && l.participant != [] && NameAt(op.names, 0) == Name(l.participant) && NamedBy(op.names, l.sources)
    && Placement.ParticipantPlace(op.room.pool, op.room.placement) == Placement.Place(l.unit)
    && l.transport == MediaFake.Transport(l.unit, l.conference, l.participant)
    && exists claims ::
         && Credited(s, op.m.request.credential, l.conference, op.now, claims)
         && l.role == claims.role && l.identity == claims.subject
  }

  /** Source `k` goes by the name after the participant's and those of the sources before it. */
  predicate NamedBy(names: seq<Name>, sources: seq<Domain.Source>)
  {
    forall k :: 0 <= k < |sources| ==> NameAt(names, k + 1) == Name(sources[k].id)
  }

  predicate Offerable(n: Name, o: Offer)
  {
    o.kind in KINDS && o.layers >= 1 && Mints(n)
  }

  /** Every offer is of a kind there is and of a layer at least, and there is a name for its source. */
  ghost predicate AllOfferable(names: seq<Name>, offers: seq<Offer>)
  {
    forall k :: 0 <= k < |offers| ==> Offerable(NameAt(names, k + 1), offers[k])
  }

  lemma {:induction false} MintsExactlyWhen(names: seq<Name>, offers: seq<Offer>, participant: Id)
    requires participant != []
    ensures Minted(names, offers, participant).Going? <==> AllOfferable(names, offers)
  {
    if offers != [] {
      var n := |offers| - 1;
      MintsExactlyWhen(names, offers[..n], participant);
      var past := Minted(names, offers[..n], participant);
      assert past.Going? ==>
          (OneOffer(NameAt(names, n + 1), offers[n], participant, past.sources).Going?
           <==> Offerable(NameAt(names, n + 1), offers[n]));
      hide OneOffer, Offerable, NameAt;
      assert forall k | 0 <= k < n :: offers[..n][k] == offers[k];
    }
  }

  /** A unit is asked exactly when the records agree, the message is a request for this room, the credential
      verifies for it and carries a role that may do what is asked, the room is open, there are names and sources
      for everything offered, and the placer answers with a unit there is. */
  lemma AsksAUnitExactlyWhen(s: Seams, room: Room, m: Message, names: seq<Name>, held: set<Id>, now: int)
    requires Roomcred.IsDigest(s.sign)
    ensures Decide(s, room, m, names, held, now).Ask? <==>
              && room.id != [] && room.placement.id == room.id && Reads(m)
              && m.request.conference == room.id && room.open
              && (exists claims ::
                    && Credited(s, m.request.credential, room.id, now, claims)
                    && (m.request.publishing ==> s.mayPublish(claims.role)))
              && Mints(NameAt(names, 0)) && AllOfferable(names, m.request.offers)
              && Placement.ParticipantPlace(room.pool, room.placement).Place?
              && Placement.ParticipantPlace(room.pool, room.placement).unit in held
  {
    if Reads(m) && Mints(NameAt(names, 0)) {
      CreditedExactlyWhen(s, m.request.credential, room.id, now);
      MintsExactlyWhen(names, m.request.offers, names[0].text);
      MintedMatches(names, m.request.offers, names[0].text);
    }
    hide Credited, AllOfferable, Minted, OnePerOffer, Roomcred.Verify, Placement.ParticipantPlace, Reads;
    if Reads(m) {
      CreditedExactlyWhen(s, m.request.credential, room.id, now);
    }
  }

  lemma CreditedExactlyWhen(s: Seams, credential: Bytes, room: Id, now: int)
    requires Roomcred.IsDigest(s.sign)
    ensures var read := Roomcred.Verify(s.sign, s.key, credential, room, now);
            forall claims ::
              Credited(s, credential, room, now, claims) <==> read == Roomcred.Read(claims) && claims.role != []
  {
    forall claims ensures Credited(s, credential, room, now, claims) <==>
                            Roomcred.Verify(s.sign, s.key, credential, room, now) == Roomcred.Read(claims)
                            && claims.role != [] {
      Roomcred.VerifiesExactlyWhen(s.sign, s.key, credential, room, now, claims);
      hide Roomcred.Verify, Roomcred.Layout, Base64.Decode;
    }
  }

  /** What was found before any unit was asked. */
  lemma AskRestsOn(s: Seams, room: Room, m: Message, names: seq<Name>, held: set<Id>, now: int)
    requires Roomcred.IsDigest(s.sign)
    ensures var d := Decide(s, room, m, names, held, now);
            d.Ask? ==>
              && m.Decoded? && m.request.conference == room.id != [] && room.open
              && Credited(s, m.request.credential, room.id, now, d.claims)
              && (m.request.publishing ==> s.mayPublish(d.claims.role))
              && (m.request.publishing <==> m.request.offers != [])
              && d.participant != [] && NameAt(names, 0) == Name(d.participant)
              && OnePerOffer(m.request.offers, d.sources, d.participant)
              && NamedBy(names, d.sources)
              && Placement.ParticipantPlace(room.pool, room.placement) == Placement.Place(d.unit)
  {
    var d := Decide(s, room, m, names, held, now);
    if d.Ask? {
      Roomcred.VerifiesExactlyWhen(s.sign, s.key, m.request.credential, room.id, now, d.claims);
      MintedMatches(names, m.request.offers, d.participant);
      hide Roomcred.Verify, Minted, OnePerOffer, Roomcred.Layout, Base64.Decode, Placement.ParticipantPlace;
    }
  }

  lemma GrantsRestOn(s: Seams, st: System, op: Op, l: Letting)
    requires Roomcred.IsDigest(s.sign) && op.Begin? && Apply(s, st, op).1 == Heard(LetIn(l))
    ensures Authorised(s, op, l)
  {
    AskRestsOn(s, op.room, op.m, op.names, st.units.Keys, op.now);
    var d := Decide(s, op.room, op.m, op.names, st.units.Keys, op.now);
    hide Decide, AskUnit, Credited, OnePerOffer, NamedBy, Placement.ParticipantPlace, MediaFake.Transport;
    assert Credited(s, op.m.request.credential, l.conference, op.now, d.claims);
  }

  // ---------------------------------------------------------------- what it does to the units

  function PublishersIn(u: MediaFake.Unit, c: Id): set<Id>
  {
    if c in u.conferences then u.conferences[c].publishers else {}
  }

  function SourcesIn(u: MediaFake.Unit, c: Id): map<Id, Domain.Source>
  {
    if c in u.conferences then u.conferences[c].sources else map[]
  }

  function PublishersOf(f: MediaFake.Units, n: Id, c: Id): set<Id>
  {
    if n in f then PublishersIn(f[n], c) else {}
  }

  function SourcesOf(f: MediaFake.Units, n: Id, c: Id): map<Id, Domain.Source>
  {
    if n in f then SourcesIn(f[n], c) else map[]
  }

  /** Anything but letting a participant in leaves the publishers and sources of a conference on a unit as they
      were, or leaves none. */
  lemma OthersAddNothing(f: MediaFake.Units, op: FabricRuns.Op, n: Id, c: Id)
    requires !Lets(op)
    ensures var g := FabricRuns.Apply(f, op).0;
            || (PublishersOf(g, n, c) == PublishersOf(f, n, c) && SourcesOf(g, n, c) == SourcesOf(f, n, c))
            || (PublishersOf(g, n, c) == {} && SourcesOf(g, n, c) == map[])
  {
    if op.name == n && n in f && !op.Add? && !op.Close? {
      OthersAddNothingHere(f[n], op, f.Keys, c);
    }
    hide FabricRuns.Locally;
  }

  lemma OthersAddNothingHere(u: MediaFake.Unit, op: FabricRuns.Op, names: set<Id>, c: Id)
    requires !Lets(op) && !op.Add? && !op.Close?
    ensures var v := FabricRuns.Locally(u, op, names).0;
            c in v.conferences ==>
              if c in u.conferences then
                v.conferences[c].publishers == u.conferences[c].publishers
                && v.conferences[c].sources == u.conferences[c].sources
              else v.conferences[c].publishers == {} && v.conferences[c].sources == map[]
  {
    hide MediaFake.ReferenceName, MediaFake.EntriesFit, MediaFake.Accepted, MediaFake.LinkId;
  }

  /** A refused admission leaves every unit with the conferences, publishers, subscribers, sources and links it
      had, and the desk as it was. */
  lemma ARefusalChangesNothing(s: Seams, st: System, op: Op)
    requires op.Begin? && Apply(s, st, op).1.Heard? && Apply(s, st, op).1.asked.Answered?
    ensures var n := Apply(s, st, op).0;
            && n.outstanding == st.outstanding && n.waiting == st.waiting && n.units.Keys == st.units.Keys
            && forall name | name in st.units :: n.units[name].conferences == st.units[name].conferences
  {
    var d := Decide(s, op.room, op.m, op.names, st.units.Keys, op.now);
    if d.Ask? {
      RefusedHere(st.units[d.unit], op.room, op.m.request.publishing, d);
    }
    hide Decide, AskUnit;
  }

  lemma RefusedHere(u: MediaFake.Unit, room: Room, publishing: bool, d: Decision)
    requires d.Ask? && AskUnit(u, room, publishing, d).1 != MediaFake.Ok
    ensures AskUnit(u, room, publishing, d).0.conferences == u.conferences
  {
    hide MediaFake.SourcesRefused, MediaFake.WithSources;
  }

  /** What a unit does when it lets somebody in, said of one of its conferences. */
  lemma LetInHere(u: MediaFake.Unit, room: Room, publishing: bool, d: Decision, c: Id)
    requires d.Ask? && AskUnit(u, room, publishing, d).1 == MediaFake.Ok
    ensures var v := AskUnit(u, room, publishing, d).0;
            var here := publishing && c == room.id;
            && PublishersIn(v, c) == PublishersIn(u, c) + (if here then {d.participant} else {})
            && SourcesIn(v, c) == (if here then MediaFake.WithSources(SourcesIn(u, c), d.sources) else SourcesIn(u, c))
            && (here ==> forall x | x in d.sources :: x.id !in SourcesIn(u, c))
  {
    if publishing {
      Receptions.SourcesTakenExactly(u.conferences[room.id], d.participant, d.sources);
    }
    hide MediaFake.SourcesRefused, MediaFake.WithSources;
  }

  /** It lets a publisher in to that conference on that unit. */
  predicate Here(l: Letting, n: Id, c: Id)
  {
    l.unit == n && l.conference == c && l.publishing
  }

  lemma LettingIsLetIn(s: Seams, st: System, op: Op, l: Letting) returns (d: Decision)
    requires op.Begin? && Apply(s, st, op).1 == Heard(LetIn(l))
    ensures d.Ask? && d.unit in st.units && op.m.Decoded?
    ensures var (u, reply) := AskUnit(st.units[d.unit], op.room, op.m.request.publishing, d);
            reply == MediaFake.Ok && Apply(s, st, op).0.units == st.units[d.unit := u]
    ensures && l.unit == d.unit && l.conference == op.room.id && l.publishing == op.m.request.publishing
            && l.participant == d.participant && l.sources == d.sources
  {
    d := Decide(s, op.room, op.m, op.names, st.units.Keys, op.now);
    hide Decide, AskUnit, MediaFake.Transport;
  }

  /** What letting somebody in changes on the units, said of one conference on one unit. */
  lemma ALettingAdds(s: Seams, st: System, op: Op, l: Letting, n: Id, c: Id)
    requires op.Begin? && Apply(s, st, op).1 == Heard(LetIn(l))
    ensures var f := Apply(s, st, op).0.units;
            var here := Here(l, n, c);
            && PublishersOf(f, n, c) == PublishersOf(st.units, n, c) + (if here then {l.participant} else {})
            && SourcesOf(f, n, c)
               == (if here then MediaFake.WithSources(SourcesOf(st.units, n, c), l.sources)
                   else SourcesOf(st.units, n, c))
            && (here ==> forall x | x in l.sources :: x.id !in SourcesOf(st.units, n, c))
  {
    var d := LettingIsLetIn(s, st, op, l);
    hide Apply;
    LetInHere(st.units[d.unit], op.room, op.m.request.publishing, d, c);
    hide AskUnit, MediaFake.WithSources, PublishersIn, SourcesIn;
  }

  // ---------------------------------------------------------------- one step

  /** Nothing changes for the publishers and sources of a conference on a unit but that some may be gone. */
  predicate Fewer(f: MediaFake.Units, g: MediaFake.Units, n: Id, c: Id)
  {
    || (PublishersOf(g, n, c) == PublishersOf(f, n, c) && SourcesOf(g, n, c) == SourcesOf(f, n, c))
    || (PublishersOf(g, n, c) == {} && SourcesOf(g, n, c) == map[])
  }

  predicate LetsSomebodyIn(s: Seams, st: System, op: Op)
  {
    op.Begin? && Apply(s, st, op).1.Heard? && Apply(s, st, op).1.asked.LetIn?
  }

  lemma EveryOtherStep(s: Seams, st: System, op: Op, n: Id, c: Id)
    requires !LetsSomebodyIn(s, st, op)
    ensures Fewer(st.units, Apply(s, st, op).0.units, n, c)
  {
    match op {
      case Begin(_, _, _, _) =>
        ARefusalChangesNothing(s, st, op);
        hide Apply;
      case Units(o) =>
        if !Lets(o) {
          OthersAddNothing(st.units, o, n, c);
        }
        hide FabricRuns.Apply, Lets;
      case _ =>
    }
  }

  /** A publisher a step brings about was let in by it. */
  lemma PublisherStep(s: Seams, st: System, op: Op, n: Id, c: Id, p: Id) returns (l: Letting)
    requires p in PublishersOf(Apply(s, st, op).0.units, n, c) && p !in PublishersOf(st.units, n, c)
    ensures op.Begin? && Apply(s, st, op).1 == Heard(LetIn(l)) && Here(l, n, c) && l.participant == p
  {
    if LetsSomebodyIn(s, st, op) {
      l := Apply(s, st, op).1.asked.letting;
      ALettingAdds(s, st, op, l, n, c);
      hide Apply, PublishersOf, SourcesOf;
    } else {
      EveryOtherStep(s, st, op, n, c);
      hide Apply, PublishersOf, SourcesOf;
      assert false;
    }
  }

  /** A source a step brings about is one of those it let in. */
  lemma SourceStep(s: Seams, st: System, op: Op, n: Id, c: Id, id: Id)
    requires id in SourcesOf(Apply(s, st, op).0.units, n, c)
    ensures var x := SourcesOf(Apply(s, st, op).0.units, n, c)[id];
            || (id in SourcesOf(st.units, n, c) && SourcesOf(st.units, n, c)[id] == x)
            || (LetsSomebodyIn(s, st, op) && Here(Apply(s, st, op).1.asked.letting, n, c)
                && x in Apply(s, st, op).1.asked.letting.sources)
  {
    if LetsSomebodyIn(s, st, op) {
      var l := Apply(s, st, op).1.asked.letting;
      ALettingAdds(s, st, op, l, n, c);
      Receptions.WithSourcesAt(SourcesOf(st.units, n, c), l.sources, id);
    } else {
      EveryOtherStep(s, st, op, n, c);
    }
    hide Apply, PublishersOf, SourcesOf, MediaFake.WithSources;
  }

  /** While a publisher stays, so does every source of the conference. */
  lemma SourcesStay(s: Seams, st: System, op: Op, n: Id, c: Id, p: Id, id: Id)
    requires p in PublishersOf(st.units, n, c) && p in PublishersOf(Apply(s, st, op).0.units, n, c)
    requires id in SourcesOf(st.units, n, c)
    ensures var f := Apply(s, st, op).0.units;
            id in SourcesOf(f, n, c) && SourcesOf(f, n, c)[id] == SourcesOf(st.units, n, c)[id]
  {
    if LetsSomebodyIn(s, st, op) {
      var l := Apply(s, st, op).1.asked.letting;
      ALettingAdds(s, st, op, l, n, c);
      Receptions.WithSourcesAt(SourcesOf(st.units, n, c), l.sources, id);
    } else {
      EveryOtherStep(s, st, op, n, c);
    }
    hide Apply, PublishersOf, SourcesOf, MediaFake.WithSources;
  }

  // ---------------------------------------------------------------- which of its sources a unit holds

  /** Offers that come by one name are one offer. */
  ghost predicate OffersAgree(names: seq<Name>, offers: seq<Offer>)
  {
    forall i, j :: 0 <= i < j < |offers| && NameAt(names, i + 1) == NameAt(names, j + 1) ==> offers[i] == offers[j]
  }

  lemma KindsAreNamedOnce(a: Domain.Kind, b: Domain.Kind)
    requires KindName(a) == KindName(b)
    ensures a == b
  {
    KindsByName(KindName(a));
  }

  /** The sources minted agree with each other exactly when the offers and the names they come by do. */
  lemma SourcesAgreeExactlyWhen(names: seq<Name>, offers: seq<Offer>, sources: seq<Domain.Source>, participant: Id)
    requires OnePerOffer(offers, sources, participant) && NamedBy(names, sources)
    ensures Receptions.Agreeing(sources) <==> OffersAgree(names, offers)
  {
    forall i, j | 0 <= i < j < |offers|
      ensures (sources[i].id == sources[j].id <==> NameAt(names, i + 1) == NameAt(names, j + 1))
      ensures sources[i].id == sources[j].id ==> (sources[i] == sources[j] <==> offers[i] == offers[j])
    {
      assert NameAt(names, i + 1) == Name(sources[i].id) && NameAt(names, j + 1) == Name(sources[j].id);
      assert Answers(offers[i], sources[i], participant) && Answers(offers[j], sources[j], participant);
      if offers[i] == offers[j] {
        KindsAreNamedOnce(sources[i].kind, sources[j].kind);
      }
    }
    hide NameAt, NamedBy, OnePerOffer;
  }

  lemma AllHeldAtOnce(s: Seams, st: System, op: Op, l: Letting)
    requires op.Begin? && Apply(s, st, op).1 == Heard(LetIn(l)) && l.publishing
    ensures Receptions.Agreeing(l.sources) ==>
            Receptions.AllHeld(SourcesOf(Apply(s, st, op).0.units, l.unit, l.conference), l.sources)
  {
    ALettingAdds(s, st, op, l, l.unit, l.conference);
    Receptions.AllAreHeldExactlyWhen(SourcesOf(st.units, l.unit, l.conference), l.sources);
    hide Apply, SourcesOf, PublishersOf, MediaFake.WithSources, Receptions.Agreeing, Receptions.AllHeld;
  }

  lemma HeldMeansAgreeing(held: map<Id, Domain.Source>, ss: seq<Domain.Source>)
    requires Receptions.AllHeld(held, ss)
    ensures Receptions.Agreeing(ss)
  {
    forall i, j | 0 <= i < j < |ss| && ss[i].id == ss[j].id ensures ss[i] == ss[j] {
      assert ss[i] in ss && ss[j] in ss;
    }
  }

  // ---------------------------------------------------------------- whole runs

  lemma {:induction false} PublishersWereLetIn(s: Seams, ops: seq<Op>, n: Id, c: Id, p: Id) returns (i: nat, l: Letting)
    requires Roomcred.IsDigest(s.sign) && p in PublishersOf(Run(s, ops).units, n, c)
    ensures LetInAt(s, ops, i, l) && l.participant == p && Here(l, n, c) && Authorised(s, ops[i], l)
    ensures Receptions.Agreeing(l.sources) ==> Receptions.AllHeld(SourcesOf(Run(s, ops).units, n, c), l.sources)
  {
    var past, op := ops[..|ops| - 1], ops[|ops| - 1];
    var st := Run(s, past);
    RunUnfolds(s, ops);
    assert ops == past + [op];
    if p in PublishersOf(st.units, n, c) {
      hide Apply, Authorised, PublishersOf, SourcesOf, Here, Receptions.Agreeing, Run;
      i, l := PublishersWereLetIn(s, past, n, c, p);
      LetInBefore(s, past, op, i, l);
      hide LetInAt;
      forall id | id in SourcesOf(st.units, n, c)
        ensures id in SourcesOf(Run(s, ops).units, n, c)
                && SourcesOf(Run(s, ops).units, n, c)[id] == SourcesOf(st.units, n, c)[id] {
        SourcesStay(s, st, op, n, c, p, id);
      }
    } else {
      l := PublisherStep(s, st, op, n, c, p);
      i := |past|;
      GrantsRestOn(s, st, op, l);
      AllHeldAtOnce(s, st, op, l);
      hide Run, PublishersOf, SourcesOf, Apply, Authorised, Receptions.Agreeing, Receptions.AllHeld;
    }
  }

  /** Every publisher a unit holds was let in by an admission of this run, to that unit and conference, on a
      credential that verified and whose role may publish; and the unit holds one source of it for each offer it made
      exactly when no two different offers were given one name. */
  lemma PublishersWereAuthorised(s: Seams, ops: seq<Op>, n: Id, c: Id, p: Id) returns (i: nat, l: Letting)
    requires Roomcred.IsDigest(s.sign) && p in PublishersOf(Run(s, ops).units, n, c)
    ensures LetInAt(s, ops, i, l) && l.participant == p && Here(l, n, c) && Authorised(s, ops[i], l)
    ensures Receptions.AllHeld(SourcesOf(Run(s, ops).units, n, c), l.sources)
            <==> OffersAgree(ops[i].names, ops[i].m.request.offers)
  {
    i, l := PublishersWereLetIn(s, ops, n, c, p);
    SourcesAgreeExactlyWhen(ops[i].names, ops[i].m.request.offers, l.sources, l.participant);
    if Receptions.AllHeld(SourcesOf(Run(s, ops).units, n, c), l.sources) {
      HeldMeansAgreeing(SourcesOf(Run(s, ops).units, n, c), l.sources);
    }
    hide Run, SourcesOf, PublishersOf, Credited, OnePerOffer, OffersAgree, Receptions.AllHeld, Receptions.Agreeing;
  }

  /** Every source a unit holds is one of the sources such an admission minted, under its identifier. */
  lemma {:induction false} SourcesWereGranted(s: Seams, ops: seq<Op>, n: Id, c: Id, id: Id) returns (i: nat, l: Letting)
    requires Roomcred.IsDigest(s.sign) && id in SourcesOf(Run(s, ops).units, n, c)
    ensures LetInAt(s, ops, i, l) && Here(l, n, c) && Authorised(s, ops[i], l)
    ensures SourcesOf(Run(s, ops).units, n, c)[id] in l.sources
  {
    var past, op := ops[..|ops| - 1], ops[|ops| - 1];
    var st := Run(s, past);
    RunUnfolds(s, ops);
    assert ops == past + [op];
    SourceStep(s, st, op, n, c, id);
    hide PublishersOf, SourcesOf, Here, Run;
    if id in SourcesOf(st.units, n, c) && SourcesOf(st.units, n, c)[id] == SourcesOf(Run(s, ops).units, n, c)[id] {
      hide Apply, Authorised;
      i, l := SourcesWereGranted(s, past, n, c, id);
      LetInBefore(s, past, op, i, l);
      hide LetInAt;
    } else {
      i, l := |past|, Apply(s, st, op).1.asked.letting;
      GrantsRestOn(s, st, op, l);
      hide Apply, Authorised;
    }
  }

  /** And whoever is outstanding at the desk was let in by such an admission, and then recorded. */
  lemma TheOutstandingWereAuthorised(s: Seams, ops: seq<Op>, p: Id) returns (i: nat, j: nat, l: Letting)
    requires Roomcred.IsDigest(s.sign) && p in Run(s, ops).outstanding
    ensures RecordedAt(s, ops, i, j, l, Run(s, ops).outstanding[p]) && l.participant == p && Authorised(s, ops[i], l)
  {
    i, j, l := OutstandingIsGranted(s, ops, p);
    assert LetInAt(s, ops, i, l);
    hide Run, RecordedAt, Apply;
    GrantsRestOn(s, Run(s, ops[..i]), ops[i], l);
  }
}
