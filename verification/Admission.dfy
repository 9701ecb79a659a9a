/** The exchange that lets a participant in: `internal/admission/admission.go`, with the credential, the placer and
    the media plane it asks. Instants are nanoseconds. */
module Admission {
  import opened Ids
  import opened Sorting
  import Domain
  import Placement
  import Roomcred
  import MediaFake

  datatype Reason =
    | MalformedRequest
    | CredentialRefused
    | NotPermitted
    | ConferenceNotOpen
    | NoCapacity
    | RoomFull
    | ConferenceAtItsUnitCeiling
    | UnitRefused
    | UnitUnavailable

  /** What a request says of one stream: its kind, by name, and its layers. */
  datatype Offer = Offer(kind: Bytes, layers: int)

  datatype Request = Request(conference: Id, credential: Bytes, publishing: bool, offers: seq<Offer>)

  /** What a message decodes to: no request, or the members of one. */
  datatype Message = NoRequest | Decoded(request: Request)

  datatype Room = Room(id: Id, open: bool, pool: seq<Placement.Row>, placement: Placement.Conference)

  /** What the source of identifiers answers, one name after the other. */
  datatype Name = NoName | Name(text: Bytes)

  datatype Grant = Grant(
    conference: Id, participant: Id, identity: Id, role: Id, unit: Id, publishing: bool,
    sources: seq<Domain.Source>, transport: Bytes, grantedAt: int, deadline: int)

  datatype Abandoned = Abandoned(conference: Id, participant: Id, unit: Id, grantedAt: int, deadline: int)

  datatype Outcome = Fault | Refused(reason: Reason) | Granted(grant: Grant)

  /** What a desk is built with. */
  datatype Seams = Seams(sign: Roomcred.Digest, key: Bytes, mayPublish: Id -> bool, window: int)

  /** What an admission decides before any unit is asked. */
  datatype Decision =
    | No(outcome: Outcome)
    | Ask(participant: Id, sources: seq<Domain.Source>, claims: Roomcred.Claims, unit: Id)

  // ---------------------------------------------------------------- before any unit is asked

  /** A message is a request when nothing it needs is missing and it offers sources exactly if it publishes. */
  predicate Reads(m: Message)
  {
    && m.Decoded? && m.request.conference != [] && m.request.credential != []
    && (m.request.publishing <==> m.request.offers != [])
  }

  datatype KindRead = NotAKind | Kind(kind: Domain.Kind)

  function KindOf(s: Bytes): KindRead
  {
    if s == Ascii("audio") then Kind(Domain.Audio) else if s == Ascii("video") then Kind(Domain.Video) else NotAKind
  }

  function NameAt(names: seq<Name>, i: nat): Name
  {
    if i < |names| then names[i] else NoName
  }

  predicate Mints(n: Name)
  {
    n.Name? && n.text != []
  }

  /** Where minting has come to after some offers: still going, stopped at an offer the model refuses, or without
      a name. */
  datatype Minting = Going(sources: seq<Domain.Source>) | Stopped(sources: seq<Domain.Source>) | NoNames

  function OneOffer(n: Name, o: Offer, participant: Id, sources: seq<Domain.Source>): Minting
  {
    match KindOf(o.kind)
    case NotAKind => Stopped(sources)
    case Kind(kind) =>
      if !Mints(n) then NoNames
      else
        match Domain.NewSource(n.text, participant, kind, o.layers)
        case Refused(_) => Stopped(sources)
        case Made(s) => Going(sources + [s])
  }

  /** One source for each offer, the first name being the participant's. */
  function Minted(names: seq<Name>, offers: seq<Offer>, participant: Id): Minting
  {
    if offers == [] then Going([])
    else
      var past := Minted(names, offers[..|offers| - 1], participant);
      if past.Going? then OneOffer(NameAt(names, |offers|), offers[|offers| - 1], participant, past.sources) else past
  }

  function PlacementReason(r: Placement.Reason): Reason
  {
    match r
    case NoUnits => NoCapacity
    case ReachedUnitCeiling => ConferenceAtItsUnitCeiling
    case NoEligibleUnit => RoomFull
  }

  function UnitReason(e: MediaFake.Error): Reason
  {
    match e
    case Refused => UnitRefused
    case Unavailable => UnitUnavailable
    case Lost => UnitUnavailable
    case Unknown => UnitUnavailable
    case Conflict => UnitUnavailable
    case Invalid => MalformedRequest
    case Empty => UnitUnavailable
  }

  function Decide(s: Seams, room: Room, m: Message, names: seq<Name>, held: set<Id>, now: int): (d: Decision)
    ensures d.No? ==> !d.outcome.Granted?
    ensures d.Ask? ==> m.Decoded? && d.unit in held
  {
    if room.id == [] || room.placement.id != room.id then No(Fault)
    else if !Reads(m) || m.request.conference != room.id then No(Refused(MalformedRequest))
    else
      match Roomcred.Verify(s.sign, s.key, m.request.credential, room.id, now)
      case Refused(_) => No(Refused(CredentialRefused))
      case Read(claims) =>
        if claims.role == [] then No(Refused(CredentialRefused))
        else if m.request.publishing && !s.mayPublish(claims.role) then No(Refused(NotPermitted))
        else if !room.open then No(Refused(ConferenceNotOpen))
        else if !Mints(NameAt(names, 0)) then No(Fault)
        else
          var participant := names[0].text;
          var minted := Minted(names, m.request.offers, participant);
          if minted.NoNames? then No(Fault)
          else if |minted.sources| != |m.request.offers| then No(Refused(MalformedRequest))
          else
            match Placement.ParticipantPlace(room.pool, room.placement)
            case Refuse(reason) => No(Refused(PlacementReason(reason)))
            case Place(unit) =>
              if unit !in held then No(Refused(UnitUnavailable)) else Ask(participant, minted.sources, claims, unit)
  }

  // ---------------------------------------------------------------- the whole exchange

  datatype State = State(units: MediaFake.Units, outstanding: map<Id, Abandoned>)

  function AskUnit(u: MediaFake.Unit, room: Room, publishing: bool, d: Decision): (MediaFake.Unit, MediaFake.Reply)
    requires d.Ask?
  {
    if publishing then MediaFake.AdmitPublisherIn(u, room.id, d.participant, d.sources)
    else MediaFake.AdmitSubscriberIn(u, room.id, d.participant)
  }

  /** Somebody a unit has let in, whom the desk has still to record. */
  datatype Letting = Letting(
    conference: Id, participant: Id, identity: Id, role: Id, unit: Id, publishing: bool,
    sources: seq<Domain.Source>, transport: Bytes)

  datatype Asked = Answered(outcome: Outcome) | LetIn(letting: Letting)

  function LettingOf(room: Room, publishing: bool, d: Decision): Letting
    requires d.Ask?
  {
    Letting(room.id, d.participant, d.claims.subject, d.claims.role, d.unit, publishing, d.sources,
            MediaFake.Transport(d.unit, room.id, d.participant))
  }

  /** The admission up to the unit's answer. Nothing of the desk's own has changed by then. */
  function AskOf(units: MediaFake.Units, s: Seams, room: Room, m: Message, names: seq<Name>,
                 now: int): (MediaFake.Units, Asked)
  {
    var d := Decide(s, room, m, names, units.Keys, now);
    if d.No? then (units, Answered(d.outcome))
    else
      var (u, reply) := AskUnit(units[d.unit], room, m.request.publishing, d);
      (units[d.unit := u],
       if reply != MediaFake.Ok then Answered(Refused(UnitReason(reply.why)))
       else LetIn(LettingOf(room, m.request.publishing, d)))
  }

  function GrantOf(s: Seams, l: Letting, later: int): Grant
  {
    Grant(l.conference, l.participant, l.identity, l.role, l.unit, l.publishing, l.sources, l.transport,
          later, later + s.window)
  }

  function Record(g: Grant): Abandoned
  {
    Abandoned(g.conference, g.participant, g.unit, g.grantedAt, g.deadline)
  }

  /** The whole of it, when nothing else happens in between. `now` is when the credential is read and `later` when
      the unit has answered. */
  function AdmitOf(st: State, s: Seams, room: Room, m: Message, names: seq<Name>, now: int,
                   later: int): (State, Outcome)
  {
    var (units, asked) := AskOf(st.units, s, room, m, names, now);
    match asked
    case Answered(outcome) => (State(units, st.outstanding), outcome)
    case LetIn(l) =>
      var g := GrantOf(s, l, later);
      (State(units, st.outstanding[g.participant := Record(g)]), Granted(g))
  }

  predicate Before(a: Abandoned, b: Abandoned)
  {
    if a.grantedAt == b.grantedAt then Less(a.participant, b.participant) else a.grantedAt < b.grantedAt
  }

  /** Every record is kept under its own participant. */
  ghost predicate Filed(outstanding: map<Id, Abandoned>)
  {
    forall p :: p in outstanding ==> outstanding[p].participant == p
  }

  ghost predicate Ordered(out: seq<Abandoned>)
  {
    forall i, j :: 0 <= i < j < |out| ==> Before(out[i], out[j])
  }

  /** What a sweep answers: the admissions that are due, and no other, oldest first. */
  ghost predicate IsSweep(outstanding: map<Id, Abandoned>, now: int, out: seq<Abandoned>)
  {
    && Ordered(out)
    && forall a :: a in out <==>
         a.participant in outstanding && outstanding[a.participant] == a && now >= a.deadline
  }

  function SweptOf(outstanding: map<Id, Abandoned>, now: int): map<Id, Abandoned>
  {
    map p | p in outstanding && now < outstanding[p].deadline :: outstanding[p]
  }

  class Desk {
    const seams: Seams
    const units: MediaFake.Fabric
    var outstanding: map<Id, Abandoned>

    ghost function View(): State
      reads this, units
    {
      State(units.units, outstanding)
    }

    ghost predicate Valid()
      reads this
    {
      Filed(outstanding)
    }

    constructor (seams: Seams, units: MediaFake.Fabric)
      ensures Valid() && outstanding == map[] && this.seams == seams && this.units == units
    {
      this.seams, this.units, outstanding := seams, units, map[];
    }

    method Admit(room: Room, m: Message, names: seq<Name>, now: int, later: int) returns (o: Outcome)
      requires Valid()
      modifies this, units
      ensures Valid() && (View(), o) == AdmitOf(old(View()), seams, room, m, names, now, later)
    {
      var d := Decided(room, m, names, now);
      hide Decide, MediaFake.AdmitPublisherIn, MediaFake.AdmitSubscriberIn, MediaFake.Transport;
      if d.No? {
        return d.outcome;
      }
      var reply, transport;
      if m.request.publishing {
        reply, transport := units.AdmitPublisher(d.unit, room.id, d.participant, d.sources);
      } else {
        reply, transport := units.AdmitSubscriber(d.unit, room.id, d.participant);
      }
      if reply != MediaFake.Ok {
        return Refused(UnitReason(reply.why));
      }
      var g := Grant(room.id, d.participant, d.claims.subject, d.claims.role, d.unit, m.request.publishing, d.sources,
                     transport, later, later + seams.window);
      outstanding := outstanding[d.participant := Abandoned(room.id, d.participant, d.unit, later, g.deadline)];
      return Granted(g);
    }

    /** Everything before a unit is told anything. */
    method Decided(room: Room, m: Message, names: seq<Name>, now: int) returns (d: Decision)
      ensures d == Decide(seams, room, m, names, units.units.Keys, now)
      ensures d.Ask? ==> m.Decoded? && d.unit in units.units
    {
      if room.id == [] || room.placement.id != room.id {
        return No(Fault);
      }
      if !Reads(m) || m.request.conference != room.id {
        return No(Refused(MalformedRequest));
      }
      var read := Roomcred.Verify(seams.sign, seams.key, m.request.credential, room.id, now);
      if read.Refused? || read.claims.role == [] {
        return No(Refused(CredentialRefused));
      }
      if m.request.publishing && !seams.mayPublish(read.claims.role) {
        return No(Refused(NotPermitted));
      }
      if !room.open {
        return No(Refused(ConferenceNotOpen));
      }
      if !Mints(NameAt(names, 0)) {
        return No(Fault);
      }
      var participant := names[0].text;
      var minted := Mint(names, m.request.offers, participant);
      if minted.NoNames? {
        return No(Fault);
      }
      if |minted.sources| != |m.request.offers| {
        return No(Refused(MalformedRequest));
      }
      var answer := Placement.PlaceParticipant(room.pool, room.placement);
      if answer.Refuse? {
        return No(Refused(PlacementReason(answer.reason)));
      }
      if answer.unit !in units.units {
        return No(Refused(UnitUnavailable));
      }
      return Ask(participant, minted.sources, read.claims, answer.unit);
    }

    /** One source for every offer, up to the first the model refuses. */
    method Mint(names: seq<Name>, offers: seq<Offer>, participant: Id) returns (r: Minting)
      ensures r == Minted(names, offers, participant)
    {
      var sources: seq<Domain.Source> := [];
      for i := 0 to |offers|
        invariant Minted(names, offers[..i], participant) == Going(sources)
      {
        assert offers[..i + 1][..i] == offers[..i];
        MintedOn(names, offers, i + 1, participant);
        var kind := KindOf(offers[i].kind);
        if kind.NotAKind? {
          return Stopped(sources);
        }
        if !Mints(NameAt(names, i + 1)) {
          return NoNames;
        }
        var made := Domain.NewSource(names[i + 1].text, participant, kind.kind, offers[i].layers);
        if made.Refused? {
          return Stopped(sources);
        }
        sources := sources + [made.value];
      }
      assert offers[..|offers|] == offers;
      return Going(sources);
    }

    method Arrived(p: Id) returns (held: bool)
      requires Valid()
      modifies this`outstanding
      ensures Valid() && held == (p in old(outstanding)) && outstanding == old(outstanding) - {p}
    {
      held := p in outstanding;
      outstanding := outstanding - {p};
    }

    /** The records are met in no particular order. */
    method Sweep(now: int) returns (out: seq<Abandoned>)
      requires Valid()
      modifies this`outstanding
      ensures Valid() && IsSweep(old(outstanding), now, out) && outstanding == SweptOf(old(outstanding), now)
    {
      out := [];
      var left := outstanding.Keys;
      ghost var was := outstanding;
      while left != {}
        invariant left <= was.Keys && outstanding.Keys <= was.Keys && left <= outstanding.Keys
        invariant forall p :: p in outstanding ==> outstanding[p] == was[p]
        invariant forall p :: p in was ==> (p in outstanding <==> p in left || now < was[p].deadline)
        invariant Taken(was, was.Keys - left, now, out)
        decreases |left|
      {
        var p :| p in left;
        TakeOne(was, was.Keys - left, p, now, out);
        assert was.Keys - (left - {p}) == (was.Keys - left) + {p};
        left := left - {p};
        hide Taken, Filed;
        if now < outstanding[p].deadline {
          continue;
        }
        out := out + [outstanding[p]];
        outstanding := outstanding - {p};
      }
      assert outstanding == SweptOf(was, now);
      InTheOrderGranted(was, now, out);
      out := Sort(out, Before);
    }
  }

  const DEFAULT_WINDOW := 2 * 60 * Roomcred.SECOND

  /** A negative window is refused, and none stands for the default. */
  method NewDesk(seams: Seams, units: MediaFake.Fabric) returns (d: Desk?)
    ensures d != null <==> seams.window >= 0
    ensures d != null ==> fresh(d) && d.Valid() && d.outstanding == map[] && d.units == units
                          && d.seams == seams.(window := if seams.window == 0 then DEFAULT_WINDOW else seams.window)
  {
    if seams.window < 0 {
      return null;
    }
    var window := seams.window;
    if window == 0 {
      window := DEFAULT_WINDOW;
    }
    d := new Desk(seams.(window := window), units);
  }

  lemma MintedOn(names: seq<Name>, offers: seq<Offer>, k: nat, participant: Id)
    requires k <= |offers|
    ensures Minted(names, offers[..k], participant).Going?
            || Minted(names, offers, participant) == Minted(names, offers[..k], participant)
    decreases |offers|
  {
    if k < |offers| {
      MintedOn(names, offers[..|offers| - 1], k, participant);
      assert offers[..|offers| - 1][..k] == offers[..k];
    } else {
      assert offers[..k] == offers;
    }
  }

  /** The due records among those looked at so far, in no particular order. */
  ghost predicate Taken(outstanding: map<Id, Abandoned>, seen: set<Id>, now: int, out: seq<Abandoned>)
  {
    && NoDuplicates(out)
    && forall a :: a in out <==>
         && a.participant in seen && a.participant in outstanding && outstanding[a.participant] == a
         && now >= a.deadline
  }

  lemma TakeOne(outstanding: map<Id, Abandoned>, seen: set<Id>, p: Id, now: int, out: seq<Abandoned>)
    requires Filed(outstanding) && p in outstanding && p !in seen && Taken(outstanding, seen, now, out)
    ensures Taken(outstanding, seen + {p}, now, if now < outstanding[p].deadline then out else out + [outstanding[p]])
  {
    assert outstanding[p] !in out;
  }

  lemma BeforeIsStrictWeak()
    ensures StrictWeak(Before)
  {
    forall a: Abandoned ensures !Before(a, a) {
      LessIrreflexive(a.participant);
    }
    forall a: Abandoned, b: Abandoned, c: Abandoned | Before(a, b) && Before(b, c) ensures Before(a, c) {
      if a.grantedAt == b.grantedAt == c.grantedAt {
        LessTransitive(a.participant, b.participant, c.participant);
      }
    }
    forall a: Abandoned, b: Abandoned, c: Abandoned | Before(a, c) ensures Before(a, b) || Before(b, c) {
      BeforeSplits(a, b, c);
    }
  }

  lemma BeforeSplits(a: Abandoned, b: Abandoned, c: Abandoned)
    requires Before(a, c)
    ensures Before(a, b) || Before(b, c)
  {
    LessTotal(a.participant, b.participant);
    if a.grantedAt == b.grantedAt == c.grantedAt && Less(b.participant, a.participant) {
      LessTransitive(b.participant, a.participant, c.participant);
    }
  }

  lemma InTheOrderGranted(outstanding: map<Id, Abandoned>, now: int, out: seq<Abandoned>)
    requires Filed(outstanding) && Taken(outstanding, outstanding.Keys, now, out)
    ensures IsSweep(outstanding, now, Sort(out, Before))
  {
    var s := Sort(out, Before);
    BeforeIsStrictWeak();
    SortInOrder(out, Before);
    SortNoDuplicates(out, Before);
    SameElements(out, Before);
    hide Sort;
    forall i, j | 0 <= i < j < |s| ensures Before(s[i], s[j]) {
      assert s[i] in s && s[j] in s && !Before(s[j], s[i]) && s[i] != s[j];
      LessTotal(s[i].participant, s[j].participant);
    }
  }

  /** There is one answer to a sweep, in whatever order the map is met. */
  lemma OneSweep(outstanding: map<Id, Abandoned>, now: int, a: seq<Abandoned>, b: seq<Abandoned>)
    requires IsSweep(outstanding, now, a) && IsSweep(outstanding, now, b)
    ensures a == b
  {
    BeforeIsStrictWeak();
    StrictlyUnique(a, b, Before);
  }

  /** Of two admissions a sweep answers, the one granted first comes first, and of two granted in one instant the one
      with the lesser identifier. */
  lemma OldestFirst(outstanding: map<Id, Abandoned>, now: int, out: seq<Abandoned>, i: nat, j: nat)
    requires IsSweep(outstanding, now, out) && i < |out| && j < |out|
    ensures i < j <==>
              || out[i].grantedAt < out[j].grantedAt
              || (out[i].grantedAt == out[j].grantedAt && Less(out[i].participant, out[j].participant))
  {
    LessIrreflexive(out[i].participant);
    if j < i {
      assert Before(out[j], out[i]);
      if Less(out[i].participant, out[j].participant) {
        LessAsymmetric(out[i].participant, out[j].participant);
      }
    } else if i < j {
      assert Before(out[i], out[j]);
    }
    hide Less;
  }
}
