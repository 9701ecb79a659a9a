/** What a unit of a fabric answers, as what it was asked and answered before, and under what identifiers it holds its
    links. */
module FabricAnswers {
  import opened Ids
  import opened Histories
  import opened MediaFake
  import opened FabricRuns
  import opened FabricHistories
  import Receptions

  /** The source is the participant's own, and inside the profile: sound has one layer, picture at most as many as the
      profile has. */
  predicate Takeable(profile: Profile, p: Id, s: Source)
  {
    s.publisher == p && 1 <= s.layers <= if s.kind.Audio? then 1 else profile.layers
  }

  /** A participant is admitted to receive exactly by a unit that is up, is not set to refuse it, and holds the
      conference without them among its subscribers, all as the history has it. */
  lemma AdmitsToReceiveExactlyWhen(ops: seq<Op>, n: Id, c: Id, p: Id)
    ensures Apply(Run(ops), AdmitSubscriber(n, c, p)).1 == Ok <==>
              && p != [] && Last(Powering(ops, n), false, |ops|)
              && Since(Opening(ops, n, c), Ending(ops, n, c), |ops|)
              && !Since(AdmittingToReceive(ops, n, c, p), Ending(ops, n, c), |ops|)
              && AdmittingASubscriber !in Last(Setting(ops, n), DEFAULTS, |ops|).refusing
  {
    SetAsLastSet(ops, n);
    HeldExactly(ops, n, c);
    SubscribersExactly(ops, n, c, p);
    EveryLossIsToldOfAtMostOnce(ops, n, c);
    hide Run, Powering, Setting, Opening, Ending, AdmittingToReceive, Since, Last;
  }

  /** And to publish exactly by one that is up, is not set to refuse it, holds the conference without them among its
      publishers, and can take every source: theirs, inside the profile and under an identifier not held. */
  lemma AdmitsToPublishExactlyWhen(ops: seq<Op>, n: Id, c: Id, p: Id, sources: seq<Source>)
    ensures Apply(Run(ops), AdmitPublisher(n, c, p, sources)).1 == Ok <==>
              && p != [] && Last(Powering(ops, n), false, |ops|)
              && Since(Opening(ops, n, c), Ending(ops, n, c), |ops|)
              && !Since(AdmittingToPublish(ops, n, c, p), Ending(ops, n, c), |ops|)
              && AdmittingAPublisher !in Last(Setting(ops, n), DEFAULTS, |ops|).refusing
              && HeldAs(Run(ops), n, c).Just?
              && forall s | s in sources ::
                   && Takeable(HeldAs(Run(ops), n, c).value, p, s)
                   && forall x | Offered(Run(ops), n, c, x) :: x.id != s.id
  {
    hide *;
    SetAsLastSet(ops, n);
    HeldExactly(ops, n, c);
    PublishersExactly(ops, n, c, p);
    EveryLossIsToldOfAtMostOnce(ops, n, c);
    Receptions.RunKeeps(ops);
    PublisherIsTaken(Run(ops), n, c, p, sources);
    ClearExactlyWhen(Run(ops), n, c, p, sources);
  }

  /** Every source of an admission can be taken as the unit holds the conference. */
  ghost predicate Clear(f: Units, n: Id, c: Id, p: Id, sources: seq<Source>)
  {
    Holds(f, n, c) && SourcesRefused(f[n].conferences[c], p, sources) == Ok
  }

  lemma PublisherIsTaken(f: Units, n: Id, c: Id, p: Id, sources: seq<Source>)
    requires Holds(f, n, c) ==> !IsLost(f, n, c)
    ensures Apply(f, AdmitPublisher(n, c, p, sources)).1 == Ok <==>
              && p != [] && Up(f, n) && Holds(f, n, c) && !Publishes(f, n, c, p)
              && AdmittingAPublisher !in KnobsOf(f, n).refusing && Clear(f, n, c, p, sources)
  {
    hide SourcesRefused, WithSources;
  }

  lemma ClearExactlyWhen(f: Units, n: Id, c: Id, p: Id, sources: seq<Source>)
    requires Receptions.Inv(f)
    ensures Clear(f, n, c, p, sources) <==>
              && HeldAs(f, n, c).Just?
              && forall s | s in sources ::
                   && Takeable(HeldAs(f, n, c).value, p, s)
                   && forall x | Offered(f, n, c, x) :: x.id != s.id
  {
    if Holds(f, n, c) {
      TakenExactlyWhen(f[n].conferences[c], p, sources);
      OfferedUnderItsName(f, n, c);
    }
    hide SourcesRefused, Takeable, Offered, Receptions.Inv;
  }

  lemma OfferedUnderItsName(f: Units, n: Id, c: Id)
    requires Holds(f, n, c) && Receptions.Inv(f)
    ensures forall id :: id in f[n].conferences[c].sources <==> exists x :: Offered(f, n, c, x) && x.id == id
  {
    var held := f[n].conferences[c].sources;
    forall id | id in held ensures exists x :: Offered(f, n, c, x) && x.id == id {
      assert Receptions.HeldSound(f[n].conferences[c]);
      assert Offered(f, n, c, held[id]);
    }
  }

  predicate Servable(knobs: Knobs, profile: Profile)
  {
    profile.codecs != [] && (knobs.servable.Only? ==> profile.codecs in knobs.servable.codecs)
  }

  /** What a unit answers that is asked to open a conference, as what it was last set to and holds the conference as:
      opening again what it holds is done already, and under another profile it is a conflict. */
  lemma OpeningIsAnswered(ops: seq<Op>, n: Id, c: Id, profile: Profile)
    requires n in Run(ops)
    ensures var knobs, held := Last(Setting(ops, n), DEFAULTS, |ops|), Last(Profiling(ops, n, c), Nothing, |ops|);
            var here := Last(Powering(ops, n), false, |ops|) && !IsLost(Run(ops), n, c);
            match Apply(Run(ops), Open(n, c, profile)).1
            case Ok =>
              && here && Servable(knobs, profile)
              && if held.Just? then held.value == profile else OpeningAConference !in knobs.refusing
            case No(Unavailable) => !Last(Powering(ops, n), false, |ops|)
            case No(Lost) => Last(Powering(ops, n), false, |ops|) && IsLost(Run(ops), n, c)
            case No(Invalid) => here && !Servable(knobs, profile)
            case No(Conflict) => here && Servable(knobs, profile) && held.Just? && held.value != profile
            case No(Refused) =>
              here && Servable(knobs, profile) && held.Nothing? && OpeningAConference in knobs.refusing
            case No(_) => false
  {
    SetAsLastSet(ops, n);
    HeldUnderTheProfileOpened(ops, n, c);
    hide Run, Powering, Setting, Profiling, Last;
  }

  /** Why a participant is not admitted to receive. */
  lemma WhyNotToReceive(ops: seq<Op>, n: Id, c: Id, p: Id)
    requires n in Run(ops)
    ensures var up, held := Last(Powering(ops, n), false, |ops|), Since(Opening(ops, n, c), Ending(ops, n, c), |ops|);
            var admitted := Since(AdmittingToReceive(ops, n, c, p), Ending(ops, n, c), |ops|);
            match Apply(Run(ops), AdmitSubscriber(n, c, p)).1
            case Ok => true
            case No(Unavailable) => !up
            case No(Lost) => up && IsLost(Run(ops), n, c)
            case No(Unknown) => up && !held && !IsLost(Run(ops), n, c)
            case No(Invalid) => up && held && p == []
            case No(Conflict) => up && held && p != [] && admitted
            case No(Refused) =>
              && up && held && p != [] && !admitted
              && AdmittingASubscriber in Last(Setting(ops, n), DEFAULTS, |ops|).refusing
            case No(Empty) => false
  {
    SetAsLastSet(ops, n);
    HeldExactly(ops, n, c);
    SubscribersExactly(ops, n, c, p);
    EveryLossIsToldOfAtMostOnce(ops, n, c);
    hide Run, Powering, Setting, Opening, Ending, AdmittingToReceive, Since, Last;
  }

  /** The first source that cannot be taken is not the participant's to offer here, or else is under an identifier the
      unit holds. */
  ghost predicate StumblesOver(h: Held, p: Id, sources: seq<Source>, k: nat, why: Error)
  {
    && k < |sources|
    && (forall j: nat | j < k :: Takeable(h.profile, p, sources[j]) && sources[j].id !in h.sources)
    && if Takeable(h.profile, p, sources[k]) then why == Conflict && sources[k].id in h.sources else why == Invalid
  }

  lemma StumblesLater(h: Held, p: Id, s: Source, rest: seq<Source>, k: nat, why: Error)
    requires Takeable(h.profile, p, s) && s.id !in h.sources && StumblesOver(h, p, rest, k, why)
    ensures StumblesOver(h, p, [s] + rest, k + 1, why)
  {
    var all := [s] + rest;
    assert all[k + 1] == rest[k] && all[0] == s;
    assert forall j: nat | 0 < j < k + 1 :: all[j] == rest[j - 1];
    hide Takeable;
  }

  lemma FirstIsRefused(h: Held, p: Id, s: Source, rest: seq<Source>)
    ensures var reply := SourcesRefused(h, p, [s] + rest);
            if Takeable(h.profile, p, s) && s.id !in h.sources then reply == SourcesRefused(h, p, rest)
            else reply.No? && StumblesOver(h, p, [s] + rest, 0, reply.why)
  {
    assert ([s] + rest)[1..] == rest;
  }

  lemma {:induction false} FirstSourceRefused(h: Held, p: Id, sources: seq<Source>) returns (k: nat)
    ensures SourcesRefused(h, p, sources).No? ==> StumblesOver(h, p, sources, k, SourcesRefused(h, p, sources).why)
  {
    k := 0;
    if sources != [] {
      var s, rest := sources[0], sources[1..];
      assert sources == [s] + rest;
      FirstIsRefused(h, p, s, rest);
      hide SourcesRefused, Takeable, StumblesOver;
      if Takeable(h.profile, p, s) && s.id !in h.sources && SourcesRefused(h, p, rest).No? {
        k := FirstSourceRefused(h, p, rest);
        StumblesLater(h, p, s, rest, k, SourcesRefused(h, p, rest).why);
        k := k + 1;
      }
    }
  }

  lemma TakenExactlyWhen(h: Held, p: Id, sources: seq<Source>)
    ensures SourcesRefused(h, p, sources) == Ok <==>
              forall s | s in sources :: Takeable(h.profile, p, s) && s.id !in h.sources
  {
    Receptions.SourcesTakenExactly(h, p, sources);
    assert forall s :: Takeable(h.profile, p, s) <==> s.publisher == p && !OutsideProfile(h.profile, s);
    hide OutsideProfile, Takeable, SourcesRefused;
  }

  lemma TheyStumbleOnce(h: Held, p: Id, sources: seq<Source>, i: nat, a: Error, j: nat, b: Error)
    requires StumblesOver(h, p, sources, i, a) && StumblesOver(h, p, sources, j, b)
    ensures i == j && a == b
  {
  }

  /** Why a participant is not admitted to publish. */
  lemma WhyNotToPublish(ops: seq<Op>, n: Id, c: Id, p: Id, sources: seq<Source>)
    requires n in Run(ops)
    ensures var f, up := Run(ops), Last(Powering(ops, n), false, |ops|);
            var held := Since(Opening(ops, n, c), Ending(ops, n, c), |ops|);
            var admitted := Since(AdmittingToPublish(ops, n, c, p), Ending(ops, n, c), |ops|);
            var here := up && Holds(f, n, c) && p != [] && !admitted;
            match Apply(f, AdmitPublisher(n, c, p, sources)).1
            case Ok => true
            case No(Unavailable) => !up
            case No(Lost) => up && IsLost(f, n, c)
            case No(Unknown) => up && !held && !IsLost(f, n, c)
            case No(Invalid) =>
              || (up && held && p == [])
              || (here && exists k: nat :: StumblesOver(f[n].conferences[c], p, sources, k, Invalid))
            case No(Conflict) =>
              || (up && held && p != [] && admitted)
              || (here && exists k: nat :: StumblesOver(f[n].conferences[c], p, sources, k, Conflict))
            case No(Refused) =>
              && here && AdmittingAPublisher in Last(Setting(ops, n), DEFAULTS, |ops|).refusing
              && forall s | s in sources ::
                   Takeable(f[n].conferences[c].profile, p, s) && s.id !in f[n].conferences[c].sources
            case No(Empty) => false
  {
    hide *;
    SetAsLastSet(ops, n);
    HeldExactly(ops, n, c);
    PublishersExactly(ops, n, c, p);
    EveryLossIsToldOfAtMostOnce(ops, n, c);
    WhyNotTaken(Run(ops), n, c, p, sources);
  }

  lemma WhyNotTaken(f: Units, n: Id, c: Id, p: Id, sources: seq<Source>)
    requires n in f && (Holds(f, n, c) ==> !IsLost(f, n, c))
    ensures var up, held, admitted := Up(f, n), Holds(f, n, c), Publishes(f, n, c, p);
            var here := up && held && p != [] && !admitted;
            match Apply(f, AdmitPublisher(n, c, p, sources)).1
            case Ok => true
            case No(Unavailable) => !up
            case No(Lost) => up && IsLost(f, n, c)
            case No(Unknown) => up && !held && !IsLost(f, n, c)
            case No(Invalid) =>
              || (up && held && p == [])
              || (here && exists k: nat :: StumblesOver(f[n].conferences[c], p, sources, k, Invalid))
            case No(Conflict) =>
              || (up && held && p != [] && admitted)
              || (here && exists k: nat :: StumblesOver(f[n].conferences[c], p, sources, k, Conflict))
            case No(Refused) =>
              && here && AdmittingAPublisher in KnobsOf(f, n).refusing
              && forall s | s in sources ::
                   Takeable(f[n].conferences[c].profile, p, s) && s.id !in f[n].conferences[c].sources
            case No(Empty) => false
  {
    if Holds(f, n, c) {
      var k := FirstSourceRefused(f[n].conferences[c], p, sources);
      TakenExactlyWhen(f[n].conferences[c], p, sources);
    }
    hide SourcesRefused, Takeable, WithSources, StumblesOver;
  }

  /** What a unit answers that is told what somebody is to receive. */
  lemma ReceptionIsAnswered(ops: seq<Op>, n: Id, c: Id, p: Id, entries: seq<Subscription>, look: Look)
    requires n in Run(ops)
    ensures var up, held := Last(Powering(ops, n), false, |ops|), Since(Opening(ops, n, c), Ending(ops, n, c), |ops|);
            var admitted := Since(AdmittingToReceive(ops, n, c, p), Ending(ops, n, c), |ops|);
            match Apply(Run(ops), SetReception(n, c, p, entries, look)).1
            case Ok => up && held && admitted && EntriesFit(p, entries, look)
            case No(Unavailable) => !up
            case No(Lost) => up && IsLost(Run(ops), n, c)
            case No(Unknown) => up && !IsLost(Run(ops), n, c) && !(held && admitted)
            case No(Invalid) => up && held && admitted && !EntriesFit(p, entries, look)
            case No(_) => false
  {
    SetAsLastSet(ops, n);
    HeldExactly(ops, n, c);
    SubscribersExactly(ops, n, c, p);
    EveryLossIsToldOfAtMostOnce(ops, n, c);
    hide Run, Powering, Setting, Opening, Ending, AdmittingToReceive, Since, Last, EntriesFit, Accepted;
  }

  // ---------------------------------------------------------------- links

  /** How many links a unit has made. */
  function LinksMade(ops: seq<Op>, n: Id): nat
  {
    if ops == [] then 0
    else LinksMade(ops[..|ops| - 1], n) + if Makes(Run(ops[..|ops| - 1]), ops[|ops| - 1], n) then 1 else 0
  }

  /** A unit's counter is how many links it has made, restarts and closings notwithstanding. */
  lemma {:induction false} LinksAreCounted(ops: seq<Op>, n: Id)
    ensures Made(Run(ops), n) == LinksMade(ops, n)
  {
    if ops != [] {
      LinksAreCounted(ops[..|ops| - 1], n);
      RunUnfolds(ops);
      MadeStep(Run(ops[..|ops| - 1]), ops[|ops| - 1], n);
      hide Run, Apply, Makes, Made;
    }
  }

  function LinkOf(f: Units, a: Id, b: Id, c: Id): Maybe<Bytes>
  {
    if Has(f, a, b, c) then Just(f[a].conferences[c].links[b]) else Nothing
  }

  /** A link not held before is answered with the two names and the number after those made already; what ends a link
      ends its identifier with it. */
  function Linking(ops: seq<Op>, a: Id, b: Id, c: Id): nat -> Maybe<Maybe<Bytes>>
  {
    (k: nat) =>
      if k >= |ops| then Nothing
      else if Makes(After(ops, k), ops[k], a) && ops[k].c == c && ReferenceName(ops[k].reference) == b then
        Just(Just(LinkId(a, b, LinksMade(ops[..k], a) + 1)))
      else if Cuts(After(ops, k), ops[k], a, b, c) then Just(Nothing) else Nothing
  }

  lemma LinkOfStepHere(u: Unit, op: Op, names: set<Id>, b: Id, c: Id)
    requires !op.Close? && !op.Add? && !op.Restart?
    requires c in u.conferences && b in u.conferences[c].links
    ensures var v := Locally(u, op, names).0;
            c in v.conferences && b in v.conferences[c].links && v.conferences[c].links[b] == u.conferences[c].links[b]
  {
    hide SourcesRefused, ReferenceName, EntriesFit, Accepted, LinkId, WithSources;
  }

  lemma LinkOfStays(f: Units, op: Op, a: Id, b: Id, c: Id)
    requires Has(f, a, b, c) && !Cuts(f, op, a, b, c)
    ensures LinkOf(Apply(f, op).0, a, b, c) == LinkOf(f, a, b, c)
  {
    if op.name == a && !op.Add? && !op.Close? {
      LinkOfStepHere(f[a], op, f.Keys, b, c);
      Elsewhere(f, op, a);
    }
    hide Locally;
  }

  lemma LinkOfStep(f: Units, op: Op, a: Id, b: Id, c: Id)
    ensures LinkOf(Apply(f, op).0, a, b, c)
            == if Makes(f, op, a) && op.c == c && ReferenceName(op.reference) == b then
                 Just(LinkId(a, b, Made(f, a) + 1))
               else if Cuts(f, op, a, b, c) then Nothing else LinkOf(f, a, b, c)
  {
    LinkStep(f, op, a, b, c);
    if Makes(f, op, a) && op.c == c && ReferenceName(op.reference) == b {
      TheNewLinkIsHeld(f, op, a);
    } else if Has(f, a, b, c) && !Cuts(f, op, a, b, c) {
      LinkOfStays(f, op, a, b, c);
    }
    hide Apply, ReferenceName, LinkId, Made;
  }

  lemma LinkOfOne(ops: seq<Op>, k: nat, a: Id, b: Id, c: Id)
    requires k < |ops|
    ensures var said := Linking(ops, a, b, c)(k);
            LinkOf(After(ops, k + 1), a, b, c) == if said.Just? then said.value else LinkOf(After(ops, k), a, b, c)
  {
    OneOn(ops, k);
    LinkOfStep(After(ops, k), ops[k], a, b, c);
    LinksAreCounted(ops[..k], a);
    assert After(ops, k) == Run(ops[..k]);
    hide Apply, After, LinkOf, Makes, Cuts, LinkId, Run, LinksMade, Made, ReferenceName;
  }

  lemma NoLinkAtFirst(a: Id, b: Id, c: Id)
    ensures LinkOf(map[], a, b, c) == Nothing
  {
  }

  /** A link goes by the identifier it was made under for as long as it is held, however often it is asked for again. */
  lemma LinksKeepTheirIdentifier(ops: seq<Op>, a: Id, b: Id, c: Id)
    ensures LinkOf(Run(ops), a, b, c) == Last(Linking(ops, a, b, c), Nothing, |ops|)
  {
    hide *;
    AllOfThem(ops);
    NoLinkAtFirst(a, b, c);
    forall k: nat | k < |ops|
      ensures var said := Linking(ops, a, b, c)(k);
              LinkOf(After(ops, k + 1), a, b, c) == if said.Just? then said.value else LinkOf(After(ops, k), a, b, c) {
      LinkOfOne(ops, k, a, b, c);
    }
    FollowsTheLast((k: nat) => LinkOf(After(ops, k), a, b, c), Linking(ops, a, b, c), |ops|);
  }

  /** What a unit answers that is asked for a link. */
  lemma LinkIsAnswered(ops: seq<Op>, n: Id, c: Id, reference: Bytes)
    requires n in Run(ops)
    ensures var up, held := Last(Powering(ops, n), false, |ops|), Since(Opening(ops, n, c), Ending(ops, n, c), |ops|);
            var f, peer := Run(ops), ReferenceName(reference);
            var there := peer != [] && peer != n && peer in f;
            var refuses := !Has(f, n, peer, c) && CarryingALink in Last(Setting(ops, n), DEFAULTS, |ops|).refusing;
            match Apply(f, Link(n, c, reference)).1
            case Ok => up && held && there && !refuses
            case No(Unavailable) => !up
            case No(Lost) => up && IsLost(f, n, c)
            case No(Unknown) => up && !held && !IsLost(f, n, c)
            case No(Invalid) => up && held && !there
            case No(Refused) => up && held && there && refuses
            case No(_) => false
  {
    SetAsLastSet(ops, n);
    HeldExactly(ops, n, c);
    EveryLossIsToldOfAtMostOnce(ops, n, c);
    hide Run, Powering, Setting, Opening, Ending, Since, Last, ReferenceName, LinkId;
  }
}
