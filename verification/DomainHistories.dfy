/** What a conference holds, as who was admitted, what was published and who was last subscribed to what. */
module DomainHistories {
  import opened Ids
  import opened Histories
  import opened Domain

  /** The conference after the first `k` operations. */
  function After(c: Id, ops: seq<Op>, k: nat): Room
  {
    if k <= |ops| then Run(c, ops[..k]) else Run(c, ops)
  }

  lemma OneOn(c: Id, ops: seq<Op>, k: nat)
    requires k < |ops|
    ensures After(c, ops, k + 1) == Apply(After(c, ops, k), ops[k]).0
  {
    assert ops[..k + 1][..k] == ops[..k];
    hide Apply;
  }

  lemma AllOfThem(c: Id, ops: seq<Op>)
    ensures After(c, ops, |ops|) == Run(c, ops) && After(c, ops, 0) == Room(c, map[], map[], map[])
  {
    assert ops[..|ops|] == ops;
  }

  predicate Taken(c: Id, ops: seq<Op>, k: nat)
  {
    k < |ops| && Apply(After(c, ops, k), ops[k]).1 == Done
  }

  /** That participant, with that identity and role, was let in. */
  function Admitting(c: Id, ops: seq<Op>, p: Participant): nat -> bool
  {
    (k: nat) => Taken(c, ops, k) && ops[k] == Admit(p)
  }

  function Publishing(c: Id, ops: seq<Op>, s: Source): nat -> bool
  {
    (k: nat) => Taken(c, ops, k) && ops[k] == Publish(s)
  }

  /** Somebody under that identifier was let in. */
  function AdmittingUnder(c: Id, ops: seq<Op>, id: Id): nat -> bool
  {
    (k: nat) => Taken(c, ops, k) && ops[k].Admit? && ops[k].p.id == id
  }

  function PublishingUnder(c: Id, ops: seq<Op>, id: Id): nat -> bool
  {
    (k: nat) => Taken(c, ops, k) && ops[k].Publish? && ops[k].s.id == id
  }

  function Subscribing(c: Id, ops: seq<Op>, pair: Pair): nat -> Maybe<Maybe<Subscription>>
  {
    (k: nat) =>
      if Taken(c, ops, k) && ops[k].Subscribe? && Pair(ops[k].e.subscriber, ops[k].e.source) == pair then
        Just(Just(ops[k].e))
      else Nothing
  }

  predicate HoldsParticipant(r: Room, p: Participant)
  {
    p.id in r.participants && r.participants[p.id] == p
  }

  predicate HoldsSource(r: Room, s: Source)
  {
    s.id in r.sources && r.sources[s.id] == s
  }

  function SubscriptionOf(r: Room, pair: Pair): Maybe<Subscription>
  {
    if pair in r.subscriptions then Just(r.subscriptions[pair]) else Nothing
  }

  lemma OneStep(c: Id, ops: seq<Op>, k: nat, p: Participant, s: Source, pair: Pair)
    requires k < |ops|
    ensures var r, n := After(c, ops, k), After(c, ops, k + 1);
            var said := Subscribing(c, ops, pair)(k);
            && (HoldsParticipant(n, p) <==> Admitting(c, ops, p)(k) || HoldsParticipant(r, p))
            && (HoldsSource(n, s) <==> Publishing(c, ops, s)(k) || HoldsSource(r, s))
            && SubscriptionOf(n, pair) == (if said.Just? then said.value else SubscriptionOf(r, pair))
            && (p.id in n.participants <==> AdmittingUnder(c, ops, p.id)(k) || p.id in r.participants)
            && (s.id in n.sources <==> PublishingUnder(c, ops, s.id)(k) || s.id in r.sources)
  {
    OneOn(c, ops, k);
    hide After;
  }

  lemma NothingAtFirst(c: Id)
    ensures var r := Room(c, map[], map[], map[]);
            && (forall p :: !HoldsParticipant(r, p)) && (forall s :: !HoldsSource(r, s))
            && (forall pair :: SubscriptionOf(r, pair) == Nothing) && r.participants == map[] && r.sources == map[]
  {
  }

  /** A conference holds a participant exactly as they were let in, with the identity and role they came with. */
  lemma ParticipantsAsAdmitted(c: Id, ops: seq<Op>, p: Participant)
    ensures HoldsParticipant(Run(c, ops), p) <==> Ever(Admitting(c, ops, p), |ops|)
    ensures p.id in Run(c, ops).participants <==> Ever(AdmittingUnder(c, ops, p.id), |ops|)
  {
    hide *;
    AllOfThem(c, ops);
    NothingAtFirst(c);
    forall k: nat | k < |ops|
      ensures var r, n := After(c, ops, k), After(c, ops, k + 1);
              && (HoldsParticipant(n, p) <==> Admitting(c, ops, p)(k) || HoldsParticipant(r, p))
              && (p.id in n.participants <==> AdmittingUnder(c, ops, p.id)(k) || p.id in r.participants) {
      OneStep(c, ops, k, p, Source([], [], Audio, 0), Pair([], []));
    }
    FollowsEver((k: nat) => HoldsParticipant(After(c, ops, k), p), Admitting(c, ops, p), |ops|);
    FollowsEver((k: nat) => p.id in After(c, ops, k).participants, AdmittingUnder(c, ops, p.id), |ops|);
  }

  /** And a source exactly as it was published. */
  lemma SourcesAsPublished(c: Id, ops: seq<Op>, s: Source)
    ensures HoldsSource(Run(c, ops), s) <==> Ever(Publishing(c, ops, s), |ops|)
    ensures s.id in Run(c, ops).sources <==> Ever(PublishingUnder(c, ops, s.id), |ops|)
  {
    hide *;
    AllOfThem(c, ops);
    NothingAtFirst(c);
    forall k: nat | k < |ops|
      ensures var r, n := After(c, ops, k), After(c, ops, k + 1);
              && (HoldsSource(n, s) <==> Publishing(c, ops, s)(k) || HoldsSource(r, s))
              && (s.id in n.sources <==> PublishingUnder(c, ops, s.id)(k) || s.id in r.sources) {
      OneStep(c, ops, k, Participant([], [], [], []), s, Pair([], []));
    }
    FollowsEver((k: nat) => HoldsSource(After(c, ops, k), s), Publishing(c, ops, s), |ops|);
    FollowsEver((k: nat) => s.id in After(c, ops, k).sources, PublishingUnder(c, ops, s.id), |ops|);
  }

  /** Between a participant and a source it holds the subscription last taken. */
  lemma SubscribedAsLastTaken(c: Id, ops: seq<Op>, pair: Pair)
    ensures SubscriptionOf(Run(c, ops), pair) == Last(Subscribing(c, ops, pair), Nothing, |ops|)
  {
    hide *;
    AllOfThem(c, ops);
    NothingAtFirst(c);
    forall k: nat | k < |ops|
      ensures var said := Subscribing(c, ops, pair)(k);
              SubscriptionOf(After(c, ops, k + 1), pair)
              == if said.Just? then said.value else SubscriptionOf(After(c, ops, k), pair) {
      OneStep(c, ops, k, Participant([], [], [], []), Source([], [], Audio, 0), pair);
    }
    FollowsTheLast((k: nat) => SubscriptionOf(After(c, ops, k), pair), Subscribing(c, ops, pair), |ops|);
  }

  /** So the first of an identifier stays, and a second one is refused. */
  lemma FirstStays(c: Id, ops: seq<Op>, i: nat, j: nat)
    requires Taken(c, ops, i) && Taken(c, ops, j)
    ensures ops[i].Admit? && ops[j].Admit? && ops[i].p.id == ops[j].p.id ==> i == j
    ensures ops[i].Publish? && ops[j].Publish? && ops[i].s.id == ops[j].s.id ==> i == j
  {
    if i < j {
      NotTwice(c, ops, i, j);
    } else if j < i {
      NotTwice(c, ops, j, i);
    }
  }

  lemma NotTwice(c: Id, ops: seq<Op>, i: nat, j: nat)
    requires i < j && Taken(c, ops, i) && Taken(c, ops, j)
    ensures !(ops[i].Admit? && ops[j].Admit? && ops[i].p.id == ops[j].p.id)
    ensures !(ops[i].Publish? && ops[j].Publish? && ops[i].s.id == ops[j].s.id)
  {
    var past := ops[..j];
    var p := if ops[j].Admit? then ops[j].p else Participant([], [], [], []);
    var s := if ops[j].Publish? then ops[j].s else Source([], [], Audio, 0);
    ParticipantsAsAdmitted(c, past, p);
    SourcesAsPublished(c, past, s);
    assert past[..i] == ops[..i] && past[i] == ops[i];
    assert Taken(c, past, i) by {
      hide Apply;
    }
    assert ops[i].Admit? && ops[i].p.id == p.id ==> AdmittingUnder(c, past, p.id)(i);
    assert ops[i].Publish? && ops[i].s.id == s.id ==> PublishingUnder(c, past, s.id)(i);
    hide Run;
  }

  lemma HeldIsKnown(c: Id, ops: seq<Op>, id: Id)
    ensures id in Run(c, ops).participants <==> Ever(AdmittingUnder(c, ops, id), |ops|)
    ensures id in Run(c, ops).sources <==> Ever(PublishingUnder(c, ops, id), |ops|)
  {
    ParticipantsAsAdmitted(c, ops, Participant(id, [], [], []));
    SourcesAsPublished(c, ops, Source(id, [], Audio, 0));
    hide Run, Ever;
  }

  /** A participant is let in exactly to the conference they name and where nobody is under that identifier, and a
      source is published exactly by somebody let in and where there is none under its identifier; otherwise the answer
      says which it was. */
  lemma EntersExactlyWhen(c: Id, ops: seq<Op>, p: Participant, s: Source)
    ensures Apply(Run(c, ops), Admit(p)).1
            == if p.id == [] then No(Empty)
               else if p.conference != c then No(Elsewhere)
               else if Ever(AdmittingUnder(c, ops, p.id), |ops|) then No(Duplicate) else Done
    ensures Apply(Run(c, ops), Publish(s)).1
            == if s.id == [] then No(Empty)
               else if !Ever(AdmittingUnder(c, ops, s.publisher), |ops|) then No(Unknown)
               else if Ever(PublishingUnder(c, ops, s.id), |ops|) then No(Duplicate) else Done
  {
    HeldIsKnown(c, ops, p.id);
    HeldIsKnown(c, ops, s.publisher);
    HeldIsKnown(c, ops, s.id);
    ItsOwn(c, ops);
    hide Run, Ever, AdmittingUnder, PublishingUnder;
  }

  lemma {:induction false} ItsOwn(c: Id, ops: seq<Op>)
    ensures Run(c, ops).id == c
  {
    if ops != [] {
      ItsOwn(c, ops[..|ops| - 1]);
    }
  }

  /** A subscription is taken exactly from somebody let in, to a source published here by somebody else that offers the
      layer; otherwise the answer says which it was. */
  lemma SubscribesExactlyWhen(c: Id, ops: seq<Op>, e: Subscription, s: Source)
    requires s.id == e.source && (Ever(PublishingUnder(c, ops, e.source), |ops|) ==> Ever(Publishing(c, ops, s), |ops|))
    ensures Apply(Run(c, ops), Subscribe(e)).1
            == if e.subscriber == [] || e.source == [] then No(Empty)
               else if !Ever(AdmittingUnder(c, ops, e.subscriber), |ops|) then No(Unknown)
               else if !Ever(PublishingUnder(c, ops, e.source), |ops|) then No(Unknown)
               else if e.subscriber == s.publisher then No(OwnSource)
               else if 0 <= e.layer < s.layers then Done else No(NoLayer)
  {
    HeldIsKnown(c, ops, e.subscriber);
    SourcesAsPublished(c, ops, s);
    hide Run, Ever, AdmittingUnder, PublishingUnder, Publishing;
  }

  /** What can be made at all: nothing without its parts, no source without a layer, and no subscription to one's own
      source or beyond its layers. */
  lemma MadeExactlyWhen(id: Id, identity: Id, conference: Id, role: Id, kind: Kind, layers: int, source: Source,
                        layer: int)
    ensures NewParticipant(id, identity, conference, role)
            == if [] in [id, identity, conference, role] then Refused(Empty)
               else Made(Participant(id, identity, conference, role))
    ensures NewSource(id, identity, kind, layers)
            == if [] in [id, identity] then Refused(Empty)
               else if layers >= 1 then Made(Source(id, identity, kind, layers)) else Refused(NoLayer)
    ensures NewSubscription(id, source, layer)
            == if [] in [id, source.id] then Refused(Empty)
               else if id == source.publisher then Refused(OwnSource)
               else if 0 <= layer < source.layers then Made(Subscription(id, source.id, layer)) else Refused(NoLayer)
  {
  }
}
