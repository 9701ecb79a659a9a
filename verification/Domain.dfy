/** Conferences, their participants, and who receives whose streams: `internal/domain/domain.go`. */
module Domain {
  import opened Ids
  import opened Sorting

  /** Sound or picture; nothing else can be published. */
  datatype Kind = Audio | Video

  datatype Error = Empty | Unknown | Duplicate | Elsewhere | OwnSource | NoLayer

  datatype Made<T> = Refused(why: Error) | Made(value: T)

  datatype Reply = Done | No(why: Error)

  datatype Participant = Participant(id: Id, identity: Id, conference: Id, role: Id)

  /** A stream somebody publishes, in `layers` encodings of rising cost. */
  datatype Source = Source(id: Id, publisher: Id, kind: Kind, layers: int)

  /** Who is sent which stream, and the highest layer of it they are to get. */
  datatype Subscription = Subscription(subscriber: Id, source: Id, layer: int)

  function NewParticipant(id: Id, identity: Id, conference: Id, role: Id): Made<Participant>
  {
    if id == [] || identity == [] || conference == [] || role == [] then Refused(Empty)
    else Made(Participant(id, identity, conference, role))
  }

  function NewSource(id: Id, publisher: Id, kind: Kind, layers: int): Made<Source>
  {
    if id == [] || publisher == [] then Refused(Empty)
    else if layers < 1 then Refused(NoLayer)
    else Made(Source(id, publisher, kind, layers))
  }

  function NewSubscription(subscriber: Id, source: Source, layer: int): Made<Subscription>
  {
    if subscriber == [] || source.id == [] then Refused(Empty)
    else if subscriber == source.publisher then Refused(OwnSource)
    else if layer < 0 || layer >= source.layers then Refused(NoLayer)
    else Made(Subscription(subscriber, source.id, layer))
  }

  /** A later subscription under the same pair takes the place of the earlier. */
  datatype Pair = Pair(subscriber: Id, source: Id)

  datatype Room = Room(
    id: Id, participants: map<Id, Participant>, sources: map<Id, Source>, subscriptions: map<Pair, Subscription>)

  function AdmitOf(r: Room, p: Participant): (Room, Reply)
  {
    if p.id == [] then (r, No(Empty))
    else if p.conference != r.id then (r, No(Elsewhere))
    else if p.id in r.participants then (r, No(Duplicate))
    else (r.(participants := r.participants[p.id := p]), Done)
  }

  function PublishOf(r: Room, s: Source): (Room, Reply)
  {
    if s.id == [] then (r, No(Empty))
    else if s.publisher !in r.participants then (r, No(Unknown))
    else if s.id in r.sources then (r, No(Duplicate))
    else (r.(sources := r.sources[s.id := s]), Done)
  }

  function SubscribeOf(r: Room, s: Subscription): (Room, Reply)
  {
    if s.subscriber == [] || s.source == [] then (r, No(Empty))
    else if s.subscriber !in r.participants then (r, No(Unknown))
    else if s.source !in r.sources then (r, No(Unknown))
    else if s.subscriber == r.sources[s.source].publisher then (r, No(OwnSource))
    else if s.layer < 0 || s.layer >= r.sources[s.source].layers then (r, No(NoLayer))
    else (r.(subscriptions := r.subscriptions[Pair(s.subscriber, s.source) := s]), Done)
  }

  function SourcesOf(es: seq<Subscription>): (r: seq<Id>)
    ensures |r| == |es| && forall i :: 0 <= i < |es| ==> r[i] == es[i].source
  {
    seq(|es|, i requires 0 <= i < |es| => es[i].source)
  }

  /** What one participant receives: each of its subscriptions once, in the order of the sources. */
  ghost predicate IsReception(r: Room, subscriber: Id, es: seq<Subscription>)
  {
    && Ascending(SourcesOf(es))
    && forall e :: e in es <==>
         Pair(subscriber, e.source) in r.subscriptions && r.subscriptions[Pair(subscriber, e.source)] == e
  }

  predicate SourceBefore(a: Subscription, b: Subscription)
  {
    Less(a.source, b.source)
  }

  ghost predicate DistinctSources(es: seq<Subscription>)
  {
    forall i, j :: 0 <= i < j < |es| ==> es[i].source != es[j].source
  }

  /** The subscriptions of one participant among those looked at so far, each once, in no particular order. */
  ghost predicate Gathered(held: map<Pair, Subscription>, seen: set<Pair>, subscriber: Id, es: seq<Subscription>)
  {
    && DistinctSources(es)
    && forall e :: e in es <==>
         && Pair(subscriber, e.source) in seen
         && Pair(subscriber, e.source) in held && held[Pair(subscriber, e.source)] == e
  }

  lemma GatherOne(r: Room, seen: set<Pair>, pair: Pair, subscriber: Id, es: seq<Subscription>)
    requires Sound(r) && pair in r.subscriptions && pair !in seen && Gathered(r.subscriptions, seen, subscriber, es)
    ensures Gathered(r.subscriptions, seen + {pair}, subscriber,
                     if pair.subscriber == subscriber then es + [r.subscriptions[pair]] else es)
  {
    var s := r.subscriptions[pair];
    assert s.subscriber == pair.subscriber && s.source == pair.source;
    if pair.subscriber == subscriber {
      assert pair == Pair(subscriber, s.source);
      forall i | 0 <= i < |es| ensures es[i].source != s.source {
        assert es[i] in es;
      }
    }
    hide Sound;
  }

  class Conference {
    const id: Id
    var participants: map<Id, Participant>
    var sources: map<Id, Source>
    var subscriptions: map<Pair, Subscription>

    ghost function View(): Room
      reads this
    {
      Room(id, participants, sources, subscriptions)
    }

    ghost predicate Valid()
      reads this
    {
      Sound(View())
    }

    constructor (id: Id)
      requires id != []
      ensures Valid() && View() == Room(id, map[], map[], map[])
    {
      this.id, participants, sources, subscriptions := id, map[], map[], map[];
    }

    method Admit(p: Participant) returns (reply: Reply)
      requires Valid()
      modifies this`participants
      ensures Valid() && (View(), reply) == AdmitOf(old(View()), p)
    {
      if p.id == [] {
        return No(Empty);
      }
      if p.conference != id {
        return No(Elsewhere);
      }
      if p.id in participants {
        return No(Duplicate);
      }
      participants := participants[p.id := p];
      return Done;
    }

    method Publish(s: Source) returns (reply: Reply)
      requires Valid()
      modifies this`sources
      ensures Valid() && (View(), reply) == PublishOf(old(View()), s)
    {
      if s.id == [] {
        return No(Empty);
      }
      if s.publisher !in participants {
        return No(Unknown);
      }
      if s.id in sources {
        return No(Duplicate);
      }
      sources := sources[s.id := s];
      return Done;
    }

    method Subscribe(s: Subscription) returns (reply: Reply)
      requires Valid()
      modifies this`subscriptions
      ensures Valid() && (View(), reply) == SubscribeOf(old(View()), s)
    {
      if s.subscriber == [] || s.source == [] {
        return No(Empty);
      }
      if s.subscriber !in participants || s.source !in sources {
        return No(Unknown);
      }
      var held := sources[s.source];
      if s.subscriber == held.publisher {
        return No(OwnSource);
      }
      if s.layer < 0 || s.layer >= held.layers {
        return No(NoLayer);
      }
      subscriptions := subscriptions[Pair(s.subscriber, s.source) := s];
      return Done;
    }

    /** The subscriptions are met in no particular order, and the answer is the same in every order. */
    method Reception(subscriber: Id) returns (es: seq<Subscription>)
      requires Valid()
      ensures IsReception(View(), subscriber, es)
    {
      es := [];
      var left := subscriptions.Keys;
      while left != {}
        invariant left <= subscriptions.Keys && Gathered(subscriptions, subscriptions.Keys - left, subscriber, es)
        decreases |left|
      {
        var pair :| pair in left;
        GatherOne(View(), subscriptions.Keys - left, pair, subscriber, es);
        hide Gathered, Sound;
        assert subscriptions.Keys - (left - {pair}) == (subscriptions.Keys - left) + {pair};
        left := left - {pair};
        if pair.subscriber == subscriber {
          es := es + [subscriptions[pair]];
        }
      }
      InTheOrderOfSources(es);
      es := Sort(es, SourceBefore);
    }

    /** How many people the participants are. */
    method IdentityCount() returns (n: nat)
      ensures n == |People(participants)|
    {
      var seen: set<Id> := {};
      var left := participants.Keys;
      while left != {}
        invariant left <= participants.Keys
        invariant seen == set id | id in participants.Keys - left :: participants[id].identity
        decreases |left|
      {
        var id :| id in left;
        left := left - {id};
        seen := seen + {participants[id].identity};
      }
      assert seen == People(participants);
      return |seen|;
    }
  }

  /** An empty conference, where there is an identifier for it. */
  method NewConference(id: Id) returns (reply: Reply, c: Conference?)
    ensures reply == if id == [] then No(Empty) else Done
    ensures c != null <==> reply == Done
    ensures c != null ==> fresh(c) && c.Valid() && c.View() == Room(id, map[], map[], map[])
  {
    if id == [] {
      return No(Empty), null;
    }
    c := new Conference(id);
    return Done, c;
  }

  lemma {:induction false} InsertDistinct(x: Subscription, es: seq<Subscription>)
    requires DistinctSources(es) && forall e | e in es :: e.source != x.source
    ensures DistinctSources(Insert(x, es, SourceBefore))
  {
    if es != [] && SourceBefore(es[0], x) {
      InsertDistinct(x, es[1..]);
      InsertElements(x, es[1..], SourceBefore);
      var rest := Insert(x, es[1..], SourceBefore);
      assert forall i | 0 <= i < |rest| :: rest[i] in rest && rest[i].source != es[0].source;
    }
  }

  lemma {:induction false} SortDistinct(es: seq<Subscription>)
    requires DistinctSources(es)
    ensures DistinctSources(Sort(es, SourceBefore))
  {
    if es != [] {
      SortDistinct(es[1..]);
      SameElements(es[1..], SourceBefore);
      InsertDistinct(es[0], Sort(es[1..], SourceBefore));
    }
  }

  /** Entries naming every source once, put in the order of the sources. */
  lemma InTheOrderOfSources(es: seq<Subscription>)
    requires DistinctSources(es)
    ensures var sorted := Sort(es, SourceBefore);
            Ascending(SourcesOf(sorted)) && forall e :: e in sorted <==> e in es
  {
    var sorted := Sort(es, SourceBefore);
    ByKeyIsStrictWeak((a: Subscription) => a.source, SourceBefore);
    SortInOrder(es, SourceBefore);
    SortDistinct(es);
    SameElements(es, SourceBefore);
    hide Sort;
    forall i, j | 0 <= i < j < |sorted| ensures Less(sorted[i].source, sorted[j].source) {
      assert !SourceBefore(sorted[j], sorted[i]);
      LessTotal(sorted[i].source, sorted[j].source);
    }
  }

  /** The description fits one list only, so asking twice makes no difference. */
  lemma OneReception(r: Room, subscriber: Id, a: seq<Subscription>, b: seq<Subscription>)
    requires IsReception(r, subscriber, a) && IsReception(r, subscriber, b)
    ensures a == b
  {
    var x, y := SourcesOf(a), SourcesOf(b);
    forall s ensures s in x <==> s in y {
      if s in x {
        var i :| 0 <= i < |x| && x[i] == s;
        assert a[i] in a && a[i] in b;
      }
      if s in y {
        var i :| 0 <= i < |y| && y[i] == s;
        assert b[i] in b && b[i] in a;
      }
    }
    AscendingUnique(x, y);
    forall i | 0 <= i < |a| ensures a[i] == b[i] {
      assert a[i] in a && b[i] in b && x[i] == y[i];
    }
  }

  // ---------------------------------------------------------------- whole runs

  /** Everything held refers to something held: sources to participants of this conference, subscriptions to a
      participant and a source of somebody else's that offers the layer. */
  ghost predicate Sound(r: Room)
  {
    && r.id != []
    && (forall id :: id in r.participants ==>
          id != [] && r.participants[id].id == id && r.participants[id].conference == r.id)
    && (forall id :: id in r.sources ==>
          id != [] && r.sources[id].id == id && r.sources[id].publisher in r.participants)
    && (forall p :: p in r.subscriptions ==>
          var s := r.subscriptions[p];
          && s.subscriber == p.subscriber && s.source == p.source
          && p.subscriber in r.participants && p.source in r.sources
          && p.subscriber != r.sources[p.source].publisher && 0 <= s.layer < r.sources[p.source].layers)
  }

  datatype Op = Admit(p: Participant) | Publish(s: Source) | Subscribe(e: Subscription)

  function Apply(r: Room, op: Op): (Room, Reply)
  {
    match op
    case Admit(p) => AdmitOf(r, p)
    case Publish(s) => PublishOf(r, s)
    case Subscribe(e) => SubscribeOf(r, e)
  }

  function Run(id: Id, ops: seq<Op>): Room
  {
    if ops == [] then Room(id, map[], map[], map[]) else Apply(Run(id, ops[..|ops| - 1]), ops[|ops| - 1]).0
  }

  lemma ApplyKeeps(r: Room, op: Op)
    requires Sound(r)
    ensures Sound(Apply(r, op).0)
  {
  }

  lemma {:induction false} RunKeeps(id: Id, ops: seq<Op>)
    requires id != []
    ensures Sound(Run(id, ops))
  {
    if ops != [] {
      RunKeeps(id, ops[..|ops| - 1]);
      ApplyKeeps(Run(id, ops[..|ops| - 1]), ops[|ops| - 1]);
      hide Apply, Sound;
    }
  }

  /** What goes to the media plane names each source once, none of them the subscriber's own, and for
      each a layer that source offers. */
  lemma ReceptionsAreUsable(id: Id, ops: seq<Op>, subscriber: Id, es: seq<Subscription>)
    requires id != [] && IsReception(Run(id, ops), subscriber, es)
    ensures DistinctSources(es)
    ensures var r := Run(id, ops);
            forall e | e in es ::
              && e.subscriber == subscriber && subscriber in r.participants && e.source in r.sources
              && r.sources[e.source].publisher != subscriber && 0 <= e.layer < r.sources[e.source].layers
  {
    RunKeeps(id, ops);
    hide Run;
    forall i, j | 0 <= i < j < |es| ensures es[i].source != es[j].source {
      LessIrreflexive(es[i].source);
    }
  }

  function People(participants: map<Id, Participant>): set<Id>
  {
    set p | p in participants.Values :: p.identity
  }

  lemma OneFewer(participants: map<Id, Participant>, id: Id)
    requires id in participants
    ensures var rest := participants - {id};
            && |rest| == |participants| - 1
            && (forall x :: x in participants <==> x in rest || x == id)
            && (forall x | x in rest :: x != id && rest[x] == participants[x])
            && People(participants) == People(rest) + {participants[id].identity}
  {
    var rest := participants - {id};
    assert participants == rest[id := participants[id]];
    assert forall x | x in rest ::
        participants[x] == rest[x] && rest[x] in rest.Values && participants[x] in participants.Values;
    assert participants[id] in participants.Values;
  }

  /** There are as many people as endpoints exactly when nobody has joined twice, and never more. */
  lemma {:induction false} PeopleAndEndpoints(participants: map<Id, Participant>)
    ensures |People(participants)| <= |participants|
    ensures |People(participants)| == |participants| <==>
            forall a, b :: a in participants && b in participants && a != b ==>
                participants[a].identity != participants[b].identity
    decreases |participants|
  {
    if participants != map[] {
      var id :| id in participants;
      var rest := participants - {id};
      OneFewer(participants, id);
      PeopleAndEndpoints(rest);
      assert participants[id].identity in People(rest)
             <==> exists x :: x in rest && rest[x].identity == participants[id].identity;
      hide People;
    }
  }

  /** A participant that could be made is admitted exactly to the conference it was made for, and once. */
  lemma AMadeParticipantIsAdmittedExactlyWhen(r: Room, id: Id, identity: Id, conference: Id, role: Id)
    requires NewParticipant(id, identity, conference, role).Made?
    ensures var p := NewParticipant(id, identity, conference, role).value;
            && (AdmitOf(r, p).1 == Done <==> conference == r.id && id !in r.participants)
            && (AdmitOf(r, p).1 == Done ==> AdmitOf(AdmitOf(r, p).0, p).1 == No(Duplicate))
  {
  }

  /** A subscription made from the very source a conference holds is refused there only to somebody not admitted; one
      made from another copy is held to what the conference holds. */
  lemma AMadeSubscriptionIsTakenExactlyWhen(id: Id, ops: seq<Op>, subscriber: Id, source: Source, layer: int)
    requires id != [] && NewSubscription(subscriber, source, layer).Made? && source.id in Run(id, ops).sources
    ensures var r, e := Run(id, ops), NewSubscription(subscriber, source, layer).value;
            && (r.sources[source.id] == source ==> (SubscribeOf(r, e).1 == Done <==> subscriber in r.participants))
            && (SubscribeOf(r, e).1 == Done <==>
                  subscriber in r.participants && subscriber != r.sources[source.id].publisher
                  && layer < r.sources[source.id].layers)
  {
    RunKeeps(id, ops);
    hide Run;
  }
}
