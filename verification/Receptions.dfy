/** What a unit holds of publishers, and what it makes of the set a conference says somebody receives. */
module Receptions {
  import opened Ids
  import opened Sorting
  import opened MediaFake
  import opened FabricRuns
  import Domain

  /** Every source is inside the profile and offered by somebody admitted to publish; every reception is the
      subscriber's own, names a source once and is in the order of the sources. */
  ghost predicate HeldSound(h: Held)
  {
    && (forall id :: id in h.sources ==>
          h.sources[id].id == id && h.sources[id].publisher in h.publishers
          && !OutsideProfile(h.profile, h.sources[id]))
    && (forall p :: p in h.receptions ==> p in h.subscribers && ReceptionSound(p, h.receptions[p]))
  }

  ghost predicate ReceptionSound(p: Id, es: seq<Subscription>)
  {
    Ascending(Domain.SourcesOf(es)) && forall e | e in es :: e.subscriber == p
  }

  ghost predicate UnitSound(u: Unit)
  {
    forall c :: c in u.conferences ==> HeldSound(u.conferences[c])
  }

  ghost predicate Inv(f: Units)
  {
    forall n :: n in f ==> UnitSound(f[n])
  }

  /** An admission's sources are taken exactly when every one of them is the participant's, inside the profile and
      under an identifier not held. */
  lemma {:induction false} SourcesTakenExactly(h: Held, p: Id, sources: seq<Source>)
    ensures SourcesRefused(h, p, sources) == Ok <==>
              forall s | s in sources :: s.publisher == p && !OutsideProfile(h.profile, s) && s.id !in h.sources
  {
    if sources != [] {
      SourcesTakenExactly(h, p, sources[1..]);
      assert sources == [sources[0]] + sources[1..];
      hide OutsideProfile;
    }
  }

  /** What is held under an identifier after them is what was held, or one of them. */
  lemma {:induction false} WithSourcesAt(held: map<Id, Source>, sources: seq<Source>, id: Id)
    ensures var n := WithSources(held, sources);
            && (id in n <==> id in held || exists s | s in sources :: s.id == id)
            && (id in n ==> (n[id] in sources && n[id].id == id) || (id in held && n[id] == held[id]))
            && (id in held && (forall s | s in sources :: s.id != id) ==> n[id] == held[id])
  {
    if sources != [] {
      var past, last := sources[..|sources| - 1], sources[|sources| - 1];
      WithSourcesAt(held, past, id);
      assert sources == past + [last];
    }
  }

  /** Sources under one identifier are one source. */
  ghost predicate Agreeing(ss: seq<Source>)
  {
    forall i, j :: 0 <= i < j < |ss| && ss[i].id == ss[j].id ==> ss[i] == ss[j]
  }

  /** Each of the sources is held, under its own identifier. */
  ghost predicate AllHeld(held: map<Id, Source>, ss: seq<Source>)
  {
    forall x | x in ss :: x.id in held && held[x.id] == x
  }

  lemma {:induction false} EachIsHeld(held: map<Id, Source>, ss: seq<Source>, k: nat)
    requires k < |ss| && Agreeing(ss)
    ensures ss[k].id in WithSources(held, ss) && WithSources(held, ss)[ss[k].id] == ss[k]
  {
    var n := |ss| - 1;
    if k < n {
      assert Agreeing(ss[..n]);
      EachIsHeld(held, ss[..n], k);
    }
  }

  /** Every source of an admission is held afterwards exactly when no two different ones share an identifier. */
  lemma AllAreHeldExactlyWhen(held: map<Id, Source>, ss: seq<Source>)
    ensures AllHeld(WithSources(held, ss), ss) <==> Agreeing(ss)
  {
    if Agreeing(ss) {
      forall x | x in ss ensures x.id in WithSources(held, ss) && WithSources(held, ss)[x.id] == x {
        var k :| 0 <= k < |ss| && ss[k] == x;
        EachIsHeld(held, ss, k);
      }
    }
    hide WithSources;
    if AllHeld(WithSources(held, ss), ss) {
      forall i, j | 0 <= i < j < |ss| && ss[i].id == ss[j].id ensures ss[i] == ss[j] {
        assert ss[i] in ss && ss[j] in ss;
      }
    }
  }

  /** An admission is not refused for naming one identifier twice in its own list: the later source then stands in
      for the earlier. */
  lemma ASecondSourceReplacesTheFirst(u: Unit, c: Id, p: Id, first: Source, second: Source)
    requires first.id == second.id && first != second
    requires PublisherReply(u, c, p, [first]) == Ok && PublisherReply(u, c, p, [second]) == Ok
    ensures PublisherReply(u, c, p, [first, second]) == Ok
    ensures var n := AdmitPublisherIn(u, c, p, [first, second]).0;
            c in n.conferences && first.id in n.conferences[c].sources && n.conferences[c].sources[first.id] == second
  {
    var both := [first, second];
    SourcesTakenExactly(u.conferences[c], p, [first]);
    SourcesTakenExactly(u.conferences[c], p, [second]);
    SourcesTakenExactly(u.conferences[c], p, both);
    hide SourcesRefused, OutsideProfile;
    assert first in [first] && second in [second] && both[..1] == [first];
    assert both == [first] + [second];
  }

  lemma PublisherStep(u: Unit, c: Id, p: Id, sources: seq<Source>)
    requires UnitSound(u)
    ensures UnitSound(AdmitPublisherIn(u, c, p, sources).0)
  {
    if PublisherReply(u, c, p, sources) == Ok {
      var h := u.conferences[c];
      SourcesTakenExactly(h, p, sources);
      var n := h.(publishers := h.publishers + {p}, sources := WithSources(h.sources, sources));
      hide OutsideProfile, WithSources, SourcesRefused, ReceptionSound;
      forall id | id in n.sources
        ensures n.sources[id] in sources || (id in h.sources && n.sources[id] == h.sources[id])
                                  ensures n.sources[id].id == id {
        WithSourcesAt(h.sources, sources, id);
      }
      assert HeldSound(n);
    }
  }

  lemma ReceptionStep(u: Unit, c: Id, p: Id, entries: seq<Subscription>, look: Look)
    requires UnitSound(u)
    ensures UnitSound(SetReceptionIn(u, c, p, entries, look).0)
  {
    if ReceptionReply(u, c, p, entries, look) == Ok {
      AcceptedIsSound(u, p, entries, look);
      hide Accepted, EntriesFit, ReceptionSound;
    }
  }

  lemma AcceptedIsSound(u: Unit, p: Id, entries: seq<Subscription>, look: Look)
    requires EntriesFit(p, entries, look)
    ensures ReceptionSound(p, Accepted(u, entries))
  {
    Domain.InTheOrderOfSources(entries);
    var sorted, kept := Sort(entries, Domain.SourceBefore), Accepted(u, entries);
    hide Sort, Capped;
    assert forall i | 0 <= i < |kept| :: kept[i] == sorted[i] && kept[i] in sorted;
    assert forall i | 0 <= i < |kept| :: Domain.SourcesOf(kept)[i] == Domain.SourcesOf(sorted)[i];
  }

  lemma StepKeeps(f: Units, op: Op)
    requires Inv(f)
    ensures Inv(Apply(f, op).0)
  {
    if op.name in f && !op.Close? && !op.Add? {
      var u := f[op.name];
      match op {
        case AdmitPublisher(_, c, p, sources) => PublisherStep(u, c, p, sources);
        case SetReception(_, c, p, entries, look) => ReceptionStep(u, c, p, entries, look);
        case _ => OtherStep(u, op, f.Keys);
      }
      hide AdmitPublisherIn, SetReceptionIn, UnitSound, OpenIn, LinkIn, AdmitSubscriberIn;
      assert UnitSound(Locally(u, op, f.Keys).0);
    } else if op.Close? {
      CloseKeeps(f, op.name, op.c);
    }
  }

  lemma OtherStep(u: Unit, op: Op, names: set<Id>)
    requires UnitSound(u) && !op.AdmitPublisher? && !op.SetReception?
    ensures UnitSound(Locally(u, op, names).0)
  {
    hide LinkId, ReferenceName, OutsideProfile, ReceptionSound;
  }

  lemma CloseKeeps(f: Units, name: Id, c: Id)
    requires Inv(f)
    ensures name in f ==> Inv(CloseOf(f, name, c).0)
  {
    hide OutsideProfile, ReceptionSound;
  }

  lemma {:induction false} RunKeeps(ops: seq<Op>)
    ensures Inv(Run(ops))
  {
    if ops != [] {
      RunKeeps(ops[..|ops| - 1]);
      RunUnfolds(ops);
      StepKeeps(Run(ops[..|ops| - 1]), ops[|ops| - 1]);
      hide Run, Apply, Inv;
    }
  }

  // ---------------------------------------------------------------- the set a conference hands over

  /** What reaches the unit is what the conference holds, wherever they have an identifier in common. */
  ghost predicate Agrees(f: Units, name: Id, c: Id, r: Domain.Room)
  {
    forall s: Source :: Reaches(f, name, c, s) && s.id in r.sources ==> r.sources[s.id] == s
  }

  lemma InOrderAlready(es: seq<Subscription>)
    requires Ascending(Domain.SourcesOf(es))
    ensures Sort(es, Domain.SourceBefore) == es
  {
    ByKeyIsStrictWeak((a: Subscription) => a.source, Domain.SourceBefore);
    forall i, j | 0 <= i < j < |es| ensures !Domain.SourceBefore(es[j], es[i]) {
      LessAsymmetric(es[i].source, es[j].source);
    }
    SortFixed(es, Domain.SourceBefore);
  }

  lemma FitsExactly(f: Units, name: Id, c: Id, p: Id, r: Domain.Room, e: Subscription, look: Look)
    requires IsLook(f, name, c, look) && Agrees(f, name, c, r)
    requires e.subscriber == p && e.source in r.sources && r.sources[e.source].id == e.source
    requires 0 <= e.layer < r.sources[e.source].layers
    ensures Fits(p, e, look) <==> Reaches(f, name, c, r.sources[e.source])
  {
    hide Reaches;
  }

  lemma EntriesFitExactlyWhen(f: Units, name: Id, c: Id, p: Id, made: seq<Domain.Op>, es: seq<Subscription>, look: Look)
    requires c != [] && IsLook(f, name, c, look)
    requires Agrees(f, name, c, Domain.Run(c, made)) && Domain.IsReception(Domain.Run(c, made), p, es)
    ensures Ascending(Domain.SourcesOf(es)) && forall e | e in es :: e.source in Domain.Run(c, made).sources
    ensures EntriesFit(p, es, look)
            <==> forall e | e in es :: Reaches(f, name, c, Domain.Run(c, made).sources[e.source])
  {
    var r := Domain.Run(c, made);
    Domain.ReceptionsAreUsable(c, made, p, es);
    Domain.RunKeeps(c, made);
    hide Domain.Run, Reaches, IsLook, Agrees, Fits;
    forall e | e in es
      ensures e.source in r.sources && (Fits(p, e, look) <==> Reaches(f, name, c, r.sources[e.source])) {
      FitsExactly(f, name, c, p, r, e, look);
    }
    hide Domain.Sound, Domain.IsReception;
  }

  lemma TakenExactlyWhen(u: Unit, c: Id, p: Id, es: seq<Subscription>, look: Look)
    requires Ascending(Domain.SourcesOf(es))
    ensures (SetReceptionIn(u, c, p, es, look).1 == Ok && Accepted(u, es) == es) <==>
              && ConferenceFor(u, c) == Ok && p in u.conferences[c].subscribers
              && (u.knobs.acceptAtMost < 0 || |es| <= u.knobs.acceptAtMost) && EntriesFit(p, es, look)
  {
    InOrderAlready(es);
    hide Sort, EntriesFit, Ascending;
  }

  /** The whole set a conference hands over for somebody is taken, unchanged, exactly when the unit answers and
      holds the conference, has admitted them to receive, is not capped below the size of the set, and every
      source in it reaches the unit. */
  lemma ReceptionsAreTakenWholeExactlyWhen(
    f: Units, name: Id, c: Id, p: Id, made: seq<Domain.Op>, es: seq<Subscription>, look: Look)
    requires c != [] && name in f && IsLook(f, name, c, look)
    requires Agrees(f, name, c, Domain.Run(c, made)) && Domain.IsReception(Domain.Run(c, made), p, es)
    ensures forall e | e in es :: e.source in Domain.Run(c, made).sources
    ensures var u := f[name];
            (SetReceptionIn(u, c, p, es, look).1 == Ok && Accepted(u, es) == es) <==>
            && ConferenceFor(u, c) == Ok && p in u.conferences[c].subscribers
            && (u.knobs.acceptAtMost < 0 || |es| <= u.knobs.acceptAtMost)
            && forall e | e in es :: Reaches(f, name, c, Domain.Run(c, made).sources[e.source])
  {
    Domain.ReceptionsAreUsable(c, made, p, es);
    EntriesFitExactlyWhen(f, name, c, p, made, es, look);
    TakenExactlyWhen(f[name], c, p, es, look);
    hide *;
  }

  /** And then it is what the unit will send them. */
  lemma WhatIsTakenIsSent(u: Unit, c: Id, p: Id, entries: seq<Subscription>, look: Look)
    requires SetReceptionIn(u, c, p, entries, look).1 == Ok
    ensures var n := SetReceptionIn(u, c, p, entries, look).0;
            && c in n.conferences && p in n.conferences[c].receptions
            && ReceptionSound(p, n.conferences[c].receptions[p])
            && (forall e | e in n.conferences[c].receptions[p] ::
                  e in entries && e.subscriber == p && e.source in look && 0 <= e.layer < look[e.source].layers)
            && |n.conferences[c].receptions[p]|
               == if 0 <= u.knobs.acceptAtMost < |entries| then u.knobs.acceptAtMost else |entries|
  {
    AcceptedIsSound(u, p, entries, look);
    Domain.InTheOrderOfSources(entries);
    var sorted, kept := Sort(entries, Domain.SourceBefore), Accepted(u, entries);
    hide Sort, ReceptionSound;
    forall e | e in kept ensures e in entries {
      var i :| 0 <= i < |kept| && kept[i] == e;
      assert sorted[i] in sorted;
    }
    hide Accepted;
  }
}
