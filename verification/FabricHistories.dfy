/** What a unit of a fabric holds, as what it was asked and answered: who is admitted where, what they offer and are
    sent, and which of its settings hold. */
module FabricHistories {
  import opened Ids
  import opened Sorting
  import opened Histories
  import opened MediaFake
  import opened FabricRuns
  import Receptions

  /** The units after the first `k` operations. */
  function After(ops: seq<Op>, k: nat): Units
  {
    if k <= |ops| then Run(ops[..k]) else Run(ops)
  }

  lemma OneOn(ops: seq<Op>, k: nat)
    requires k < |ops|
    ensures After(ops, k + 1) == Apply(After(ops, k), ops[k]).0
  {
    assert ops[..k + 1][..k] == ops[..k];
    RunUnfolds(ops[..k + 1]);
    hide Apply, Run;
  }

  lemma AllOfThem(ops: seq<Op>)
    ensures After(ops, |ops|) == Run(ops) && After(ops, 0) == map[]
  {
    assert ops[..|ops|] == ops;
  }

  /** The operation at `k` is put to that unit and answered that it is done. */
  predicate Done(ops: seq<Op>, k: nat, n: Id)
  {
    k < |ops| && ops[k].name == n && Apply(After(ops, k), ops[k]).1 == Ok
  }

  predicate Opens(ops: seq<Op>, k: nat, n: Id, c: Id)
  {
    Done(ops, k, n) && ops[k].Open? && ops[k].c == c
  }

  /** What leaves a unit without the conference: a restart, or closing it. */
  predicate Ends(ops: seq<Op>, k: nat, n: Id, c: Id)
  {
    Done(ops, k, n) && (ops[k].Restart? || (ops[k].Close? && ops[k].c == c))
  }

  // ---------------------------------------------------------------- which conferences it holds, and as what

  /** The step is one the unit itself answers, and it is this unit's. */
  lemma Elsewhere(f: Units, op: Op, n: Id)
    ensures var g := Apply(f, op).0;
            if n in f && op.name == n && !op.Add? && !op.Close? then
              && g == f[n := Locally(f[n], op, f.Keys).0] && Apply(f, op).1 == Locally(f[n], op, f.Keys).1
            else true
    ensures op.name != n && !op.Close? ==> (n in Apply(f, op).0 <==> n in f) && (n in f ==> Apply(f, op).0[n] == f[n])
  {
    hide Locally;
  }

  lemma HeldStepHere(u: Unit, op: Op, names: set<Id>, c: Id)
    requires !op.Close? && !op.Add?
    ensures var (v, reply) := Locally(u, op, names);
            && (c in v.conferences <==>
                  (op.Open? && op.c == c && reply == Ok) || (c in u.conferences && !op.Restart?))
            && (c in u.conferences && !op.Restart? ==> v.conferences[c].profile == u.conferences[c].profile)
            && (op.Open? && op.c == c && reply == Ok ==> v.conferences[c].profile == op.profile)
            && (op.Restart? ==> reply == Ok)
  {
    hide SourcesRefused, ReferenceName, EntriesFit, Accepted, LinkId, WithSources;
  }

  lemma HeldStep(f: Units, op: Op, n: Id, c: Id)
    ensures Holds(Apply(f, op).0, n, c) <==>
              || (op.Open? && op.name == n && op.c == c && Apply(f, op).1 == Ok)
              || (&& Holds(f, n, c)
                  && !(op.name == n && (op.Restart? || (op.Close? && op.c == c)) && Apply(f, op).1 == Ok))
    ensures Holds(f, n, c) && Holds(Apply(f, op).0, n, c) ==>
              Apply(f, op).0[n].conferences[c].profile == f[n].conferences[c].profile
    ensures op.Open? && op.name == n && op.c == c && Apply(f, op).1 == Ok ==>
              Apply(f, op).0[n].conferences[c].profile == op.profile
  {
    if n in f && op.name == n && !op.Add? && !op.Close? {
      HeldStepHere(f[n], op, f.Keys, c);
      Elsewhere(f, op, n);
    }
    hide Locally;
  }

  lemma HeldOne(ops: seq<Op>, k: nat, n: Id, c: Id)
    requires k < |ops|
    ensures Holds(After(ops, k + 1), n, c) <==>
              Opening(ops, n, c)(k) || (Holds(After(ops, k), n, c) && !Ending(ops, n, c)(k))
  {
    OneOn(ops, k);
    HeldStep(After(ops, k), ops[k], n, c);
    hide Apply, After, Holds;
  }

  function Opening(ops: seq<Op>, n: Id, c: Id): nat -> bool
  {
    (k: nat) => Opens(ops, k, n, c)
  }

  function Ending(ops: seq<Op>, n: Id, c: Id): nat -> bool
  {
    (k: nat) => Ends(ops, k, n, c)
  }

  /** A unit holds a conference exactly when it answered that it opened it and since then has neither restarted nor
      closed it. */
  lemma HeldExactly(ops: seq<Op>, n: Id, c: Id)
    ensures Holds(Run(ops), n, c) <==> Since(Opening(ops, n, c), Ending(ops, n, c), |ops|)
  {
    hide *;
    AllOfThem(ops);
    NotHeldAtFirst(n, c);
    forall k: nat | k < |ops|
      ensures Holds(After(ops, k + 1), n, c) <==>
                Opening(ops, n, c)(k) || (Holds(After(ops, k), n, c) && !Ending(ops, n, c)(k)) {
      HeldOne(ops, k, n, c);
    }
    FollowsSince((k: nat) => Holds(After(ops, k), n, c), Opening(ops, n, c), Ending(ops, n, c), |ops|);
  }

  /** What it holds the conference as, if it does. */
  function HeldAs(f: Units, n: Id, c: Id): Maybe<Profile>
  {
    if Holds(f, n, c) then Just(f[n].conferences[c].profile) else Nothing
  }

  function Profiling(ops: seq<Op>, n: Id, c: Id): nat -> Maybe<Maybe<Profile>>
  {
    (k: nat) =>
      if Opens(ops, k, n, c) then Just(Just(ops[k].profile)) else if Ends(ops, k, n, c) then Just(Nothing) else Nothing
  }

  lemma HeldAsOne(ops: seq<Op>, k: nat, n: Id, c: Id)
    requires k < |ops|
    ensures var said := Profiling(ops, n, c)(k);
            HeldAs(After(ops, k + 1), n, c) == if said.Just? then said.value else HeldAs(After(ops, k), n, c)
  {
    OneOn(ops, k);
    HeldStep(After(ops, k), ops[k], n, c);
    hide Apply, After, Holds;
  }

  lemma NotHeldAtFirst(n: Id, c: Id)
    ensures !Holds(map[], n, c) && HeldAs(map[], n, c) == Nothing
  {
  }

  /** And it holds it under the profile it was last opened with, which every opening since then was for too. */
  lemma HeldUnderTheProfileOpened(ops: seq<Op>, n: Id, c: Id)
    ensures HeldAs(Run(ops), n, c) == Last(Profiling(ops, n, c), Nothing, |ops|)
  {
    hide *;
    AllOfThem(ops);
    NotHeldAtFirst(n, c);
    forall k: nat | k < |ops|
      ensures HeldAs(After(ops, k + 1), n, c)
              == if Profiling(ops, n, c)(k).Just? then Profiling(ops, n, c)(k).value else HeldAs(After(ops, k), n, c) {
      HeldAsOne(ops, k, n, c);
    }
    FollowsTheLast((k: nat) => HeldAs(After(ops, k), n, c), Profiling(ops, n, c), |ops|);
  }

  // ---------------------------------------------------------------- who is admitted

  predicate Subscribes(f: Units, n: Id, c: Id, p: Id)
  {
    Holds(f, n, c) && p in f[n].conferences[c].subscribers
  }

  predicate Publishes(f: Units, n: Id, c: Id, p: Id)
  {
    Holds(f, n, c) && p in f[n].conferences[c].publishers
  }

  function AdmittingToReceive(ops: seq<Op>, n: Id, c: Id, p: Id): nat -> bool
  {
    (k: nat) => Done(ops, k, n) && ops[k].AdmitSubscriber? && ops[k].c == c && ops[k].p == p
  }

  function AdmittingToPublish(ops: seq<Op>, n: Id, c: Id, p: Id): nat -> bool
  {
    (k: nat) => Done(ops, k, n) && ops[k].AdmitPublisher? && ops[k].c == c && ops[k].p == p
  }

  /** What one step does to those admitted. */
  lemma AdmittedStepHere(u: Unit, op: Op, names: set<Id>, c: Id, p: Id)
    requires !op.Close? && !op.Add?
    ensures var (v, reply) := Locally(u, op, names);
            && (c in v.conferences && p in v.conferences[c].subscribers <==>
                  || (op.AdmitSubscriber? && op.c == c && op.p == p && reply == Ok)
                  || (c in u.conferences && p in u.conferences[c].subscribers && !op.Restart?))
            && (c in v.conferences && p in v.conferences[c].publishers <==>
                  || (op.AdmitPublisher? && op.c == c && op.p == p && reply == Ok)
                  || (c in u.conferences && p in u.conferences[c].publishers && !op.Restart?))
            && (op.Restart? ==> reply == Ok)
  {
    hide SourcesRefused, ReferenceName, EntriesFit, Accepted, LinkId, WithSources;
  }

  lemma AdmittedStep(f: Units, op: Op, n: Id, c: Id, p: Id)
    ensures var g, done := Apply(f, op).0, op.name == n && Apply(f, op).1 == Ok;
            var ended := done && (op.Restart? || (op.Close? && op.c == c));
            && (Subscribes(g, n, c, p) <==>
                  || (op.AdmitSubscriber? && op.name == n && op.c == c && op.p == p && Apply(f, op).1 == Ok)
                  || (Subscribes(f, n, c, p) && !ended))
            && (Publishes(g, n, c, p) <==>
                  || (op.AdmitPublisher? && op.name == n && op.c == c && op.p == p && Apply(f, op).1 == Ok)
                  || (Publishes(f, n, c, p) && !ended))
  {
    if n in f && op.name == n && !op.Add? && !op.Close? {
      AdmittedStepHere(f[n], op, f.Keys, c, p);
      Elsewhere(f, op, n);
    }
    hide Locally;
  }

  lemma AdmittedOne(ops: seq<Op>, k: nat, n: Id, c: Id, p: Id)
    requires k < |ops|
    ensures Subscribes(After(ops, k + 1), n, c, p) <==>
              AdmittingToReceive(ops, n, c, p)(k) || (Subscribes(After(ops, k), n, c, p) && !Ending(ops, n, c)(k))
    ensures Publishes(After(ops, k + 1), n, c, p) <==>
              AdmittingToPublish(ops, n, c, p)(k) || (Publishes(After(ops, k), n, c, p) && !Ending(ops, n, c)(k))
  {
    OneOn(ops, k);
    AdmittedStep(After(ops, k), ops[k], n, c, p);
    hide Apply, After, Subscribes, Publishes;
  }

  lemma NobodyAtFirst(n: Id, c: Id, p: Id)
    ensures !Subscribes(map[], n, c, p) && !Publishes(map[], n, c, p)
  {
  }

  /** Somebody is a subscriber of a conference on a unit exactly when the unit answered that it admitted them as one
      and since then has neither restarted nor closed the conference. */
  lemma SubscribersExactly(ops: seq<Op>, n: Id, c: Id, p: Id)
    ensures Subscribes(Run(ops), n, c, p) <==> Since(AdmittingToReceive(ops, n, c, p), Ending(ops, n, c), |ops|)
  {
    hide *;
    AllOfThem(ops);
    NobodyAtFirst(n, c, p);
    forall k: nat | k < |ops|
      ensures Subscribes(After(ops, k + 1), n, c, p) <==>
                AdmittingToReceive(ops, n, c, p)(k) || (Subscribes(After(ops, k), n, c, p) && !Ending(ops, n, c)(k)) {
      AdmittedOne(ops, k, n, c, p);
    }
    FollowsSince((k: nat) => Subscribes(After(ops, k), n, c, p), AdmittingToReceive(ops, n, c, p), Ending(ops, n, c),
                 |ops|);
  }

  /** And a publisher of it exactly when it admitted them to publish since. */
  lemma PublishersExactly(ops: seq<Op>, n: Id, c: Id, p: Id)
    ensures Publishes(Run(ops), n, c, p) <==> Since(AdmittingToPublish(ops, n, c, p), Ending(ops, n, c), |ops|)
  {
    hide *;
    AllOfThem(ops);
    NobodyAtFirst(n, c, p);
    forall k: nat | k < |ops|
      ensures Publishes(After(ops, k + 1), n, c, p) <==>
                AdmittingToPublish(ops, n, c, p)(k) || (Publishes(After(ops, k), n, c, p) && !Ending(ops, n, c)(k)) {
      AdmittedOne(ops, k, n, c, p);
    }
    FollowsSince((k: nat) => Publishes(After(ops, k), n, c, p), AdmittingToPublish(ops, n, c, p), Ending(ops, n, c),
                 |ops|);
  }

  // ---------------------------------------------------------------- what they offer

  /** Of the sources under its identifier it is the last. */
  ghost predicate LastOfItsName(ss: seq<Source>, s: Source)
  {
    exists k: nat :: k < |ss| && ss[k] == s && forall j: nat | k < j < |ss| :: ss[j].id != s.id
  }

  predicate Offered(f: Units, n: Id, c: Id, s: Source)
  {
    Holds(f, n, c) && s.id in f[n].conferences[c].sources && f[n].conferences[c].sources[s.id] == s
  }

  ghost function Offering(ops: seq<Op>, n: Id, c: Id, s: Source): nat -> bool
  {
    (k: nat) => Done(ops, k, n) && ops[k].AdmitPublisher? && ops[k].c == c && LastOfItsName(ops[k].sources, s)
  }

  lemma LastOfOneMore(ss: seq<Source>, last: Source, s: Source)
    ensures LastOfItsName(ss + [last], s) <==> last == s || (last.id != s.id && LastOfItsName(ss, s))
  {
    var all := ss + [last];
    if last == s {
      assert all[|ss|] == s;
    }
    if last.id != s.id && LastOfItsName(ss, s) {
      var k: nat :| k < |ss| && ss[k] == s && forall j: nat | k < j < |ss| :: ss[j].id != s.id;
      assert all[k] == s && forall j: nat | k < j < |all| :: all[j].id != s.id;
    }
    if LastOfItsName(all, s) {
      var k: nat :| k < |all| && all[k] == s && forall j: nat | k < j < |all| :: all[j].id != s.id;
      if k < |ss| {
        assert all[|ss|] == last;
        assert ss[k] == s && forall j: nat | k < j < |ss| :: ss[j].id == all[j].id;
      }
    }
  }

  /** Putting sources in one after the other leaves the last of every name, and what they do not name. */
  lemma {:induction false} WithSourcesExactly(held: map<Id, Source>, ss: seq<Source>, s: Source)
    ensures var n := WithSources(held, ss);
            (s.id in n && n[s.id] == s) <==>
            || LastOfItsName(ss, s)
            || (s.id in held && held[s.id] == s && forall x | x in ss :: x.id != s.id)
  {
    if ss != [] {
      var past, last := ss[..|ss| - 1], ss[|ss| - 1];
      WithSourcesExactly(held, past, s);
      assert ss == past + [last];
      LastOfOneMore(past, last, s);
      hide LastOfItsName;
    }
  }

  lemma OfferedStepHere(u: Unit, op: Op, names: set<Id>, c: Id, s: Source)
    requires !op.Close? && !op.Add?
    ensures var (v, reply) := Locally(u, op, names);
            && (c in v.conferences && s.id in v.conferences[c].sources && v.conferences[c].sources[s.id] == s <==>
                  || (op.AdmitPublisher? && op.c == c && reply == Ok && LastOfItsName(op.sources, s))
                  || (c in u.conferences && s.id in u.conferences[c].sources && u.conferences[c].sources[s.id] == s
                      && !op.Restart?))
            && (op.Restart? ==> reply == Ok)
  {
    if op.AdmitPublisher? && PublisherReply(u, op.c, op.p, op.sources) == Ok {
      Receptions.SourcesTakenExactly(u.conferences[op.c], op.p, op.sources);
      WithSourcesExactly(u.conferences[op.c].sources, op.sources, s);
    }
    hide SourcesRefused, ReferenceName, EntriesFit, Accepted, LinkId, WithSources, LastOfItsName, OutsideProfile;
  }

  lemma OfferedStep(f: Units, op: Op, n: Id, c: Id, s: Source)
    ensures var g := Apply(f, op).0;
            Offered(g, n, c, s) <==>
            || (&& op.AdmitPublisher? && op.name == n && op.c == c && Apply(f, op).1 == Ok
                && LastOfItsName(op.sources, s))
            || (&& Offered(f, n, c, s)
                && !(op.name == n && (op.Restart? || (op.Close? && op.c == c)) && Apply(f, op).1 == Ok))
  {
    if n in f && op.name == n && !op.Add? && !op.Close? {
      OfferedStepHere(f[n], op, f.Keys, c, s);
      Elsewhere(f, op, n);
    }
    hide Locally, LastOfItsName;
  }

  lemma OfferedOne(ops: seq<Op>, k: nat, n: Id, c: Id, s: Source)
    requires k < |ops|
    ensures Offered(After(ops, k + 1), n, c, s) <==>
              Offering(ops, n, c, s)(k) || (Offered(After(ops, k), n, c, s) && !Ending(ops, n, c)(k))
  {
    OneOn(ops, k);
    OfferedStep(After(ops, k), ops[k], n, c, s);
    hide Apply, After, Offered, LastOfItsName;
  }

  lemma NothingOfferedAtFirst(n: Id, c: Id, s: Source)
    ensures !Offered(map[], n, c, s)
  {
  }

  /** A unit holds a source exactly when it answered that it admitted a publisher with it, the last of that admission
      under its identifier, and since then has neither restarted nor closed the conference. */
  lemma SourcesExactly(ops: seq<Op>, n: Id, c: Id, s: Source)
    ensures Offered(Run(ops), n, c, s) <==> Since(Offering(ops, n, c, s), Ending(ops, n, c), |ops|)
  {
    hide *;
    AllOfThem(ops);
    NothingOfferedAtFirst(n, c, s);
    forall k: nat | k < |ops|
      ensures Offered(After(ops, k + 1), n, c, s) <==>
                Offering(ops, n, c, s)(k) || (Offered(After(ops, k), n, c, s) && !Ending(ops, n, c)(k)) {
      OfferedOne(ops, k, n, c, s);
    }
    FollowsSince((k: nat) => Offered(After(ops, k), n, c, s), Offering(ops, n, c, s), Ending(ops, n, c), |ops|);
  }

  // ---------------------------------------------------------------- what they are sent

  /** What a unit will send somebody, if it has been told. */
  function ReceptionOf(f: Units, n: Id, c: Id, p: Id): Maybe<seq<Subscription>>
  {
    if Holds(f, n, c) && p in f[n].conferences[c].receptions then Just(f[n].conferences[c].receptions[p]) else Nothing
  }

  function Sending(ops: seq<Op>, n: Id, c: Id, p: Id): nat -> Maybe<Maybe<seq<Subscription>>>
  {
    (k: nat) =>
      if Done(ops, k, n) && ops[k].SetReception? && ops[k].c == c && ops[k].p == p && n in After(ops, k) then
        Just(Just(Accepted(After(ops, k)[n], ops[k].entries)))
      else if Ends(ops, k, n, c) then Just(Nothing) else Nothing
  }

  lemma ReceptionStepHere(u: Unit, op: Op, names: set<Id>, c: Id, p: Id)
    requires !op.Close? && !op.Add?
    ensures var (v, reply) := Locally(u, op, names);
            && (op.Restart? ==> reply == Ok && v.conferences == map[])
            && (if op.SetReception? && op.c == c && op.p == p && reply == Ok then
                  c in v.conferences && p in v.conferences[c].receptions
                  && v.conferences[c].receptions[p] == Accepted(u, op.entries)
                else if op.Restart? then true
                else
                  && (c in v.conferences && p in v.conferences[c].receptions <==>
                        c in u.conferences && p in u.conferences[c].receptions)
                  && (c in u.conferences && p in u.conferences[c].receptions ==>
                        v.conferences[c].receptions[p] == u.conferences[c].receptions[p]))
  {
    hide SourcesRefused, ReferenceName, EntriesFit, Accepted, LinkId, WithSources;
  }

  lemma ReceptionStep(f: Units, op: Op, n: Id, c: Id, p: Id)
    ensures var (g, reply) := Apply(f, op);
            ReceptionOf(g, n, c, p)
            == if op.SetReception? && op.name == n && op.c == c && op.p == p && reply == Ok && n in f then
                 Just(Accepted(f[n], op.entries))
               else if op.name == n && (op.Restart? || (op.Close? && op.c == c)) && reply == Ok then Nothing
               else ReceptionOf(f, n, c, p)
  {
    if n in f && op.name == n && !op.Add? && !op.Close? {
      ReceptionStepHere(f[n], op, f.Keys, c, p);
      Elsewhere(f, op, n);
    }
    hide Locally, Accepted;
  }

  lemma ReceptionOne(ops: seq<Op>, k: nat, n: Id, c: Id, p: Id)
    requires k < |ops|
    ensures var said := Sending(ops, n, c, p)(k);
            ReceptionOf(After(ops, k + 1), n, c, p)
            == if said.Just? then said.value else ReceptionOf(After(ops, k), n, c, p)
  {
    OneOn(ops, k);
    ReceptionStep(After(ops, k), ops[k], n, c, p);
    hide Apply, After, ReceptionOf, Accepted;
  }

  lemma NothingSentAtFirst(n: Id, c: Id, p: Id)
    ensures ReceptionOf(map[], n, c, p) == Nothing
  {
  }

  /** What a unit sends somebody is what it made of the last set it took for them, since when it has neither restarted
      nor closed the conference; the sets it refused in between change nothing. */
  lemma SentAsLastTaken(ops: seq<Op>, n: Id, c: Id, p: Id)
    ensures ReceptionOf(Run(ops), n, c, p) == Last(Sending(ops, n, c, p), Nothing, |ops|)
  {
    hide *;
    AllOfThem(ops);
    NothingSentAtFirst(n, c, p);
    forall k: nat | k < |ops|
      ensures var said := Sending(ops, n, c, p)(k);
              ReceptionOf(After(ops, k + 1), n, c, p)
              == if said.Just? then said.value else ReceptionOf(After(ops, k), n, c, p) {
      ReceptionOne(ops, k, n, c, p);
    }
    FollowsTheLast((k: nat) => ReceptionOf(After(ops, k), n, c, p), Sending(ops, n, c, p), |ops|);
  }

  // ---------------------------------------------------------------- how it is set

  /** The unit is there and answers. */
  predicate Up(f: Units, n: Id)
  {
    n in f && f[n].alive
  }

  function KnobsOf(f: Units, n: Id): Knobs
  {
    if n in f then f[n].knobs else DEFAULTS
  }

  function Powering(ops: seq<Op>, n: Id): nat -> Maybe<bool>
  {
    (k: nat) =>
      if !Done(ops, k, n) then Nothing
      else if ops[k].Add? || ops[k].Restart? then Just(true) else if ops[k].Die? then Just(false) else Nothing
  }

  function Setting(ops: seq<Op>, n: Id): nat -> Maybe<Knobs>
  {
    (k: nat) => if Done(ops, k, n) && ops[k].Set? then Just(ops[k].knobs) else Nothing
  }

  lemma SettingStep(f: Units, op: Op, n: Id)
    ensures var (g, reply) := Apply(f, op);
            var done := op.name == n && reply == Ok;
            && (Up(g, n) <==> if done && (op.Add? || op.Restart?) then true
                              else if done && op.Die? then false else Up(f, n))
            && KnobsOf(g, n) == (if done && op.Set? then op.knobs else KnobsOf(f, n))
  {
    hide SourcesRefused, ReferenceName, EntriesFit, Accepted, LinkId, WithSources;
  }

  lemma SettingOne(ops: seq<Op>, k: nat, n: Id)
    requires k < |ops|
    ensures var said := Powering(ops, n)(k);
            Up(After(ops, k + 1), n) == if said.Just? then said.value else Up(After(ops, k), n)
    ensures var said := Setting(ops, n)(k);
            KnobsOf(After(ops, k + 1), n) == if said.Just? then said.value else KnobsOf(After(ops, k), n)
  {
    OneOn(ops, k);
    SettingStep(After(ops, k), ops[k], n);
    hide Apply, After, Up, KnobsOf;
  }

  lemma NotSetAtFirst(n: Id)
    ensures !Up(map[], n) && KnobsOf(map[], n) == DEFAULTS
  {
  }

  /** A unit answers exactly when it was added or restarted after it last died, and is set as it was last set: a
      restart brings it back with the settings it had. */
  lemma SetAsLastSet(ops: seq<Op>, n: Id)
    ensures Up(Run(ops), n) == Last(Powering(ops, n), false, |ops|)
    ensures KnobsOf(Run(ops), n) == Last(Setting(ops, n), DEFAULTS, |ops|)
  {
    hide *;
    AllOfThem(ops);
    NotSetAtFirst(n);
    forall k: nat | k < |ops|
      ensures var said := Powering(ops, n)(k);
              Up(After(ops, k + 1), n) == if said.Just? then said.value else Up(After(ops, k), n)
      ensures var said := Setting(ops, n)(k);
              KnobsOf(After(ops, k + 1), n) == if said.Just? then said.value else KnobsOf(After(ops, k), n) {
      SettingOne(ops, k, n);
    }
    FollowsTheLast((k: nat) => Up(After(ops, k), n), Powering(ops, n), |ops|);
    FollowsTheLast((k: nat) => KnobsOf(After(ops, k), n), Setting(ops, n), |ops|);
  }
}
