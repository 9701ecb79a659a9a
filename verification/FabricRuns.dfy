/** What holds of the units of a fabric over whole runs. */
module FabricRuns {
  import opened Ids
  import opened MediaFake
  import Decimal

  datatype Op =
    | Add(name: Id)
    | Set(name: Id, knobs: Knobs)
    | Die(name: Id)
    | Restart(name: Id)
    | Open(name: Id, c: Id, profile: Profile)
    | Close(name: Id, c: Id)
    | AdmitPublisher(name: Id, c: Id, p: Id, sources: seq<Source>)
    | AdmitSubscriber(name: Id, c: Id, p: Id)
    | SetReception(name: Id, c: Id, p: Id, entries: seq<Subscription>, look: Look)
    | Link(name: Id, c: Id, reference: Bytes)

  /** An operation as the unit it is put to answers it. */
  function Locally(u: Unit, op: Op, names: set<Id>): (Unit, Reply)
  {
    match op
    case Set(_, knobs) => (u.(knobs := knobs), Ok)
    case Die(_) => (u.(alive := false), Ok)
    case Restart(_) => (Restarted(u), Ok)
    case Open(_, c, profile) => OpenIn(u, c, profile)
    case AdmitPublisher(_, c, p, sources) => AdmitPublisherIn(u, c, p, sources)
    case AdmitSubscriber(_, c, p) => AdmitSubscriberIn(u, c, p)
    case SetReception(_, c, p, entries, look) => SetReceptionIn(u, c, p, entries, look)
    case Link(name, c, reference) => LinkIn(u, name, names, c, ReferenceName(reference))
    case _ => (u, Ok)
  }

  function Apply(f: Units, op: Op): (Units, Reply)
  {
    if op.Add? then AddOf(f, op.name)
    else if op.name !in f then (f, No(Unknown))
    else if op.Close? then CloseOf(f, op.name, op.c)
    else (f[op.name := Locally(f[op.name], op, f.Keys).0], Locally(f[op.name], op, f.Keys).1)
  }

  function Run(ops: seq<Op>): Units
  {
    if ops == [] then map[] else Apply(Run(ops[..|ops| - 1]), ops[|ops| - 1]).0
  }

  lemma RunUnfolds(ops: seq<Op>)
    requires ops != []
    ensures Run(ops) == Apply(Run(ops[..|ops| - 1]), ops[|ops| - 1]).0
  {
    hide Apply;
  }

  /** The operation names a conference on a unit, and is not the one that closes it. */
  predicate Names(op: Op, n: Id, c: Id)
  {
    op.name == n && (op.Open? || op.AdmitPublisher? || op.AdmitSubscriber? || op.SetReception? || op.Link?) && op.c == c
  }

  // ---------------------------------------------------------------- links and what they make visible

  predicate Has(f: Units, a: Id, b: Id, c: Id)
  {
    a in f && c in f[a].conferences && b in f[a].conferences[c].links
  }

  /** `a` is asked for a link of `c` to `b` and answers that there is one. */
  predicate Links(f: Units, op: Op, a: Id, b: Id, c: Id)
  {
    op.Link? && op.name == a && op.c == c && ReferenceName(op.reference) == b && Apply(f, op).1 == Ok
  }

  /** What ends that link: a restart of `a`, or either unit closing the conference. */
  predicate Cuts(f: Units, op: Op, a: Id, b: Id, c: Id)
  {
    || (op.Restart? && op.name == a)
    || (op.Close? && op.c == c && (op.name == a || op.name == b) && Apply(f, op).1 == Ok)
  }

  /** What a step on the unit itself does to its link. */
  lemma LinkStepHere(u: Unit, op: Op, names: set<Id>, b: Id, c: Id)
    requires !op.Close? && !op.Add?
    ensures var (v, reply) := Locally(u, op, names);
            (c in v.conferences && b in v.conferences[c].links) <==>
            || (op.Link? && op.c == c && ReferenceName(op.reference) == b && reply == Ok)
            || (c in u.conferences && b in u.conferences[c].links && !op.Restart?)
  {
    hide SourcesRefused, ReferenceName, EntriesFit, Accepted, LinkId, WithSources;
  }

  lemma LinkStep(f: Units, op: Op, a: Id, b: Id, c: Id)
    ensures Has(Apply(f, op).0, a, b, c) <==> Links(f, op, a, b, c) || (Has(f, a, b, c) && !Cuts(f, op, a, b, c))
  {
    if !op.Close? && !op.Add? && op.name == a && a in f {
      LinkStepHere(f[a], op, f.Keys, b, c);
      assert Apply(f, op) == (f[a := Locally(f[a], op, f.Keys).0], Locally(f[a], op, f.Keys).1);
    }
    hide Locally, ReferenceName;
  }

  predicate LinksAt(ops: seq<Op>, i: nat, a: Id, b: Id, c: Id)
    requires i < |ops|
  {
    Links(Run(ops[..i]), ops[i], a, b, c)
  }

  predicate CutsAt(ops: seq<Op>, i: nat, a: Id, b: Id, c: Id)
    requires i < |ops|
  {
    Cuts(Run(ops[..i]), ops[i], a, b, c)
  }

  /** `a` answered a link to `b` at `i` and nothing has ended it since. */
  predicate LinkedSince(ops: seq<Op>, i: nat, a: Id, b: Id, c: Id)
  {
    i < |ops| && LinksAt(ops, i, a, b, c) && forall j | i < j < |ops| :: !CutsAt(ops, j, a, b, c)
  }

  lemma LinkedSinceExtends(past: seq<Op>, op: Op, i: nat, a: Id, b: Id, c: Id)
    requires i < |past|
    ensures LinkedSince(past + [op], i, a, b, c) <==> LinkedSince(past, i, a, b, c) && !Cuts(Run(past), op, a, b, c)
  {
    var ops := past + [op];
    hide Links, Cuts, Run;
    assert ops[..|past|] == past;
    assert ops[..i] == past[..i];
    forall j | i < j < |past| ensures CutsAt(ops, j, a, b, c) == CutsAt(past, j, a, b, c) {
      assert ops[..j] == past[..j];
    }
    assert CutsAt(ops, |past|, a, b, c) == Cuts(Run(past), op, a, b, c);
  }

  /** A unit holds a link exactly when it answered one and since then it has not restarted and neither unit has
      closed the conference. A restart of the other unit does not end it. */
  lemma {:induction false} LinkHeldExactly(ops: seq<Op>, a: Id, b: Id, c: Id)
    ensures Has(Run(ops), a, b, c) <==> exists i :: LinkedSince(ops, i, a, b, c)
  {
    if ops == [] {
      return;
    }
    var past, op := ops[..|ops| - 1], ops[|ops| - 1];
    LinkHeldExactly(past, a, b, c);
    RunUnfolds(ops);
    LinkStep(Run(past), op, a, b, c);
    assert ops == past + [op];
    hide Run, Apply, Links, Cuts, Has;
    if i: nat :| i < |past| && LinkedSince(past, i, a, b, c) {
      LinkedSinceExtends(past, op, i, a, b, c);
    }
    if i: nat :| i < |past| && LinkedSince(ops, i, a, b, c) {
      LinkedSinceExtends(past, op, i, a, b, c);
    }
    assert LinkedSince(ops, |past|, a, b, c) <==> Links(Run(past), op, a, b, c);
  }

  /** One unit can forward what another holds exactly when each of them answered a link to the other and, since its
      answer, has not restarted, and neither has closed the conference since either answer. */
  lemma SpansExactly(ops: seq<Op>, a: Id, b: Id, c: Id)
    ensures Spans(Run(ops), a, b, c) <==>
              (exists i :: LinkedSince(ops, i, a, b, c)) && (exists j :: LinkedSince(ops, j, b, a, c))
    ensures Spans(Run(ops), a, b, c) == Spans(Run(ops), b, a, c)
  {
    LinkHeldExactly(ops, a, b, c);
    LinkHeldExactly(ops, b, a, c);
    hide Run, LinkedSince;
  }

  /** Once either unit has closed the conference, nothing of it passes between the two until both have been asked
      for a link again and have answered. */
  lemma NothingPassesAClosing(ops: seq<Op>, close: Op, more: seq<Op>, a: Id, b: Id, c: Id)
    requires close.Close? && close.c == c && (close.name == a || close.name == b) && Apply(Run(ops), close).1 == Ok
    requires Spans(Run(ops + [close] + more), a, b, c)
    ensures exists i, j :: |ops| < i < |ops + [close] + more| && |ops| < j < |ops + [close] + more|
                    && LinksAt(ops + [close] + more, i, a, b, c) && LinksAt(ops + [close] + more, j, b, a, c)
  {
    var all, at := ops + [close] + more, |ops|;
    SpansExactly(all, a, b, c);
    assert all[..at] == ops && all[at] == close;
    assert CutsAt(all, at, a, b, c) && CutsAt(all, at, b, a, c);
    hide Run, Spans, Links, Cuts, Apply;
    var i: nat :| LinkedSince(all, i, a, b, c);
    var j: nat :| LinkedSince(all, j, b, a, c);
    assert i != at by {
      ClosingIsNotLinking(all, at, a, b, c);
    }
    assert j != at by {
      ClosingIsNotLinking(all, at, b, a, c);
    }
    assert i > at && j > at;
  }

  lemma ClosingIsNotLinking(all: seq<Op>, at: nat, a: Id, b: Id, c: Id)
    requires at < |all| && all[at].Close?
    ensures !LinksAt(all, at, a, b, c)
  {
  }

  /** A reference a unit gives out names that unit. */
  lemma ReferencesNameTheirUnit(name: Id)
    ensures ReferenceName(Reference(name)) == name
  {
    var r := Reference(name);
    assert r[..|PREFIX|] == PREFIX && r[|PREFIX|..] == name;
  }

  function ApplyAll(f: Units, ops: seq<Op>): Units
  {
    if ops == [] then f else Apply(ApplyAll(f, ops[..|ops| - 1]), ops[|ops| - 1]).0
  }

  lemma ApplyOneMore(f: Units, ops: seq<Op>, op: Op)
    ensures ApplyAll(f, ops + [op]) == Apply(ApplyAll(f, ops), op).0
  {
    assert (ops + [op])[..|ops|] == ops;
    hide Apply;
  }

  lemma RestartStep(f: Units, b: Id)
    requires b in f
    ensures Apply(f, Restart(b)).0 == f[b := Restarted(f[b])]
  {
  }

  lemma ToldStep(f: Units, b: Id, c: Id, profile: Profile)
    requires b in f && f[b].alive && c in f[b].lost
    ensures Apply(f, Open(b, c, profile)) == (f[b := Told(f[b], c)], No(Lost))
  {
  }

  lemma OpenStep(f: Units, b: Id, c: Id, profile: Profile)
    requires b in f && f[b].alive && c !in f[b].lost && c !in f[b].conferences
    requires profile.codecs != [] && f[b].knobs.servable == Everything && f[b].knobs.refusing == {}
    ensures Apply(f, Open(b, c, profile)) == (f[b := Keep(f[b], c, Held(profile, {}, {}, map[], map[], map[]))], Ok)
  {
  }

  lemma NewLinkStep(f: Units, b: Id, c: Id, peer: Id)
    requires b in f && f[b].alive && c !in f[b].lost && c in f[b].conferences && peer !in f[b].conferences[c].links
    requires peer != [] && peer != b && peer in f && f[b].knobs.refusing == {}
    ensures var op := Link(b, c, Reference(peer));
            var h := f[b].conferences[c];
            && Apply(f, op).1 == Ok
            && Apply(f, op).0
               == f[b := Keep(f[b], c, h.(links := h.links[peer := LinkId(b, peer, f[b].made + 1)]))
                           .(made := f[b].made + 1)]
  {
    ReferencesNameTheirUnit(peer);
    hide Reference, ReferenceName, LinkId;
  }

  /** A restart is not a closing: the units linked to the one that restarted keep their side, so when it holds the
      conference again its own link alone makes everything pass again, with nothing asked of the other unit. */
  lemma ARestartKeepsTheFarLink(f: Units, a: Id, b: Id, c: Id, profile: Profile)
    requires Spans(f, a, b, c) && a != b && a != [] && c !in f[b].lost
    requires profile.codecs != [] && f[b].knobs.servable == Everything && f[b].knobs.refusing == {}
    ensures var gone, open, link := [Restart(b)], Open(b, c, profile), Link(b, c, Reference(a));
            && Apply(ApplyAll(f, gone), open).1 == No(Lost)
            && !Spans(ApplyAll(f, gone + [open] + [open]), a, b, c)
            && Spans(ApplyAll(f, gone + [open] + [open] + [link]), a, b, c)
  {
    var gone, open, link := [Restart(b)], Open(b, c, profile), Link(b, c, Reference(a));
    ApplyOneMore(f, [], Restart(b));
    assert [] + gone == gone && ApplyAll(f, []) == f;
    ApplyOneMore(f, gone, open);
    ApplyOneMore(f, gone + [open], open);
    ApplyOneMore(f, gone + [open] + [open], link);
    hide Apply, ApplyAll, Reference, LinkId;
    RestartStep(f, b);
    var restarted := ApplyAll(f, gone);
    ToldStep(restarted, b, c, profile);
    var told := ApplyAll(f, gone + [open]);
    OpenStep(told, b, c, profile);
    var held := ApplyAll(f, gone + [open] + [open]);
    NewLinkStep(held, b, c, a);
  }

  // ---------------------------------------------------------------- what a restart took away

  predicate IsLost(f: Units, n: Id, c: Id)
  {
    n in f && c in f[n].lost
  }

  predicate Holds(f: Units, n: Id, c: Id)
  {
    n in f && c in f[n].conferences
  }

  /** The operation is answered that the conference did not survive a restart. */
  predicate Answered(f: Units, op: Op, n: Id, c: Id)
  {
    Names(op, n, c) && Apply(f, op).1 == No(Lost)
  }

  lemma LossStepHere(u: Unit, op: Op, names: set<Id>, c: Id)
    requires !op.Close? && !op.Add? && (c in u.conferences ==> c !in u.lost)
    ensures var (v, reply) := Locally(u, op, names);
            && (c in v.conferences ==> c !in v.lost)
            && (reply == No(Lost) && Names(op, op.name, c) <==> u.alive && c in u.lost && Names(op, op.name, c))
            && (c in v.lost <==>
                  (op.Restart? && c in u.conferences) || (c in u.lost && !(u.alive && Names(op, op.name, c))))
  {
    hide SourcesRefused, ReferenceName, EntriesFit, Accepted, LinkId, WithSources;
  }

  lemma LossStep(f: Units, op: Op, n: Id, c: Id)
    requires Holds(f, n, c) ==> !IsLost(f, n, c)
    ensures Holds(Apply(f, op).0, n, c) ==> !IsLost(Apply(f, op).0, n, c)
    ensures Answered(f, op, n, c) <==> Names(op, n, c) && IsLost(f, n, c) && f[n].alive
    ensures IsLost(Apply(f, op).0, n, c) <==>
              || (op.Restart? && op.name == n && Holds(f, n, c))
              || (IsLost(f, n, c) && !Answered(f, op, n, c) && !(op.Close? && op.name == n && op.c == c && f[n].alive))
  {
    if !op.Close? && !op.Add? && op.name == n && n in f {
      LossStepHere(f[n], op, f.Keys, c);
      assert Apply(f, op) == (f[n := Locally(f[n], op, f.Keys).0], Locally(f[n], op, f.Keys).1);
    }
    hide Locally;
  }

  /** How often operations naming the conference were answered that it is lost. */
  function Losses(ops: seq<Op>, n: Id, c: Id): nat
  {
    if ops == [] then 0
    else
      var past, op := ops[..|ops| - 1], ops[|ops| - 1];
      Losses(past, n, c) + if Answered(Run(past), op, n, c) then 1 else 0
  }

  /** How often the unit restarted while it held the conference. */
  function Restarts(ops: seq<Op>, n: Id, c: Id): nat
  {
    if ops == [] then 0
    else
      var past, op := ops[..|ops| - 1], ops[|ops| - 1];
      Restarts(past, n, c) + if op.Restart? && op.name == n && Holds(Run(past), n, c) then 1 else 0
  }

  /** A unit never holds a conference it has still to tell of as lost, and it has told of a loss, or has still to
      tell of it, at most once for every restart that caused one. */
  lemma {:induction false} EveryLossIsToldOfAtMostOnce(ops: seq<Op>, n: Id, c: Id)
    ensures Holds(Run(ops), n, c) ==> !IsLost(Run(ops), n, c)
    ensures Losses(ops, n, c) + (if IsLost(Run(ops), n, c) then 1 else 0) <= Restarts(ops, n, c)
  {
    if ops != [] {
      var past, op := ops[..|ops| - 1], ops[|ops| - 1];
      EveryLossIsToldOfAtMostOnce(past, n, c);
      RunUnfolds(ops);
      LossStep(Run(past), op, n, c);
      hide Run, Apply, Holds, IsLost, Answered;
    }
  }

  /** The unit restarted at `i` while it held the conference, and nothing has settled that since: no operation has
      been told of it and the conference has not been closed. */
  predicate TakenAway(ops: seq<Op>, i: nat, n: Id, c: Id)
  {
    && i < |ops| && ops[i].Restart? && ops[i].name == n && Holds(Run(ops[..i]), n, c)
    && forall j | i < j < |ops| :: !SettledAt(ops, j, n, c)
  }

  predicate Settles(f: Units, op: Op, n: Id, c: Id)
  {
    Answered(f, op, n, c) || (op.Close? && op.name == n && op.c == c && n in f && f[n].alive)
  }

  predicate SettledAt(ops: seq<Op>, j: nat, n: Id, c: Id)
    requires j < |ops|
  {
    Settles(Run(ops[..j]), ops[j], n, c)
  }

  lemma TakenAwayExtends(past: seq<Op>, op: Op, i: nat, n: Id, c: Id)
    requires i < |past|
    ensures TakenAway(past + [op], i, n, c) <==> TakenAway(past, i, n, c) && !Settles(Run(past), op, n, c)
  {
    var ops := past + [op];
    hide Settles, Run, Holds;
    assert ops[..|past|] == past && ops[..i] == past[..i];
    forall j | i < j < |past| ensures SettledAt(ops, j, n, c) == SettledAt(past, j, n, c) {
      assert ops[..j] == past[..j];
    }
    assert SettledAt(ops, |past|, n, c) == Settles(Run(past), op, n, c);
  }

  lemma {:induction false} LostExactly(ops: seq<Op>, n: Id, c: Id)
    ensures IsLost(Run(ops), n, c) <==> exists i :: TakenAway(ops, i, n, c)
  {
    if ops == [] {
      return;
    }
    var past, op := ops[..|ops| - 1], ops[|ops| - 1];
    LostExactly(past, n, c);
    EveryLossIsToldOfAtMostOnce(past, n, c);
    RunUnfolds(ops);
    LossStep(Run(past), op, n, c);
    assert ops == past + [op];
    hide Run, Apply, Answered, Holds;
    if i: nat :| i < |past| && TakenAway(past, i, n, c) {
      TakenAwayExtends(past, op, i, n, c);
    }
    if i: nat :| i < |past| && TakenAway(ops, i, n, c) {
      TakenAwayExtends(past, op, i, n, c);
    }
    assert TakenAway(ops, |past|, n, c) <==> op.Restart? && op.name == n && Holds(Run(past), n, c);
  }

  /** An operation naming a conference is told it is lost exactly when the unit answers and a restart took the
      conference away that nothing has settled since. */
  lemma LostIsAnsweredExactlyWhen(ops: seq<Op>, op: Op, n: Id, c: Id)
    requires Names(op, n, c)
    ensures Apply(Run(ops), op).1 == No(Lost) <==>
              n in Run(ops) && Run(ops)[n].alive && exists i :: TakenAway(ops, i, n, c)
  {
    LostExactly(ops, n, c);
    EveryLossIsToldOfAtMostOnce(ops, n, c);
    LossStep(Run(ops), op, n, c);
    hide Run, Apply, TakenAway, Holds;
  }

  // ---------------------------------------------------------------- link identifiers

  /** The operation has the unit make a link it did not carry. */
  predicate Makes(f: Units, op: Op, n: Id)
  {
    op.Link? && op.name == n && Apply(f, op).1 == Ok && !Has(f, n, ReferenceName(op.reference), op.c)
  }

  predicate MakesAt(ops: seq<Op>, i: nat, n: Id)
    requires i < |ops|
  {
    Makes(Run(ops[..i]), ops[i], n)
  }

  function Made(f: Units, n: Id): nat
  {
    if n in f then f[n].made else 0
  }

  function NewLink(f: Units, op: Op): Bytes
    requires op.Link?
  {
    LinkId(op.name, ReferenceName(op.reference), Made(f, op.name) + 1)
  }

  /** What a unit answered when it made the link at `i`. */
  function NewLinkAt(ops: seq<Op>, i: nat): Bytes
    requires i < |ops| && ops[i].Link?
  {
    NewLink(Run(ops[..i]), ops[i])
  }

  lemma MadeStepHere(u: Unit, op: Op, names: set<Id>)
    requires !op.Close? && !op.Add?
    ensures var (v, reply) := Locally(u, op, names);
            if op.Link? && reply == Ok
               && !(op.c in u.conferences && ReferenceName(op.reference) in u.conferences[op.c].links) then
              && v.made == u.made + 1
              && op.c in v.conferences && ReferenceName(op.reference) in v.conferences[op.c].links
              && v.conferences[op.c].links[ReferenceName(op.reference)]
                 == LinkId(op.name, ReferenceName(op.reference), u.made + 1)
            else v.made == u.made
  {
    hide SourcesRefused, ReferenceName, EntriesFit, Accepted, LinkId, WithSources;
  }

  lemma MadeStep(f: Units, op: Op, n: Id)
    ensures Made(Apply(f, op).0, n) == Made(f, n) + if Makes(f, op, n) then 1 else 0
  {
    if !op.Close? && !op.Add? && op.name == n && n in f {
      MadeStepHere(f[n], op, f.Keys);
      assert Apply(f, op) == (f[n := Locally(f[n], op, f.Keys).0], Locally(f[n], op, f.Keys).1);
    }
    hide Locally, ReferenceName;
  }

  /** What it answers is the identifier it then holds the link under. */
  lemma TheNewLinkIsHeld(f: Units, op: Op, n: Id)
    requires Makes(f, op, n)
    ensures var g, peer := Apply(f, op).0, ReferenceName(op.reference);
            Has(g, n, peer, op.c) && g[n].conferences[op.c].links[peer] == NewLink(f, op)
  {
    MadeStepHere(f[n], op, f.Keys);
    assert Apply(f, op) == (f[n := Locally(f[n], op, f.Keys).0], Locally(f[n], op, f.Keys).1);
    hide Locally, ReferenceName, LinkId;
  }

  lemma {:induction false} MadeGrows(ops: seq<Op>, more: seq<Op>, n: Id)
    ensures Made(Run(ops), n) <= Made(Run(ops + more), n)
  {
    if more == [] {
      assert ops + more == ops;
    } else {
      var past := more[..|more| - 1];
      MadeGrows(ops, past, n);
      assert (ops + more)[..|ops + more| - 1] == ops + past;
      RunUnfolds(ops + more);
      MadeStep(Run(ops + past), more[|more| - 1], n);
      hide Run, Apply, Makes, Made;
    }
  }

  lemma NoDashAfter(l: Bytes, a: Bytes)
    requires 45 !in a
    ensures var x := l + DASH + a; x[|l|] == 45 && forall k | |l| < k < |x| :: x[k] != 45
    ensures var x := l + DASH + a; x[..|l|] == l && x[|l| + 1..] == a
  {
    forall k | |l| < k < |l| + 1 + |a| ensures (l + DASH + a)[k] != 45 {
      assert (l + DASH + a)[k] == a[k - |l| - 1];
    }
  }

  lemma LastDash(l: Bytes, a: Bytes, m: Bytes, b: Bytes)
    requires l + DASH + a == m + DASH + b && 45 !in a && 45 !in b
    ensures l == m && a == b
  {
    NoDashAfter(l, a);
    NoDashAfter(m, b);
  }

  /** On one unit an identifier tells which link of the unit's it is: the name of the unit being fixed, the text
      after the last dash is the number. */
  lemma LinkIdsDiffer(n: Id, p: Id, q: Id, i: nat, j: nat)
    requires LinkId(n, p, i) == LinkId(n, q, j)
    ensures i == j && p == q
  {
    LastDash(n + DASH + p, Decimal.Digits(i), n + DASH + q, Decimal.Digits(j));
    Decimal.ValueDigits(i);
    Decimal.ValueDigits(j);
    hide Decimal.Digits;
    assert (n + DASH + p)[|n| + 1..] == p && (n + DASH + q)[|n| + 1..] == q;
  }

  lemma LaterLinksCountHigher(ops: seq<Op>, i: nat, j: nat, n: Id)
    requires i < j < |ops| && MakesAt(ops, i, n)
    ensures Made(Run(ops[..i]), n) < Made(Run(ops[..j]), n)
  {
    var before, after := ops[..i], ops[..i + 1];
    assert after[..i] == before && after[i] == ops[i] && after + ops[i + 1..j] == ops[..j];
    RunUnfolds(after);
    MadeStep(Run(before), ops[i], n);
    MadeGrows(after, ops[i + 1..j], n);
    hide Run, Apply, Made, Makes;
  }

  /** No two links a unit ever makes carry the same identifier. */
  lemma LinkIdsNeverRepeat(ops: seq<Op>, i: nat, j: nat, n: Id)
    requires i < j < |ops| && MakesAt(ops, i, n) && MakesAt(ops, j, n)
    ensures NewLinkAt(ops, i) != NewLinkAt(ops, j)
  {
    hide *;
    LaterLinksCountHigher(ops, i, j, n);
    NewLinkIs(ops, i, n);
    NewLinkIs(ops, j, n);
    if NewLinkAt(ops, i) == NewLinkAt(ops, j) {
      LinkIdsDiffer(n, ReferenceName(ops[i].reference), ReferenceName(ops[j].reference),
                    Made(Run(ops[..i]), n) + 1, Made(Run(ops[..j]), n) + 1);
    }
  }

  lemma NewLinkIs(ops: seq<Op>, i: nat, n: Id)
    requires i < |ops| && MakesAt(ops, i, n)
    ensures ops[i].Link? && NewLinkAt(ops, i) == LinkId(n, ReferenceName(ops[i].reference), Made(Run(ops[..i]), n) + 1)
  {
    hide Run, Apply, LinkId, Made, ReferenceName;
  }

  /** Two units give out the same text for a link exactly when the numbers agree and so does what comes before
      them: the name of the unit, a dash and the name of the unit at the other end. */
  lemma LinkIdsMeetExactlyWhen(n: Id, p: Id, i: nat, m: Id, q: Id, j: nat)
    ensures LinkId(n, p, i) == LinkId(m, q, j) <==> i == j && n + DASH + p == m + DASH + q
  {
    if LinkId(n, p, i) == LinkId(m, q, j) {
      LastDash(n + DASH + p, Decimal.Digits(i), m + DASH + q, Decimal.Digits(j));
      Decimal.ValueDigits(i);
      Decimal.ValueDigits(j);
    }
    hide Decimal.Digits;
  }

  /** The link a unit holds is one of its own numbering. */
  predicate Numbered(f: Units, n: Id, p: Id, c: Id, k: nat)
  {
    Has(f, n, p, c) && f[n].conferences[c].links[p] == LinkId(n, p, k)
  }

  lemma LinkStaysHere(u: Unit, op: Op, names: set<Id>, p: Id, c: Id)
    requires !op.Close? && !op.Add?
    ensures var v := Locally(u, op, names).0;
            c in v.conferences && p in v.conferences[c].links ==>
              || (c in u.conferences && p in u.conferences[c].links
                  && v.conferences[c].links[p] == u.conferences[c].links[p])
              || (op.Link? && v.conferences[c].links[p] == LinkId(op.name, p, u.made + 1))
  {
    hide SourcesRefused, ReferenceName, EntriesFit, Accepted, LinkId, WithSources;
  }

  lemma LinkStays(f: Units, op: Op, n: Id, p: Id, c: Id)
    requires Has(Apply(f, op).0, n, p, c)
    ensures var g := Apply(f, op).0;
            || (Has(f, n, p, c) && g[n].conferences[c].links[p] == f[n].conferences[c].links[p])
            || Numbered(g, n, p, c, Made(f, n) + 1)
  {
    if !op.Close? && !op.Add? && op.name == n && n in f {
      LinkStaysHere(f[n], op, f.Keys, p, c);
      assert Apply(f, op) == (f[n := Locally(f[n], op, f.Keys).0], Locally(f[n], op, f.Keys).1);
    }
    hide Locally, ReferenceName, LinkId;
  }

  lemma NoLinksAtFirst(n: Id, p: Id, c: Id)
    ensures !Has(Run([]), n, p, c)
  {
  }

  lemma NumberedStays(past: seq<Op>, op: Op, n: Id, p: Id, c: Id, k: nat)
    requires Numbered(Run(past), n, p, c, k) && Has(Run(past + [op]), n, p, c)
    ensures Numbered(Run(past + [op]), n, p, c, k) || Numbered(Run(past + [op]), n, p, c, Made(Run(past), n) + 1)
  {
    RunOneMore(past, op);
    LinkStays(Run(past), op, n, p, c);
    hide Run, Apply, LinkId, Made;
  }

  lemma {:induction false} LinksAreNumbered(ops: seq<Op>, n: Id, p: Id, c: Id) returns (k: nat)
    requires Has(Run(ops), n, p, c)
    ensures Numbered(Run(ops), n, p, c, k)
  {
    hide *;
    NoLinksAtFirst(n, p, c);
    var past, op := ops[..|ops| - 1], ops[|ops| - 1];
    assert ops == past + [op];
    RunOneMore(past, op);
    LinkStays(Run(past), op, n, p, c);
    if Numbered(Run(ops), n, p, c, Made(Run(past), n) + 1) {
      k := Made(Run(past), n) + 1;
    } else {
      k := LinksAreNumbered(past, n, p, c);
      NumberedStays(past, op, n, p, c, k);
    }
  }

  /** After the run each of the two units holds a link, and they carry the same identifier. */
  ghost predicate Meet(ops: seq<Op>, n: Id, p: Id, c: Id, m: Id, q: Id, d: Id)
  {
    && Has(Run(ops), n, p, c) && Has(Run(ops), m, q, d)
    && Run(ops)[n].conferences[c].links[p] == Run(ops)[m].conferences[d].links[q]
  }

  lemma MeetingNamesAgree(ops: seq<Op>, n: Id, p: Id, c: Id, m: Id, q: Id, d: Id)
    requires Meet(ops, n, p, c, m, q, d)
    ensures n + DASH + p == m + DASH + q
  {
    var i := LinksAreNumbered(ops, n, p, c);
    var j := LinksAreNumbered(ops, m, q, d);
    LinkIdsMeetExactlyWhen(n, p, i, m, q, j);
    hide Run, LinkId;
  }

  lemma RunOneMore(ops: seq<Op>, op: Op)
    ensures Run(ops + [op]) == Apply(Run(ops), op).0
  {
    assert (ops + [op])[..|ops|] == ops;
    hide Apply;
  }

  const FRESH := Unit(DEFAULTS, true, {}, map[], 0)

  /** A run after which there is the unit, and every unit is as it was added. */
  lemma AddOne(ops: seq<Op>, n: Id) returns (more: seq<Op>)
    requires n != [] && forall x :: x in Run(ops) ==> Run(ops)[x] == FRESH
    ensures Run(more).Keys == Run(ops).Keys + {n} && forall x :: x in Run(more) ==> Run(more)[x] == FRESH
  {
    more := ops + [Add(n)];
    RunOneMore(ops, Add(n));
    hide Run;
  }

  lemma FourUnits(n: Id, p: Id, m: Id, q: Id) returns (ops: seq<Op>)
    requires [] !in {n, p, m, q}
    ensures Run(ops).Keys == {n, p, m, q} && forall x :: x in Run(ops) ==> Run(ops)[x] == FRESH
  {
    assert Run([]) == map[];
    ops := AddOne([], n);
    ops := AddOne(ops, p);
    ops := AddOne(ops, m);
    ops := AddOne(ops, q);
    hide Run;
  }

  const LINKED := Profile(Ascii("opus"), 1)

  /** A unit without conferences opens one and links it, and no other unit is touched. */
  lemma OpenAndLink(ops: seq<Op>, n: Id, p: Id, c: Id) returns (more: seq<Op>)
    requires n in Run(ops) && Run(ops)[n] == FRESH && p in Run(ops) && p != [] && p != n
    ensures Run(more).Keys == Run(ops).Keys && forall x | x in Run(ops) && x != n :: Run(more)[x] == Run(ops)[x]
    ensures Has(Run(more), n, p, c) && Run(more)[n].conferences[c].links[p] == LinkId(n, p, 1)
  {
    var open, link := Open(n, c, LINKED), Link(n, c, Reference(p));
    more := ops + [open] + [link];
    assert LINKED.codecs != [] by {
      assert |Ascii("opus")| == 4;
    }
    RunOneMore(ops, open);
    RunOneMore(ops + [open], link);
    hide Run, Apply, Reference, LinkId;
    OpenStep(Run(ops), n, c, LINKED);
    NewLinkStep(Run(ops + [open]), n, c, p);
  }

  lemma AgreeingNamesMeet(n: Id, p: Id, m: Id, q: Id, c: Id) returns (ops: seq<Op>)
    requires [] !in {n, p, m, q} && n != p && m != q && n != m && n + DASH + p == m + DASH + q
    ensures Meet(ops, n, p, c, m, q, c)
  {
    ops := FourUnits(n, p, m, q);
    ops := OpenAndLink(ops, n, p, c);
    ops := OpenAndLink(ops, m, q, c);
    LinkIdsMeetExactlyWhen(n, p, 1, m, q, 1);
    hide Run, LinkId;
  }

  /** Links of two units can carry the same identifier, in some run, exactly when the name of the one, a dash and
      the name it is linked to read as the same text as those of the other. */
  lemma LinksOfTwoUnitsCanMeetExactlyWhen(n: Id, p: Id, m: Id, q: Id)
    requires [] !in {n, p, m, q} && n != p && m != q && n != m
    ensures (exists ops, c, d :: Meet(ops, n, p, c, m, q, d)) <==> n + DASH + p == m + DASH + q
  {
    if ops, c, d :| Meet(ops, n, p, c, m, q, d) {
      MeetingNamesAgree(ops, n, p, c, m, q, d);
    }
    if n + DASH + p == m + DASH + q {
      var ops := AgreeingNamesMeet(n, p, m, q, []);
    }
    hide Meet;
  }

  /** So where the names a unit is linked to hold no dash, they never do. */
  lemma WithoutDashesTheyNeverMeet(ops: seq<Op>, n: Id, p: Id, c: Id, m: Id, q: Id, d: Id)
    requires 45 !in p && 45 !in q && Meet(ops, n, p, c, m, q, d)
    ensures n == m && p == q
  {
    MeetingNamesAgree(ops, n, p, c, m, q, d);
    LastDash(n, p, m, q);
    hide Meet;
  }

  /** And with them they do: unit `a` linked to `b-c`, and unit `a-b` linked to `c`. */
  lemma LinkIdsOfTwoUnitsCanMeet() returns (ops: seq<Op>)
    ensures Meet(ops, [97], [98, 45, 99], [], [97, 45, 98], [99], [])
  {
    var n, p, m, q: Id := [97], [98, 45, 99], [97, 45, 98], [99];
    assert n + DASH + p == [97, 45, 98, 45, 99] == m + DASH + q;
    ops := AgreeingNamesMeet(n, p, m, q, []);
    hide Meet;
  }

  /** What is given to a participant to connect by begins with the unit's reference, and tells apart every two
      participants, conferences or units whose units and conferences have no slash in their names. */
  lemma TransportsTellApart(n: Id, c: Id, p: Id, m: Id, d: Id, q: Id)
    requires 47 !in n && 47 !in c && 47 !in m && 47 !in d
    ensures Reference(n) <= Transport(n, c, p)
    ensures Transport(n, c, p) == Transport(m, d, q) <==> n == m && c == d && p == q
  {
    if Transport(n, c, p) == Transport(m, d, q) {
      var x, y := n + SLASH + (c + SLASH + p), m + SLASH + (d + SLASH + q);
      assert Transport(n, c, p) == PREFIX + x && Transport(m, d, q) == PREFIX + y;
      assert (PREFIX + x)[|PREFIX|..] == x && (PREFIX + y)[|PREFIX|..] == y;
      FirstSlash(n, c + SLASH + p, m, d + SLASH + q);
      FirstSlash(c, p, d, q);
    }
  }

  lemma FirstSlash(a: Bytes, x: Bytes, b: Bytes, y: Bytes)
    requires 47 !in a && 47 !in b && a + SLASH + x == b + SLASH + y
    ensures a == b && x == y
  {
    var s, t := a + SLASH + x, b + SLASH + y;
    assert s[|a|] == 47 && t[|b|] == 47;
    assert forall i | 0 <= i < |a| :: s[i] == a[i] != 47;
    assert forall i | 0 <= i < |b| :: t[i] == b[i] != 47;
    assert s[..|a|] == a && t[..|b|] == b && s[|a| + 1..] == x && t[|b| + 1..] == y;
  }
}
