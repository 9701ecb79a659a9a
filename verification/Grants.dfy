/** What the grant handed to a client says, and what it says it of. */
module Grants {
  import opened Ids
  import opened Admission
  import opened AdmissionRuns
  import opened Authority
  import Placement
  import MediaFake
  import Roomcred

  /** The grant is of what the request asked, to whom the credential speaks of: the room asked for, the participant the
      first name, the unit the placer's, one source for each offer, and identity and role the credential's own. */
  ghost predicate Bears(s: Seams, op: Op, g: Grant)
  {
    && op.Begin? && op.m.Decoded?
    && g.conference == op.room.id == op.m.request.conference && g.publishing == op.m.request.publishing
    && NameAt(op.names, 0) == Name(g.participant) && g.participant != []
    && Placement.ParticipantPlace(op.room.pool, op.room.placement) == Placement.Place(g.unit)
    && OnePerOffer(op.m.request.offers, g.sources, g.participant) && NamedBy(op.names, g.sources)
    && g.transport == MediaFake.Transport(g.unit, g.conference, g.participant)
    && g.deadline == g.grantedAt + s.window
    && exists claims ::
         && Credited(s, op.m.request.credential, g.conference, op.now, claims)
         && g.identity == claims.subject && g.role == claims.role
         && (g.publishing ==> s.mayPublish(claims.role))
  }

  /** The record the desk keeps says the same of it. */
  predicate RecordOf(g: Grant, a: Abandoned)
  {
    && a.conference == g.conference && a.participant == g.participant && a.unit == g.unit
    && a.grantedAt == g.grantedAt && a.deadline == g.deadline
  }

  lemma GrantBears(s: Seams, op: Op, l: Letting, later: int)
    requires Authorised(s, op, l)
    ensures Bears(s, op, GrantOf(s, l, later)) && GrantOf(s, l, later).grantedAt == later
    ensures RecordOf(GrantOf(s, l, later), Record(GrantOf(s, l, later)))
  {
    hide Credited, OnePerOffer, NamedBy, MediaFake.Transport, Placement.ParticipantPlace;
  }

  lemma GrantedIsLetIn(
    s: Seams, st: State, room: Room, m: Message, names: seq<Name>, now: int, later: int, g: Grant)
    requires AdmitOf(st, s, room, m, names, now, later).1 == Granted(g)
    ensures var asked := AskOf(st.units, s, room, m, names, now).1;
            && asked.LetIn? && g == GrantOf(s, asked.letting, later)
            && var outstanding := AdmitOf(st, s, room, m, names, now, later).0.outstanding;
               g.participant in outstanding && outstanding[g.participant] == Record(g)
  {
    hide Decide, AskUnit, GrantOf, LettingOf, Record;
  }

  /** Of every grant an admission answers with. */
  lemma GrantsSayWhatWasAsked(
    s: Seams, st: State, room: Room, m: Message, names: seq<Name>, now: int, later: int, g: Grant)
    requires Roomcred.IsDigest(s.sign) && AdmitOf(st, s, room, m, names, now, later).1 == Granted(g)
    ensures Bears(s, Begin(room, m, names, now), g) && g.grantedAt == later
    ensures var outstanding := AdmitOf(st, s, room, m, names, now, later).0.outstanding;
            g.participant in outstanding && RecordOf(g, outstanding[g.participant])
  {
    var begun, op := System(st.units, st.outstanding, []), Begin(room, m, names, now);
    var asked := AskOf(st.units, s, room, m, names, now).1;
    GrantedIsLetIn(s, st, room, m, names, now, later, g);
    hide AskOf, AdmitOf, GrantOf, Bears, Authorised;
    assert Apply(s, begun, op).1 == Heard(LetIn(asked.letting));
    GrantsRestOn(s, begun, op, asked.letting);
    GrantBears(s, op, asked.letting, later);
  }

  /** And of every grant made in a run, with any number of admissions under way: it was asked for before it was made,
      and the record then is of it. */
  lemma GrantsInARun(s: Seams, ops: seq<Op>, j: nat, g: Grant) returns (i: nat)
    requires Roomcred.IsDigest(s.sign) && j < |ops| && EventAt(s, ops, j) == Settled(g)
    ensures i < j && Bears(s, ops[i], g) && ops[j].Settle? && g.grantedAt == ops[j].later
    ensures var outstanding := Run(s, ops[..j + 1]).outstanding;
            g.participant in outstanding && RecordOf(g, outstanding[g.participant])
  {
    var past, op := ops[..j], ops[j];
    var st := Run(s, past);
    SettledOf(s, st, op, g);
    var l := st.waiting[op.k];
    assert ops[..j + 1][..j] == past;
    RunUnfolds(s, ops[..j + 1]);
    hide Run, Apply, GrantOf, Bears, Authorised;
    i := WaitingWasLetIn(s, past, l);
    assert past[..i] == ops[..i] && past[i] == ops[i];
    GrantsRestOn(s, Run(s, past[..i]), past[i], l);
    GrantBears(s, past[i], l, op.later);
  }

  lemma SettledOf(s: Seams, st: System, op: Op, g: Grant)
    requires Apply(s, st, op).1 == Settled(g)
    ensures op.Settle? && op.k < |st.waiting| && g == GrantOf(s, st.waiting[op.k], op.later)
    ensures var n := Apply(s, st, op).0; g.participant in n.outstanding && n.outstanding[g.participant] == Record(g)
  {
    hide AskOf, GrantOf, Record;
  }
}
