/** The forwarding units as a bookkeeper answers for them: `internal/mediafake/mediafake.go`. All the units of a
    fabric are behind one lock, so every operation is one step. */
module MediaFake {
  import opened Ids
  import opened Sorting
  import Domain
  import Decimal

  type Source = Domain.Source
  type Subscription = Domain.Subscription

  datatype Error = Empty | Unknown | Conflict | Refused | Invalid | Lost | Unavailable

  datatype Reply = Ok | No(why: Error)

  datatype Profile = Profile(codecs: Bytes, layers: int)

  datatype Refusable = OpeningAConference | AdmittingAPublisher | AdmittingASubscriber | CarryingALink

  datatype Servable = Everything | Only(codecs: set<Bytes>)

  /** The settings that survive a restart. */
  datatype Knobs = Knobs(acceptAtMost: int, servable: Servable, refusing: set<Refusable>)

  /** One conference on one unit. `links` holds, by the name of the unit at the other end, the link to it. */
  datatype Held = Held(
    profile: Profile, publishers: set<Id>, subscribers: set<Id>, sources: map<Id, Source>,
    receptions: map<Id, seq<Subscription>>, links: map<Id, Bytes>)

  datatype Unit = Unit(knobs: Knobs, alive: bool, lost: set<Id>, conferences: map<Id, Held>, made: nat)

  /** The units by name. */
  type Units = map<Id, Unit>

  const DEFAULTS := Knobs(-1, Everything, {})
  const PREFIX := Ascii("mediafake:")
  const DASH: Bytes := [45]
  const SLASH: Bytes := [47]

  // ---------------------------------------------------------------- the shared questions

  /** The first question of every operation: does the unit answer, did a restart take the conference away, and is
      there such a conference at all. */
  function ConferenceFor(u: Unit, c: Id): Reply
  {
    if !u.alive then No(Unavailable)
    else if c in u.lost then No(Lost)
    else if c !in u.conferences then No(Unknown)
    else Ok
  }

  /** The unit after it has told of a loss once. */
  function Told(u: Unit, c: Id): Unit
  {
    if u.alive then u.(lost := u.lost - {c}) else u
  }

  function Keep(u: Unit, c: Id, h: Held): Unit
  {
    u.(conferences := u.conferences[c := h])
  }

  predicate OutsideProfile(p: Profile, s: Source)
  {
    match s.kind
    case Audio => s.layers != 1
    case Video => s.layers < 1 || s.layers > p.layers
  }

  function Transport(name: Id, c: Id, p: Id): Bytes
  {
    PREFIX + name + SLASH + c + SLASH + p
  }

  function Reference(name: Id): Bytes
  {
    PREFIX + name
  }

  /** The name inside a reference, or the empty one where there is none. */
  function ReferenceName(r: Bytes): Id
  {
    if |r| <= |PREFIX| || r[..|PREFIX|] != PREFIX then [] else r[|PREFIX|..]
  }

  function LinkId(name: Id, peer: Id, n: nat): Bytes
  {
    name + DASH + peer + DASH + Decimal.Digits(n)
  }

  // ---------------------------------------------------------------- the operations on one unit

  function OpenIn(u: Unit, c: Id, p: Profile): (Unit, Reply)
  {
    if !u.alive then (u, No(Unavailable))
    else if c in u.lost then (Told(u, c), No(Lost))
    else if p.codecs == [] then (u, No(Invalid))
    else if u.knobs.servable.Only? && p.codecs !in u.knobs.servable.codecs then (u, No(Invalid))
    else if c in u.conferences then (u, if u.conferences[c].profile != p then No(Conflict) else Ok)
    else if OpeningAConference in u.knobs.refusing then (u, No(Refused))
    else (Keep(u, c, Held(p, {}, {}, map[], map[], map[])), Ok)
  }

  /** The first source an admission cannot take, and why. */
  function SourcesRefused(h: Held, p: Id, sources: seq<Source>): (r: Reply)
    ensures r == Ok || r == No(Invalid) || r == No(Conflict)
  {
    if sources == [] then Ok
    else
      var s := sources[0];
      if s.publisher != p then No(Invalid)
      else if OutsideProfile(h.profile, s) then No(Invalid)
      else if s.id in h.sources then No(Conflict)
      else SourcesRefused(h, p, sources[1..])
  }

  /** Sources go in one after the other, so of two under one identifier the later stays. */
  function WithSources(held: map<Id, Source>, sources: seq<Source>): map<Id, Source>
  {
    if sources == [] then held
    else WithSources(held, sources[..|sources| - 1])[sources[|sources| - 1].id := sources[|sources| - 1]]
  }

  function PublisherReply(u: Unit, c: Id, p: Id, sources: seq<Source>): Reply
  {
    if ConferenceFor(u, c) != Ok then ConferenceFor(u, c)
    else if p == [] then No(Invalid)
    else if p in u.conferences[c].publishers then No(Conflict)
    else if SourcesRefused(u.conferences[c], p, sources) != Ok then SourcesRefused(u.conferences[c], p, sources)
    else if AdmittingAPublisher in u.knobs.refusing then No(Refused)
    else Ok
  }

  function AdmitPublisherIn(u: Unit, c: Id, p: Id, sources: seq<Source>): (Unit, Reply)
  {
    var reply := PublisherReply(u, c, p, sources);
    if reply == No(Lost) then (Told(u, c), reply)
    else if reply != Ok || c !in u.conferences then (u, reply)
    else
      var h := u.conferences[c];
      (Keep(u, c, h.(publishers := h.publishers + {p}, sources := WithSources(h.sources, sources))), Ok)
  }

  function SubscriberReply(u: Unit, c: Id, p: Id): Reply
  {
    if ConferenceFor(u, c) != Ok then ConferenceFor(u, c)
    else if p == [] then No(Invalid)
    else if p in u.conferences[c].subscribers then No(Conflict)
    else if AdmittingASubscriber in u.knobs.refusing then No(Refused)
    else Ok
  }

  function AdmitSubscriberIn(u: Unit, c: Id, p: Id): (Unit, Reply)
  {
    var reply := SubscriberReply(u, c, p);
    if reply == No(Lost) then (Told(u, c), reply)
    else if reply != Ok || c !in u.conferences then (u, reply)
    else
      var h := u.conferences[c];
      (Keep(u, c, h.(subscribers := h.subscribers + {p})), Ok)
  }

  /** A source the entry can be of, by identifier: which one, where two units offer sources under one identifier,
      is not determined. */
  type Look = map<Id, Source>

  predicate Fits(p: Id, e: Subscription, look: Look)
  {
    e.subscriber == p && e.source in look && 0 <= e.layer < look[e.source].layers
  }

  predicate EntriesFit(p: Id, entries: seq<Subscription>, look: Look)
  {
    && (forall i, j :: 0 <= i < j < |entries| ==> entries[i].source != entries[j].source)
    && forall i :: 0 <= i < |entries| ==> Fits(p, entries[i], look)
  }

  function Capped(entries: seq<Subscription>, atMost: int): (r: seq<Subscription>)
    ensures r <= entries && (|r| == |entries| || |r| == atMost < |entries|)
  {
    if 0 <= atMost < |entries| then entries[..atMost] else entries
  }

  function ReceptionReply(u: Unit, c: Id, p: Id, entries: seq<Subscription>, look: Look): Reply
  {
    if ConferenceFor(u, c) != Ok then ConferenceFor(u, c)
    else if p !in u.conferences[c].subscribers then No(Unknown)
    else if !EntriesFit(p, entries, look) then No(Invalid)
    else Ok
  }

  function Accepted(u: Unit, entries: seq<Subscription>): seq<Subscription>
  {
    Capped(Sort(entries, Domain.SourceBefore), u.knobs.acceptAtMost)
  }

  function SetReceptionIn(u: Unit, c: Id, p: Id, entries: seq<Subscription>, look: Look): (Unit, Reply)
  {
    var reply := ReceptionReply(u, c, p, entries, look);
    if reply == No(Lost) then (Told(u, c), reply)
    else if reply != Ok || c !in u.conferences then (u, reply)
    else
      var h := u.conferences[c];
      (Keep(u, c, h.(receptions := h.receptions[p := Accepted(u, entries)])), Ok)
  }

  function LinkReply(u: Unit, name: Id, names: set<Id>, c: Id, peer: Id): Reply
  {
    if ConferenceFor(u, c) != Ok then ConferenceFor(u, c)
    else if peer == [] || peer == name || peer !in names then No(Invalid)
    else if peer in u.conferences[c].links then Ok
    else if CarryingALink in u.knobs.refusing then No(Refused)
    else Ok
  }

  function LinkIn(u: Unit, name: Id, names: set<Id>, c: Id, peer: Id): (Unit, Reply)
  {
    var reply := LinkReply(u, name, names, c, peer);
    if reply == No(Lost) then (Told(u, c), reply)
    else if reply != Ok || c !in u.conferences || peer in u.conferences[c].links then (u, reply)
    else
      var h := u.conferences[c];
      (Keep(u, c, h.(links := h.links[peer := LinkId(name, peer, u.made + 1)])).(made := u.made + 1), Ok)
  }

  /** A unit back with nothing, and the conferences it had still to be told of as lost. */
  function Restarted(u: Unit): Unit
  {
    u.(alive := true, lost := u.lost + u.conferences.Keys, conferences := map[])
  }

  function Unlinked(u: Unit, c: Id, peer: Id): Unit
  {
    if c in u.conferences then Keep(u, c, u.conferences[c].(links := u.conferences[c].links - {peer})) else u
  }

  function Closed(u: Unit, c: Id): Unit
  {
    u.(lost := u.lost - {c}, conferences := u.conferences - {c})
  }

  /** Closing takes the conference from the unit, and every other unit's link to it. */
  function CloseOf(f: Units, name: Id, c: Id): (Units, Reply)
    requires name in f
  {
    if !f[name].alive then (f, No(Unavailable))
    else (map n | n in f :: if n == name then Closed(f[n], c) else Unlinked(f[n], c, name), Ok)
  }

  // ---------------------------------------------------------------- what is visible from where

  /** The two units have each linked the conference to the other, and both hold it. */
  predicate Spans(f: Units, a: Id, b: Id, c: Id)
  {
    && a in f && b in f && c in f[a].conferences && c in f[b].conferences
    && b in f[a].conferences[c].links && a in f[b].conferences[c].links
  }

  /** A source a subscriber on the unit may be given. */
  ghost predicate Reaches(f: Units, name: Id, c: Id, s: Source)
  {
    && name in f && c in f[name].conferences
    && (s in f[name].conferences[c].sources.Values
        || exists peer :: Spans(f, name, peer, c) && s in f[peer].conferences[c].sources.Values)
  }

  /** One source for every identifier that reaches the unit. */
  ghost predicate IsLook(f: Units, name: Id, c: Id, look: Look)
  {
    && (forall id :: id in look ==> look[id].id == id && Reaches(f, name, c, look[id]))
    && (forall s :: Reaches(f, name, c, s) ==> s.id in look)
  }

  predicate IdBefore(a: Source, b: Source)
  {
    Less(a.id, b.id)
  }

  // ---------------------------------------------------------------- the fabric as the source keeps it

  class Fabric {
    var units: Units

    constructor ()
      ensures units == map[]
    {
      units := map[];
    }

    method Add(name: Id) returns (reply: Reply)
      modifies this
      ensures (units, reply) == AddOf(old(units), name)
    {
      if name == [] {
        return No(Empty);
      }
      if name in units {
        return No(Conflict);
      }
      units := units[name := Unit(DEFAULTS, true, {}, map[], 0)];
      return Ok;
    }

    method Restart(name: Id)
      requires name in units
      modifies this
      ensures units == old(units)[name := Restarted(old(units)[name])]
    {
      var u := units[name];
      var left, lost := u.conferences.Keys, u.lost;
      while left != {}
        invariant left <= u.conferences.Keys && lost == u.lost + (u.conferences.Keys - left)
        decreases |left|
      {
        var id :| id in left;
        left, lost := left - {id}, lost + {id};
      }
      assert lost == u.lost + u.conferences.Keys;
      units := units[name := u.(alive := true, lost := lost, conferences := map[])];
    }

    method OpenConference(name: Id, c: Id, p: Profile) returns (reply: Reply)
      requires name in units
      modifies this
      ensures var (u, r) := OpenIn(old(units)[name], c, p); units == old(units)[name := u] && reply == r
    {
      var u := units[name];
      if !u.alive {
        return No(Unavailable);
      }
      if c in u.lost {
        units := units[name := u.(lost := u.lost - {c})];
        return No(Lost);
      }
      if p.codecs == [] {
        return No(Invalid);
      }
      if u.knobs.servable.Only? && p.codecs !in u.knobs.servable.codecs {
        return No(Invalid);
      }
      if c in u.conferences {
        return if u.conferences[c].profile != p then No(Conflict) else Ok;
      }
      if OpeningAConference in u.knobs.refusing {
        return No(Refused);
      }
      units := units[name := u.(conferences := u.conferences[c := Held(p, {}, {}, map[], map[], map[])])];
      return Ok;
    }

    method CloseConference(name: Id, c: Id) returns (reply: Reply)
      requires name in units
      modifies this
      ensures (units, reply) == CloseOf(old(units), name, c)
    {
      ghost var was := units;
      var u := units[name];
      if !u.alive {
        return No(Unavailable);
      }
      units := units[name := u.(lost := u.lost - {c}, conferences := u.conferences - {c})];
      var left := units.Keys - {name};
      while left != {}
        invariant units.Keys == was.Keys && left <= units.Keys - {name}
        invariant forall n | n in was ::
                    units[n] == if n == name then Closed(was[n], c)
                                else if n in left then was[n] else Unlinked(was[n], c, name)
        decreases |left|
      {
        var other :| other in left;
        left := left - {other};
        var o := units[other];
        if c in o.conferences {
          var far := o.conferences[c];
          units := units[other := o.(conferences := o.conferences[c := far.(links := far.links - {name})])];
        }
      }
      assert units == CloseOf(was, name, c).0;
      return Ok;
    }

    method AdmitPublisher(name: Id, c: Id, p: Id, sources: seq<Source>) returns (reply: Reply, transport: Bytes)
      requires name in units
      modifies this
      ensures var (u, r) := AdmitPublisherIn(old(units)[name], c, p, sources);
              units == old(units)[name := u] && reply == r
      ensures reply == Ok ==> transport == Transport(name, c, p)
    {
      transport := [];
      reply := Ask(name, c);
      if reply != Ok {
        return;
      }
      var u := units[name];
      var h := u.conferences[c];
      if p == [] {
        return No(Invalid), [];
      }
      if p in h.publishers {
        return No(Conflict), [];
      }
      for i := 0 to |sources|
        invariant SourcesRefused(h, p, sources[i..]) == SourcesRefused(h, p, sources)
      {
        assert sources[i..][0] == sources[i] && sources[i..][1..] == sources[i + 1..];
        if sources[i].publisher != p || OutsideProfile(h.profile, sources[i]) {
          return No(Invalid), [];
        }
        if sources[i].id in h.sources {
          return No(Conflict), [];
        }
      }
      if AdmittingAPublisher in u.knobs.refusing {
        return No(Refused), [];
      }
      var held := h.sources;
      for i := 0 to |sources|
        invariant held == WithSources(h.sources, sources[..i])
      {
        assert sources[..i + 1][..i] == sources[..i];
        held := held[sources[i].id := sources[i]];
      }
      assert sources[..|sources|] == sources;
      var grown := h.(publishers := h.publishers + {p}, sources := held);
      units := units[name := u.(conferences := u.conferences[c := grown])];
      return Ok, Transport(name, c, p);
    }

    method AdmitSubscriber(name: Id, c: Id, p: Id) returns (reply: Reply, transport: Bytes)
      requires name in units
      modifies this
      ensures var (u, r) := AdmitSubscriberIn(old(units)[name], c, p); units == old(units)[name := u] && reply == r
      ensures reply == Ok ==> transport == Transport(name, c, p)
    {
      transport := [];
      reply := Ask(name, c);
      if reply != Ok {
        return;
      }
      var u := units[name];
      var h := u.conferences[c];
      if p == [] {
        return No(Invalid), [];
      }
      if p in h.subscribers {
        return No(Conflict), [];
      }
      if AdmittingASubscriber in u.knobs.refusing {
        return No(Refused), [];
      }
      units := units[name := u.(conferences := u.conferences[c := h.(subscribers := h.subscribers + {p})])];
      return Ok, Transport(name, c, p);
    }

    /** What every operation naming a conference asks first. A loss is told of once. */
    method Ask(name: Id, c: Id) returns (reply: Reply)
      requires name in units
      modifies this
      ensures reply == ConferenceFor(old(units)[name], c)
      ensures units == if reply == No(Lost) then old(units)[name := Told(old(units)[name], c)] else old(units)
    {
      var u := units[name];
      if !u.alive {
        return No(Unavailable);
      }
      if c in u.lost {
        units := units[name := u.(lost := u.lost - {c})];
        return No(Lost);
      }
      return if c in u.conferences then Ok else No(Unknown);
    }

    /** Every source a subscriber on the unit may be given, by identifier. */
    method Sources(name: Id, c: Id) returns (out: seq<Source>)
      requires name in units
      ensures forall s :: s in out <==> Reaches(units, name, c, s)
      ensures InOrder(out, IdBefore)
    {
      if c !in units[name].conferences {
        return [];
      }
      var h := units[name].conferences[c];
      out := Listed(h.sources);
      var left := h.links.Keys;
      while left != {}
        invariant left <= h.links.Keys
        invariant forall s :: s in out <==> ReachesBy(units, name, c, h.links.Keys - left, s)
        decreases |left|
      {
        var peer :| peer in left;
        ReachesByOne(units, name, c, h.links.Keys - left, peer);
        assert h.links.Keys - (left - {peer}) == (h.links.Keys - left) + {peer};
        left := left - {peer};
        if peer !in units {
          continue;
        }
        if c !in units[peer].conferences {
          continue;
        }
        var far := units[peer].conferences[c];
        if name !in far.links {
          continue;
        }
        var more := Listed(far.sources);
        out := out + more;
      }
      ByKeyIsStrictWeak((a: Source) => a.id, IdBefore);
      SortInOrder(out, IdBefore);
      SameElements(out, IdBefore);
      out := Sort(out, IdBefore);
    }

    method Listed(held: map<Id, Source>) returns (out: seq<Source>)
      ensures forall s :: s in out <==> s in held.Values
    {
      out := [];
      var left := held.Keys;
      while left != {}
        invariant left <= held.Keys
        invariant forall s :: s in out <==> exists id :: id in held.Keys - left && held[id] == s
        decreases |left|
      {
        var id :| id in left;
        left := left - {id};
        out := out + [held[id]];
        assert forall x :: x in held.Keys - left <==> x == id || x in held.Keys - (left + {id});
      }
    }

    method Lookup(name: Id, c: Id) returns (look: Look)
      requires name in units
      ensures IsLook(units, name, c, look)
    {
      var out := Sources(name, c);
      look := map[];
      for i := 0 to |out|
        invariant forall id :: id in look ==> look[id] in out && look[id].id == id
        invariant forall k :: 0 <= k < i ==> out[k].id in look
      {
        look := look[out[i].id := out[i]];
      }
      hide Reaches;
    }

    /** Of two sources that reach the unit under one identifier, either may be the one an entry is held against. */
    method SetReception(name: Id, c: Id, p: Id, entries: seq<Subscription>)
      returns (reply: Reply, accepted: seq<Subscription>, ghost look: Look)
      requires name in units
      modifies this
      ensures ConferenceFor(old(units)[name], c) == Ok ==> IsLook(old(units), name, c, look)
      ensures var (u, r) := SetReceptionIn(old(units)[name], c, p, entries, look);
              units == old(units)[name := u] && reply == r
      ensures reply == Ok ==> accepted == Accepted(old(units)[name], entries)
    {
      accepted, look := [], map[];
      reply := Ask(name, c);
      if reply != Ok {
        return;
      }
      var u := units[name];
      var h := u.conferences[c];
      var reachable := Lookup(name, c);
      look := reachable;
      hide IsLook;
      if p !in h.subscribers {
        return No(Unknown), [], look;
      }
      var named: set<Id> := {};
      for i := 0 to |entries|
        invariant named == set k | 0 <= k < i :: entries[k].source
        invariant forall j, k :: 0 <= j < k < i ==> entries[j].source != entries[k].source
        invariant forall k :: 0 <= k < i ==> Fits(p, entries[k], reachable)
      {
        var e := entries[i];
        if e.subscriber != p || e.source in named {
          return No(Invalid), [], look;
        }
        named := named + {e.source};
        if e.source !in reachable || e.layer < 0 || e.layer >= reachable[e.source].layers {
          return No(Invalid), [], look;
        }
      }
      accepted := Sort(entries, Domain.SourceBefore);
      if u.knobs.acceptAtMost >= 0 && |accepted| > u.knobs.acceptAtMost {
        accepted := accepted[..u.knobs.acceptAtMost];
      }
      units := units[name := u.(conferences := u.conferences[c := h.(receptions := h.receptions[p := accepted])])];
      return Ok, accepted, look;
    }

    method LinkConference(name: Id, c: Id, reference: Bytes) returns (reply: Reply, link: Bytes)
      requires name in units
      modifies this
      ensures var (u, r) := LinkIn(old(units)[name], name, old(units).Keys, c, ReferenceName(reference));
              && units == old(units)[name := u] && reply == r
              && (reply == Ok ==> c in u.conferences && ReferenceName(reference) in u.conferences[c].links
                                  && link == u.conferences[c].links[ReferenceName(reference)])
    {
      link := [];
      reply := Ask(name, c);
      if reply != Ok {
        return;
      }
      var u := units[name];
      var h := u.conferences[c];
      var peer := ReferenceName(reference);
      if peer == [] || peer == name {
        return No(Invalid), [];
      }
      if peer !in units {
        return No(Invalid), [];
      }
      if peer in h.links {
        return Ok, h.links[peer];
      }
      if CarryingALink in u.knobs.refusing {
        return No(Refused), [];
      }
      link := LinkId(name, peer, u.made + 1);
      units := units[name := u.(made := u.made + 1,
                                conferences := u.conferences[c := h.(links := h.links[peer := link])])];
      return Ok, link;
    }
  }

  function AddOf(f: Units, name: Id): (Units, Reply)
  {
    if name == [] then (f, No(Empty)) else if name in f then (f, No(Conflict))
    else (f[name := Unit(DEFAULTS, true, {}, map[], 0)], Ok)
  }

  /** Reached from the unit itself or over a link to one of the peers named. */
  ghost predicate ReachesBy(f: Units, name: Id, c: Id, peers: set<Id>, s: Source)
  {
    && name in f && c in f[name].conferences
    && (s in f[name].conferences[c].sources.Values
        || exists peer :: peer in peers && Spans(f, name, peer, c) && s in f[peer].conferences[c].sources.Values)
  }

  lemma ReachesByOne(f: Units, name: Id, c: Id, peers: set<Id>, peer: Id)
    ensures forall s :: ReachesBy(f, name, c, peers + {peer}, s) <==>
              ReachesBy(f, name, c, peers, s)
              || (Spans(f, name, peer, c) && s in f[peer].conferences[c].sources.Values)
  {
  }
}
