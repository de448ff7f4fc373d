/** The presence engine: member documents with a presence flag and the times of
    the last check-in and check-out, an append-only attendance log, the scan that
    records an event and moves the flag, and the read-only queries over both.

    The document database is replaced by a map of member documents keyed by
    their id and a sequence of attendance documents in insertion order. The
    ObjectId parser is a parameter: `oid(s)` is the id the string `s` denotes,
    or None when it is not a valid ObjectId. */
module Presence {
  import opened Outcomes
  import opened Tokens

  /** The action of a scan. */
  datatype Action = In | Out {
    /** The wire spelling, "IN" or "OUT". */
    function Text(): (s: string)
      ensures IsAction(s)
    {
      if In? then "IN" else "OUT"
    }
  }

  /** Reads the action of a request; None for anything but "IN" and "OUT". */
  function ParseAction(s: string): (r: Option<Action>)
    ensures r.Some? <==> IsAction(s)
    ensures r.Some? ==> r.value.Text() == s
  {
    if s == "IN" then Some(In) else if s == "OUT" then Some(Out) else None
  }

  /** A member document (name, present, last_in, last_out). */
  datatype Member = Member(name: string, present: bool, lastIn: Option<nat>, lastOut: Option<nat>)

  /** An attendance document (member_id as sent, action, timestamp). */
  datatype Event = Event(memberId: string, action: Action, timestamp: nat)

  /** The ObjectId parser: the id a string denotes, or None. */
  type IdParser = string -> Option<string>

  /** The document create_member inserts: absent, never checked in or out. */
  function NewMember(name: string): (m: Member)
    ensures m.name == name && !m.present && m.lastIn == None && m.lastOut == None
  {
    Member(name, false, None, None)
  }

  /** The `$set` of scan2 for an accepted event: IN sets present and last_in,
      OUT clears present and sets last_out; the other time is kept. */
  function Apply(m: Member, action: Action, now: nat): (r: Member)
    ensures r.name == m.name && r.present == (action == In)
    ensures action == In ==> r.lastIn == Some(now) && r.lastOut == m.lastOut
    ensures action == Out ==> r.lastOut == Some(now) && r.lastIn == m.lastIn
  {
    match action
    case In => m.(present := true, lastIn := Some(now))
    case Out => m.(present := false, lastOut := Some(now))
  }

  /** The member after the given events, applied in log order. */
  function Replay(m: Member, events: seq<Event>): (r: Member)
    ensures r.name == m.name
    ensures events == [] ==> r == m
  {
    if events == [] then m
    else
      var e := events[|events| - 1];
      Apply(Replay(m, events[..|events| - 1]), e.action, e.timestamp)
  }

  /** The timestamp of the last event with the given action, if any. */
  function LastTimeOf(events: seq<Event>, action: Action): Option<nat> {
    if events == [] then None
    else if events[|events| - 1].action == action then Some(events[|events| - 1].timestamp)
    else LastTimeOf(events[..|events| - 1], action)
  }

  /** Last writer wins: after any events, a new member is present exactly when
      the last event is IN, and last_in and last_out are the times of the last
      IN and the last OUT. */
  lemma {:induction false} ReplayFromNew(name: string, events: seq<Event>)
    ensures Replay(NewMember(name), events) ==
      Member(name, events != [] && events[|events| - 1].action == In,
             LastTimeOf(events, In), LastTimeOf(events, Out))
  {
    if events != [] {
      ReplayFromNew(name, events[..|events| - 1]);
    }
  }

  /** Repeating an action changes only its timestamp: the flag is idempotent. */
  lemma RepeatedActionKeepsFlag(m: Member, action: Action, t1: nat, t2: nat)
    ensures Apply(Apply(m, action, t1), action, t2).present == Apply(m, action, t2).present
    ensures Apply(Apply(m, action, t1), action, t2) == Apply(m, action, t2)
  {
  }

  /** The status list_members reports for a member. */
  function Status(m: Member): (s: string)
    ensures s == "Present" <==> m.present
    ensures s == "Present" || s == "Absent"
  {
    if m.present then "Present" else "Absent"
  }

  /** The events in the log that update the member with the given id. */
  function EventsFor(oid: IdParser, events: seq<Event>, id: string): seq<Event>
  {
    if events == [] then []
    else
      var e := events[|events| - 1];
      EventsFor(oid, events[..|events| - 1], id) + (if oid(e.memberId) == Some(id) then [e] else [])
  }

  lemma EventsForAppend(oid: IdParser, events: seq<Event>, from: nat, e: Event, id: string)
    requires from <= |events|
    ensures EventsFor(oid, (events + [e])[from..], id)
         == EventsFor(oid, events[from..], id) + (if oid(e.memberId) == Some(id) then [e] else [])
  {
    assert (events + [e])[from..] == events[from..] + [e];
    assert (events[from..] + [e])[..|events[from..]|] == events[from..];
  }

  /** Every member document is what its creation and the events logged for it
      since then make of it. */
  ghost predicate Consistent(oid: IdParser, members: map<string, Member>, log: seq<Event>,
                             createdAt: map<string, nat>)
  {
    && createdAt.Keys == members.Keys
    && (forall id :: id in createdAt ==> createdAt[id] <= |log|)
    && (forall id :: id in members ==>
          members[id] == Replay(NewMember(members[id].name), EventsFor(oid, log[createdAt[id]..], id)))
  }

  /** The member update of scan2 for a logged event: the member the id denotes,
      if the id parses and such a member exists, gets the event applied. */
  function UpdatePresence(oid: IdParser, members: map<string, Member>, e: Event): (r: map<string, Member>)
    ensures r.Keys == members.Keys
  {
    match oid(e.memberId)
    case None => members
    case Some(id) => if id in members then members[id := Apply(members[id], e.action, e.timestamp)] else members
  }

  /** Logging an event and applying it keeps every member consistent with the log. */
  lemma RecordPreservesConsistency(oid: IdParser, members: map<string, Member>, log: seq<Event>,
                                   createdAt: map<string, nat>, e: Event)
    requires Consistent(oid, members, log, createdAt)
    ensures Consistent(oid, UpdatePresence(oid, members, e), log + [e], createdAt)
  {
    var members' := UpdatePresence(oid, members, e);
    forall id | id in members'
      ensures members'[id] == Replay(NewMember(members'[id].name), EventsFor(oid, (log + [e])[createdAt[id]..], id))
    {
      RecordKeepsMember(oid, members, log, createdAt[id], e, id);
    }
  }

  lemma RecordKeepsMember(oid: IdParser, members: map<string, Member>, log: seq<Event>,
                          from: nat, e: Event, id: string)
    requires id in members && from <= |log|
    requires members[id] == Replay(NewMember(members[id].name), EventsFor(oid, log[from..], id))
    ensures var m := UpdatePresence(oid, members, e)[id];
      m == Replay(NewMember(m.name), EventsFor(oid, (log + [e])[from..], id))
  {
    var before := EventsFor(oid, log[from..], id);
    EventsForAppend(oid, log, from, e, id);
    var old_m := members[id];
    var m := UpdatePresence(oid, members, e)[id];
    if oid(e.memberId) == Some(id) {
      assert m == Apply(old_m, e.action, e.timestamp);
      assert m.name == old_m.name;
      ReplayAppend(NewMember(old_m.name), before, e);
      assert EventsFor(oid, (log + [e])[from..], id) == before + [e];
    } else {
      assert m == old_m;
      assert EventsFor(oid, (log + [e])[from..], id) == before;
    }
  }

  lemma ReplayAppend(m: Member, events: seq<Event>, e: Event)
    ensures Replay(m, events + [e]) == Apply(Replay(m, events), e.action, e.timestamp)
  {
    assert (events + [e])[..|events|] == events;
  }

  // ---------------------------------------------------------------------------
  // member_attendance: filter by member, newest first, at most `limit`
  // ---------------------------------------------------------------------------

  /** The events whose member_id is exactly the given string, in log order. */
  function Matching(events: seq<Event>, memberId: string): (r: seq<Event>)
    ensures forall e :: e in r ==> e.memberId == memberId
    ensures multiset(r) <= multiset(events)
    ensures forall e :: e in events && e.memberId == memberId ==> e in r
    ensures forall e :: multiset(r)[e] == (if e.memberId == memberId then multiset(events)[e] else 0)
  {
    if events == [] then []
    else
      assert events == [events[0]] + events[1..];
      if events[0].memberId == memberId then [events[0]] + Matching(events[1..], memberId)
      else Matching(events[1..], memberId)
  }

  predicate NewestFirst(s: seq<Event>) {
    forall i, j :: 0 <= i < j < |s| ==> s[i].timestamp >= s[j].timestamp
  }

  /** An event that is at least as new as every event of a newest-first sequence
      can go in front of it. */
  lemma PrependNewest(e: Event, s: seq<Event>)
    requires NewestFirst(s)
    requires forall x :: x in s ==> x.timestamp <= e.timestamp
    ensures NewestFirst([e] + s)
  {
    forall i, j | 0 <= i < j < |[e] + s|
      ensures ([e] + s)[i].timestamp >= ([e] + s)[j].timestamp
    {
      if i == 0 {
        assert ([e] + s)[j] in s;
      }
    }
  }

  /** The first event of a newest-first sequence is at least as new as the rest. */
  lemma HeadIsNewest(s: seq<Event>)
    requires NewestFirst(s) && |s| > 0
    ensures forall x :: x in s[1..] ==> x.timestamp <= s[0].timestamp
  {
    forall x | x in s[1..] ensures x.timestamp <= s[0].timestamp {
      var k :| 0 <= k < |s[1..]| && s[1..][k] == x;
      assert s[k + 1] == x;
    }
  }

  /** Inserts an event into a newest-first sequence, behind every event of the
      same second (the sequence holds the events logged after it). */
  function Insert(e: Event, s: seq<Event>): (r: seq<Event>)
    requires NewestFirst(s)
    ensures NewestFirst(r) && |r| == |s| + 1
    ensures multiset(r) == multiset(s) + multiset{e}
    ensures forall x :: x in r ==> x == e || x in s
  {
    if s == [] || e.timestamp > s[0].timestamp then
      PrependNewest(e, s);
      [e] + s
    else
      var rest := Insert(e, s[1..]);
      assert s == [s[0]] + s[1..];
      HeadIsNewest(s);
      PrependNewest(s[0], rest);
      [s[0]] + rest
  }

  /** The database's descending sort on timestamp. Events of the same second come
      latest-logged first, as the stored sub-second times order them. */
  function SortNewestFirst(s: seq<Event>): (r: seq<Event>)
    ensures NewestFirst(r) && |r| == |s|
    ensures multiset(r) == multiset(s)
  {
    if s == [] then []
    else
      assert s == [s[0]] + s[1..];
      Insert(s[0], SortNewestFirst(s[1..]))
  }

  /** Timestamps never decrease along the sequence: the clock that stamps scans
      does not run backwards. */
  predicate OldestFirst(s: seq<Event>) {
    forall i, j :: 0 <= i < j < |s| ==> s[i].timestamp <= s[j].timestamp
  }

  /** The sequence in reverse order. */
  function Reversed(s: seq<Event>): (r: seq<Event>)
    ensures |r| == |s| && multiset(r) == multiset(s)
    ensures forall i :: 0 <= i < |s| ==> r[i] == s[|s| - 1 - i]
  {
    if s == [] then []
    else
      assert s == [s[0]] + s[1..];
      Reversed(s[1..]) + [s[0]]
  }

  /** Logging an event no older than the log keeps the log oldest first. */
  lemma LogStaysOldestFirst(log: seq<Event>, e: Event)
    requires OldestFirst(log)
    requires forall x :: x in log ==> x.timestamp <= e.timestamp
    ensures OldestFirst(log + [e])
  {
    forall i, j | 0 <= i < j < |log + [e]|
      ensures (log + [e])[i].timestamp <= (log + [e])[j].timestamp
    {
      assert (log + [e])[i] == log[i];
      assert log[i] in log;
    }
  }

  /** An event no newer than any event of a newest-first sequence goes to its end. */
  lemma {:induction false} InsertOldest(e: Event, s: seq<Event>)
    requires NewestFirst(s)
    requires forall x :: x in s ==> e.timestamp <= x.timestamp
    ensures Insert(e, s) == s + [e]
  {
    if s != [] {
      assert s[0] in s;
      assert s == [s[0]] + s[1..];
      assert NewestFirst(s[1..]) by {
        forall i, j | 0 <= i < j < |s[1..]| ensures s[1..][i].timestamp >= s[1..][j].timestamp {
          assert s[1..][i] == s[i + 1] && s[1..][j] == s[j + 1];
        }
      }
      InsertOldest(e, s[1..]);
    }
  }

  /** The tail of an oldest-first sequence is oldest first, and no event of it is
      older than the head. */
  lemma TailOldestFirst(s: seq<Event>)
    requires OldestFirst(s) && s != []
    ensures OldestFirst(s[1..])
    ensures forall x :: x in s[1..] ==> s[0].timestamp <= x.timestamp
  {
    forall i, j | 0 <= i < j < |s[1..]| ensures s[1..][i].timestamp <= s[1..][j].timestamp {
      assert s[1..][i] == s[i + 1] && s[1..][j] == s[j + 1];
    }
    forall x | x in s[1..] ensures s[0].timestamp <= x.timestamp {
      var k :| 0 <= k < |s[1..]| && s[1..][k] == x;
      assert s[k + 1] == x;
    }
  }

  /** A bound on the timestamps of a sequence holds of every sub-multiset of it. */
  lemma NoOlderInPart(e: Event, a: seq<Event>, b: seq<Event>)
    requires multiset(a) <= multiset(b)
    requires forall x :: x in b ==> e.timestamp <= x.timestamp
    ensures forall x :: x in a ==> e.timestamp <= x.timestamp
  {
    forall x | x in a ensures e.timestamp <= x.timestamp {
      assert x in multiset(a);
    }
  }

  /** An event no newer than every event of an oldest-first sequence can lead it. */
  lemma PrependOldest(e: Event, s: seq<Event>)
    requires OldestFirst(s)
    requires forall x :: x in s ==> e.timestamp <= x.timestamp
    ensures OldestFirst([e] + s)
  {
    forall i, j | 0 <= i < j < |[e] + s|
      ensures ([e] + s)[i].timestamp <= ([e] + s)[j].timestamp
    {
      if i == 0 {
        assert ([e] + s)[j] in s;
      }
    }
  }

  /** When timestamps never decrease along a sequence, the descending sort is that
      sequence reversed: the last one logged comes first, also within a second. */
  lemma {:induction false} SortOfOldestFirst(s: seq<Event>)
    requires OldestFirst(s)
    ensures SortNewestFirst(s) == Reversed(s)
  {
    if s != [] {
      TailOldestFirst(s);
      SortOfOldestFirst(s[1..]);
      NoOlderInPart(s[0], Reversed(s[1..]), s[1..]);
      InsertOldest(s[0], Reversed(s[1..]));
    }
  }

  /** The head and the tail of a concatenation with a non-empty front. */
  lemma ConcatCons(p: seq<Event>, q: seq<Event>)
    requires p != []
    ensures p + q != [] && (p + q)[0] == p[0] && (p + q)[1..] == p[1..] + q
  {
  }

  /** Filtering a concatenation filters each part. */
  lemma {:induction false} MatchingAppend(p: seq<Event>, q: seq<Event>, memberId: string)
    ensures Matching(p + q, memberId) == Matching(p, memberId) + Matching(q, memberId)
  {
    if p == [] {
      assert p + q == q;
    } else {
      ConcatCons(p, q);
      MatchingAppend(p[1..], q, memberId);
      PrependAssoc(p[0], Matching(p[1..], memberId), Matching(q, memberId));
    }
  }

  lemma PrependAssoc(x: Event, a: seq<Event>, b: seq<Event>)
    ensures [x] + (a + b) == ([x] + a) + b
  {
  }

  /** Filtering keeps timestamps oldest first. */
  lemma {:induction false} MatchingOldestFirst(events: seq<Event>, memberId: string)
    requires OldestFirst(events)
    ensures OldestFirst(Matching(events, memberId))
  {
    if events != [] {
      TailOldestFirst(events);
      MatchingOldestFirst(events[1..], memberId);
      if events[0].memberId == memberId {
        var rest := Matching(events[1..], memberId);
        NoOlderInPart(events[0], rest, events[1..]);
        PrependOldest(events[0], rest);
      }
    }
  }

  /** A member's own IN and OUT both pass its filter. */
  lemma MatchingOfOwnTwo(memberId: string, t: nat)
    ensures Matching([Event(memberId, In, t), Event(memberId, Out, t)], memberId)
         == [Event(memberId, In, t), Event(memberId, Out, t)]
  {
    var last := [Event(memberId, In, t), Event(memberId, Out, t)];
    assert last[1..] == [Event(memberId, Out, t)];
    assert last[1..][1..] == [];
  }

  /** Reversed, a sequence ending in a and then b starts with b and then a. */
  lemma LatestTwoLead(s: seq<Event>, front: seq<Event>, a: Event, b: Event)
    requires s == front + [a, b]
    ensures |Reversed(s)| >= 2 && Reversed(s)[0] == b && Reversed(s)[1] == a
  {
    assert s[|s| - 1] == b && s[|s| - 2] == a;
  }

  /** The newest-first listing of a log that ends with an IN and then an OUT of
      the member in the same second starts with that OUT and then that IN. */
  lemma SameSecondLead(log: seq<Event>, earlier: seq<Event>, memberId: string, t: nat, r: seq<Event>)
    requires log == earlier + [Event(memberId, In, t), Event(memberId, Out, t)]
    requires r == Reversed(Matching(log, memberId))[..Min(10, |Matching(log, memberId)|)]
    ensures |r| >= 2 && r[0] == Event(memberId, Out, t) && r[1] == Event(memberId, In, t)
  {
    var last := [Event(memberId, In, t), Event(memberId, Out, t)];
    var matching := Matching(log, memberId);
    MatchingAppend(earlier, last, memberId);
    MatchingOfOwnTwo(memberId, t);
    assert matching == Matching(earlier, memberId) + last;
    LatestTwoLead(matching, Matching(earlier, memberId), last[0], last[1]);
    assert |matching| >= 2;
    TwoLeadPrefix(r, Reversed(matching), Min(10, |matching|), last[0], last[1]);
  }

  lemma TwoLeadPrefix(r: seq<Event>, s: seq<Event>, n: nat, a: Event, b: Event)
    requires 2 <= n <= |s| && r == s[..n]
    requires s[0] == b && s[1] == a
    ensures |r| >= 2 && r[0] == b && r[1] == a
  {
  }

  /** The first n events of a newest-first sequence are newest first, and every
      event left out is no newer than the last one kept. */
  lemma NewestPrefix(s: seq<Event>, n: nat)
    requires NewestFirst(s) && n <= |s|
    ensures NewestFirst(s[..n])
    ensures multiset(s[..n]) + multiset(s[n..]) == multiset(s)
    ensures forall e :: e in multiset(s) - multiset(s[..n]) ==> e in s[n..]
    ensures n > 0 ==> forall e :: e in s[n..] ==> e.timestamp <= s[n - 1].timestamp
  {
    assert s == s[..n] + s[n..];
    forall e | e in multiset(s) - multiset(s[..n]) ensures e in s[n..] {
      assert e in multiset(s[n..]);
    }
    forall e | e in s[n..] && n > 0 ensures e.timestamp <= s[n - 1].timestamp {
      var k :| 0 <= k < |s[n..]| && s[n..][k] == e;
      assert s[n + k] == e;
    }
  }

  function Min(a: nat, b: nat): nat {
    if a <= b then a else b
  }

  // ---------------------------------------------------------------------------
  // The store
  // ---------------------------------------------------------------------------

  /** The QR tokens get_member_qrs returns. */
  datatype Qrs = Qrs(inToken: string, outToken: string, windowSeconds: nat)

  class Store {
    const cfg: Config
    const oid: IdParser
    /** The member collection, keyed by id. */
    var members: map<string, Member>
    /** The attendance collection, in insertion order. */
    var attendance: seq<Event>
    /** For each member, the length of the log when it was created. */
    ghost var createdAt: map<string, nat>

    /** Every member document is what its creation and the events logged for it
        since then make of it. */
    ghost predicate Valid()
      reads this
    {
      Consistent(oid, members, attendance, createdAt)
    }

    constructor (cfg: Config, oid: IdParser)
      ensures Valid()
      ensures this.cfg == cfg && this.oid == oid
      ensures members == map[] && attendance == []
    {
      this.cfg := cfg;
      this.oid := oid;
      members := map[];
      attendance := [];
      createdAt := map[];
    }

    /** create_member: inserts an absent member under the fresh id the database
        assigns. */
    method CreateMember(name: string, newId: string) returns (member: Member)
      requires Valid()
      requires newId !in members && oid(newId) == Some(newId)
      modifies this
      ensures Valid()
      ensures member == NewMember(name)
      ensures members == old(members)[newId := member]
      ensures attendance == old(attendance)
    {
      member := Member(name, false, None, None);
      members := members[newId := member];
      createdAt := createdAt[newId := |attendance|];
    }

    /** list_members: every member with the status its presence flag gives. */
    function ListMembers(): (r: map<string, (Member, string)>)
      reads this
      ensures r.Keys == members.Keys
      ensures forall id :: id in r ==> r[id].0 == members[id] && (r[id].1 == "Present" <==> members[id].present)
      ensures forall id :: id in r ==> (r[id].1 == "Absent" <==> !members[id].present)
    {
      map id | id in members :: (members[id], Status(members[id]))
    }

    /** The reported status follows the log: "Present" exactly when the last event
        logged for the member since its creation is IN, "Absent" when there is
        none or the last one is OUT. */
    lemma StatusFollowsLastEvent(id: string)
      requires Valid() && id in members
      ensures var events := EventsFor(oid, attendance[createdAt[id]..], id);
        ListMembers()[id].1 == "Present" <==> events != [] && events[|events| - 1].action == In
    ensures var events := EventsFor(oid, attendance[createdAt[id]..], id);
        ListMembers()[id].1 == "Absent" <==> events == [] || events[|events| - 1].action == Out
    {
      ReplayFromNew(members[id].name, EventsFor(oid, attendance[createdAt[id]..], id));
    }

    /** get_member_qrs: "Invalid member id" unless the id parses, "Member not
        found" unless it names a member, and otherwise an IN token and an OUT
        token for the id as given, each from its own reading of the clock. */
    function GetMemberQrs(memberId: string, inNow: nat, outNow: nat): (r: Result<Qrs>)
      reads this
      ensures oid(memberId).None? ==> r == Err(InvalidMemberId)
      ensures oid(memberId).Some? && oid(memberId).value !in members ==> r == Err(MemberNotFound)
      ensures r.Ok? <==> oid(memberId).Some? && oid(memberId).value in members
      ensures r.Ok? ==> && Verifies(cfg, memberId, "IN", r.value.inToken, inNow)
                        && Verifies(cfg, memberId, "OUT", r.value.outToken, outNow)
                        && r.value.windowSeconds == cfg.window
    {
      match oid(memberId)
      case None => Err(InvalidMemberId)
      case Some(id) =>
        if id !in members then Err(MemberNotFound)
        else
          var inToken := GenerateToken(cfg, memberId, "IN", inNow);
          var outToken := GenerateToken(cfg, memberId, "OUT", outNow);
          Ok(Qrs(inToken.value, outToken.value, cfg.window))
    }

    /** The two readings of the clock may straddle a window boundary; as long as
        they are less than a window length apart, both tokens are accepted at the
        later reading. */
    lemma QrsAcceptedAtSecondReading(memberId: string, inNow: nat, outNow: nat)
      requires GetMemberQrs(memberId, inNow, outNow).Ok?
      requires inNow <= outNow < inNow + cfg.window
      ensures Verifies(cfg, memberId, "IN", GetMemberQrs(memberId, inNow, outNow).value.inToken, outNow)
      ensures Verifies(cfg, memberId, "OUT", GetMemberQrs(memberId, inNow, outNow).value.outToken, outNow)
    {
      AcceptedForOneWindowLength(cfg, memberId, "IN", inNow, outNow);
    }

    /** scan2. In order: the action must be IN or OUT (400), the token must verify
        at the time the verifier reads the clock (401); then one event is appended
        with the time scan2 reads, and only after that is the id parsed (400 if it
        is not an ObjectId, with the event already logged) and the member with
        that id, if there is one, updated. An unknown id updates nothing and still
        succeeds. A scan is never refused for repeating the previous action. */
    method Scan2(memberId: string, action: string, token: string, verifyNow: nat, recordNow: nat)
      returns (r: Result<()>)
      requires Valid()
      modifies this
      ensures Valid()
      ensures !IsAction(action) ==>
        r == Err(InvalidAction) && members == old(members) && attendance == old(attendance)
      ensures IsAction(action) && !Verifies(cfg, memberId, action, token, verifyNow) ==>
        r == Err(InvalidOrExpiredToken) && members == old(members) && attendance == old(attendance)
      ensures IsAction(action) && Verifies(cfg, memberId, action, token, verifyNow) ==>
        && attendance == old(attendance) + [Event(memberId, ParseAction(action).value, recordNow)]
        && (oid(memberId).None? ==> r == Err(InvalidMemberId) && members == old(members))
        && (oid(memberId).Some? ==> r == Ok(()))
        && (oid(memberId).Some? && oid(memberId).value in old(members) ==>
              members == old(members)[oid(memberId).value :=
                Apply(old(members)[oid(memberId).value], ParseAction(action).value, recordNow)])
        && (oid(memberId).Some? && oid(memberId).value !in old(members) ==> members == old(members))
    {
      if !IsAction(action) {
        return Err(InvalidAction);
      }
      var ok := VerifyToken(cfg, memberId, action, token, verifyNow);
      if !ok {
        return Err(InvalidOrExpiredToken);
      }
      var act := if action == "IN" then In else Out;
      var event := Event(memberId, act, recordNow);
      RecordPreservesConsistency(oid, members, attendance, createdAt, event);
      attendance := attendance + [event];
      members := UpdatePresence(oid, members, event);
      r := if oid(memberId).None? then Err(InvalidMemberId) else Ok(());
    }

    /** member_attendance: the events whose member_id is exactly the given string,
        newest first, at most `limit` of them, and the newest ones. */
    function MemberAttendance(memberId: string, limit: nat): (r: seq<Event>)
      reads this
      requires limit > 0
      ensures |r| == Min(limit, |Matching(attendance, memberId)|)
      ensures forall e :: e in r ==> e in attendance && e.memberId == memberId
      ensures multiset(r) <= multiset(Matching(attendance, memberId))
      ensures NewestFirst(r)
      ensures forall e :: e in multiset(Matching(attendance, memberId)) - multiset(r) ==>
                |r| == limit && e.timestamp <= r[|r| - 1].timestamp
    {
      var matching := Matching(attendance, memberId);
      var sorted := SortNewestFirst(matching);
      var n := Min(limit, |sorted|);
      NewestOfMatching(attendance, memberId, matching, sorted, n, limit);
      sorted[..n]
    }

    /** With a clock that never runs backwards, member_attendance lists the
        member's events latest-logged first, cut at `limit`. */
    lemma AttendanceIsLatestLoggedFirst(memberId: string, limit: nat)
      requires limit > 0 && OldestFirst(attendance)
      ensures var matching := Matching(attendance, memberId);
        MemberAttendance(memberId, limit) == Reversed(matching)[..Min(limit, |matching|)]
    {
      MatchingOldestFirst(attendance, memberId);
      SortOfOldestFirst(Matching(attendance, memberId));
    }

    /** An IN scan and then an OUT scan recorded in the same second are listed
        OUT first. */
    lemma SameSecondLatestFirst(memberId: string, t: nat, earlier: seq<Event>)
      requires attendance == earlier + [Event(memberId, In, t), Event(memberId, Out, t)]
      requires OldestFirst(attendance)
      ensures |MemberAttendance(memberId, 10)| >= 2
      ensures MemberAttendance(memberId, 10)[0] == Event(memberId, Out, t)
      ensures MemberAttendance(memberId, 10)[1] == Event(memberId, In, t)
    {
      AttendanceIsLatestLoggedFirst(memberId, 10);
      SameSecondLead(attendance, earlier, memberId, t, MemberAttendance(memberId, 10));
    }
  }

  /** The first n of the matching events sorted newest first are matching events
      from the log, newest first, and any matching event left out is no newer
      than the last one kept. */
  lemma NewestOfMatching(events: seq<Event>, memberId: string, matching: seq<Event>,
                         sorted: seq<Event>, n: nat, limit: nat)
    requires matching == Matching(events, memberId)
    requires NewestFirst(sorted) && multiset(sorted) == multiset(matching) && |sorted| == |matching|
    requires n == Min(limit, |sorted|) && limit > 0
    ensures forall e :: e in sorted[..n] ==> e in events && e.memberId == memberId
    ensures multiset(sorted[..n]) <= multiset(matching)
    ensures NewestFirst(sorted[..n])
    ensures forall e :: e in multiset(matching) - multiset(sorted[..n]) ==>
              n == limit && e.timestamp <= sorted[n - 1].timestamp
  {
    NewestPrefix(sorted, n);
    forall e | e in sorted[..n] ensures e in events && e.memberId == memberId {
      assert e in multiset(sorted);
    }
  }

  /** The retired scan endpoint: without a member id it always answers 400. */
  function Scan(action: string, token: string): (r: Result<()>)
    ensures r.Err? && r.error.Status() == 400
  {
    Err(MemberIdRequired)
  }
}
