// The streamed response of creator-node/src/apiHelpers.ts: a JSON object is opened at once, one
// character is appended to its first member on every tick, and the handler's result closes it.
module Heartbeat {
  import opened Wrappers
  import opened Json

  type Members = seq<Entry<Json>>

  /**
   * What can happen to one request. Resolved carries the members of resp.object as they are when it
   * is stringified; Rejected carries the own properties of the error that was thrown.
   */
  datatype Event = Tick | Resolved(members: Members) | Rejected(error: Members)

  const OPENING := "{\"_h\":\""

  function ErrorObject(error: Members): Members { [Entry("error", Obj(error))] }

  /** String.prototype.replace with a one-character pattern: the first occurrence goes. */
  function RemoveFirst(c: char, t: string): string {
    if t == "" then "" else if t[0] == c then t[1..] else [t[0]] + RemoveFirst(c, t[1..])
  }

  function Terminator(members: Members): string {
    "\"," + RemoveFirst('{', Print(Obj(members)))
  }

  datatype State = State(body: string, finished: bool, ticking: bool)
  {
    function Write(t: string): State { if finished then this else this.(body := body + t) }

    function End(t: string): State { if finished then this else this.(body := body + t, finished := true) }

    function Next(e: Event): State {
      match e
      case Tick => if ticking then Write("1") else this
      case Resolved(members) => this.(ticking := false).End(Terminator(members))
      case Rejected(error) => End(Terminator(ErrorObject(error)))
    }

    function Run(events: seq<Event>): State
      decreases events
    {
      if events == [] then this else Next(events[0]).Run(events[1..])
    }
  }

  const STARTED := State(OPENING, false, true)

  // ---------- The whole stream ----------

  function Ones(n: nat): string { if n == 0 then "" else "1" + Ones(n - 1) }

  lemma {:induction false} OnesSnoc(n: nat)
    ensures Ones(n) + "1" == Ones(n + 1)
  {
    if n > 0 {
      OnesSnoc(n - 1);
      assert Ones(n) + "1" == "1" + (Ones(n - 1) + "1");
    }
  }

  lemma {:induction false} EscapeOnes(n: nat)
    ensures Escape(Ones(n)) == Ones(n)
  {
    if n > 0 {
      EscapeOnes(n - 1);
      assert Ones(n)[1..] == Ones(n - 1);
    }
  }

  /** The members the result contributes, whichever way the handler settles. */
  function ResultMembers(e: Event): Members
    requires !e.Tick?
  {
    match e
    case Resolved(members) => members
    case Rejected(error) => ErrorObject(error)
  }

  /** The handler settles at position p, after ticks only; whatever happens later. */
  ghost predicate SettlesAt(events: seq<Event>, p: nat) {
    p < |events| && !events[p].Tick? && forall i | 0 <= i < p :: events[i].Tick?
  }

  lemma {:induction false} RunOnTicks(n: nat, events: seq<Event>)
    requires forall i | 0 <= i < |events| :: events[i].Tick?
    ensures State(OPENING + Ones(n), false, true).Run(events) == State(OPENING + Ones(n + |events|), false, true)
    decreases events
  {
    if events != [] {
      OnesSnoc(n);
      assert OPENING + Ones(n) + "1" == OPENING + (Ones(n) + "1");
      RunOnTicks(n + 1, events[1..]);
    }
  }

  /** Once the response has ended, nothing that happens changes its body. */
  lemma {:induction false} FinishedIsFinal(s: State, events: seq<Event>)
    requires s.finished
    ensures s.Run(events).finished && s.Run(events).body == s.body
    decreases events
  {
    if events != [] {
      FinishedIsFinal(s.Next(events[0]), events[1..]);
    }
  }

  lemma {:induction false} RunSplits(s: State, a: seq<Event>, b: seq<Event>)
    ensures s.Run(a + b) == s.Run(a).Run(b)
    decreases a
  {
    if a == [] {
      assert a + b == b;
    } else {
      assert (a + b)[1..] == a[1..] + b;
      RunSplits(s.Next(a[0]), a[1..], b);
    }
  }

  /**
   * The bytes sent: as many ones as ticks before the handler settled, one terminator, and nothing after it,
   * even if the handler settles again.
   */
  lemma StreamText(events: seq<Event>, p: nat)
    requires SettlesAt(events, p)
    ensures STARTED.Run(events).finished
    ensures STARTED.Run(events).body == OPENING + Ones(p) + Terminator(ResultMembers(events[p]))
  {
    SplitAt(events, p);
    RunSplits(STARTED, events[..p], [events[p]] + events[p + 1..]);
    assert OPENING + Ones(0) == OPENING;
    RunOnTicks(0, events[..p]);
    RunOnSettling(OPENING + Ones(p), events[p], events[p + 1..]);
  }

  lemma SplitAt(events: seq<Event>, p: nat)
    requires p < |events|
    ensures events == events[..p] + ([events[p]] + events[p + 1..])
  {
  }

  lemma RunOnSettling(body: string, e: Event, later: seq<Event>)
    requires !e.Tick?
    ensures State(body, false, true).Run([e] + later).finished
    ensures State(body, false, true).Run([e] + later).body == body + Terminator(ResultMembers(e))
  {
    var s := State(body, false, true);
    assert ([e] + later)[1..] == later;
    FinishedIsFinal(s.Next(e), later);
  }

  function HeartbeatMember(n: nat): Entry<Json> { Entry("_h", Str(Ones(n))) }

  lemma HeartbeatMemberText(n: nat)
    ensures PrintMember("_h", Print(Str(Ones(n)))) == "\"_h\":\"" + (Ones(n) + "\"")
  {
    EscapeOnes(n);
    QuotedKey();
  }

  lemma QuotedKey()
    ensures Quote("_h") == "\"_h\""
  {
    assert "_h"[1..] == "h" && "h"[1..] == "";
    assert EscapeChar('_') == "_" && EscapeChar('h') == "h";
    assert Escape("h") == "h" && Escape("_h") == "_h";
  }

  lemma PutInFront(ones: string, rest: string)
    ensures OPENING + ones + ("\"," + rest) == "{" + ("\"_h\":\"" + (ones + "\"") + ("," + rest))
  {
  }

  lemma TerminatorText(members: Members)
    ensures Terminator(members) == "\"," + (PrintMembers(members) + "}")
  {
    assert Print(Obj(members))[1..] == PrintMembers(members) + "}";
  }

  /** With at least one member, the text is exactly the object with _h put in front of the others. */
  lemma TextIsObjectWithHeartbeat(n: nat, members: Members)
    requires members != []
    ensures OPENING + Ones(n) + Terminator(members) == Print(Obj([HeartbeatMember(n)] + members))
  {
    TerminatorText(members);
    HeartbeatMemberText(n);
    PutInFront(Ones(n), PrintMembers(members) + "}");
    var all := [HeartbeatMember(n)] + members;
    assert all[1..] == members;
    assert all[0] == HeartbeatMember(n) && |all| > 1;
    RegroupAtComma(PrintMember("_h", Print(Str(Ones(n)))), PrintMembers(members), "}");
  }

  /** An object without members leaves a dangling comma, and no reader accepts the text. */
  lemma EmptyObjectIsNotJson(n: nat)
    ensures Parse(OPENING + Ones(n) + Terminator([])).None?
  {
    TerminatorText([]);
    HeartbeatMemberText(n);
    PutInFront(Ones(n), "}");
    var member := PrintMember("_h", Print(Str(Ones(n))));
    assert PrintMembers([]) + "}" == "}";
    ParsePrintedMember(HeartbeatMember(n), ",}");
    ParseDanglingComma(member + ",}", HeartbeatMember(n));
    assert "," + "}" == ",}";
    ParseBadMembers(member + ",}");
  }

  lemma ParseDanglingComma(t: string, m: Entry<Json>)
    requires ParseMember(t) == Some(Parsed(m, ",}"))
    ensures ParseMembers(t).None?
  {
    assert ",}"[1..] == "}";
  }

  lemma ParseBadMembers(w: string)
    requires w != "" && !IsSpace(w[0]) && w[0] != '}' && ParseMembers(w).None?
    ensures Parse("{" + w).None?
  {
    assert ("{" + w)[1..] == w;
  }

  /**
   * For every interleaving of ticks with the handler settling, once or more: the response reads as JSON
   * exactly when the first result has a member, and then it reads as that result with one more member _h in
   * front, holding one character for each tick before.
   */
  lemma StreamIsTheResult(events: seq<Event>, p: nat)
    requires SettlesAt(events, p)
    ensures Parse(STARTED.Run(events).body) == WithHeartbeat(p, ResultMembers(events[p]))
  {
    var ms := ResultMembers(events[p]);
    StreamText(events, p);
    if ms == [] {
      EmptyObjectIsNotJson(p);
    } else {
      TextIsObjectWithHeartbeat(p, ms);
      ParsePrintRoundTrip(Obj([HeartbeatMember(p)] + ms));
    }
  }

  /** The object read has no key twice exactly when the result was such an object and had no _h of its own. */
  lemma HeartbeatKeyIsExtra(n: nat, members: Members)
    ensures WellFormed(Obj([HeartbeatMember(n)] + members)) <==>
            WellFormed(Obj(members)) && forall m | m in members :: m.key != "_h"
  {
    var h := HeartbeatMember(n);
    assert forall m :: m in [h] + members <==> m == h || m in members;
    if DistinctKeys([h] + members) {
      OthersAreDistinct(h, members);
    }
    if DistinctKeys(members) && forall m | m in members :: m.key != h.key {
      OneMoreKey(h, members);
    }
  }

  lemma OthersAreDistinct(h: Entry<Json>, members: Members)
    requires DistinctKeys([h] + members)
    ensures DistinctKeys(members) && forall m | m in members :: m.key != h.key
  {
    var all := [h] + members;
    assert forall i | 0 <= i < |members| :: all[i + 1] == members[i];
    forall m | m in members ensures m.key != h.key {
      var i :| 0 <= i < |members| && members[i] == m;
      assert all[0].key != all[i + 1].key;
    }
    forall i, j | 0 <= i < j < |members| ensures members[i].key != members[j].key {
      assert all[i + 1].key != all[j + 1].key;
    }
  }

  lemma OneMoreKey(h: Entry<Json>, members: Members)
    requires DistinctKeys(members) && forall m | m in members :: m.key != h.key
    ensures DistinctKeys([h] + members)
  {
  }

  // ---------- The code ----------

  /** handleResponseWithHeartbeat: the response being written and the interval that ticks. */
  class Stream {
    var body: string
    var finished: bool
    var ticking: bool
    /** What has happened so far. */
    ghost var events: seq<Event>

    ghost function Snapshot(): State
      reads this
    {
      State(body, finished, ticking)
    }

    ghost predicate Valid()
      reads this
    {
      Snapshot() == STARTED.Run(events)
    }

    constructor ()
      ensures Valid() && events == [] && body == OPENING
    {
      body := OPENING;
      finished := false;
      ticking := true;
      events := [];
    }

    /** res.write, which sends nothing once the response has ended. */
    method Write(t: string)
      modifies this`body
      ensures body == if finished then old(body) else old(body) + t
    {
      if !finished {
        body := body + t;
      }
    }

    /** res.end */
    method End(t: string)
      modifies this`body, this`finished
      ensures finished && body == if old(finished) then old(body) else old(body) + t
    {
      Write(t);
      finished := true;
    }

    /** The body grows by one character for each tick until the handler has settled, and by none from then on. */
    method OnTick()
      requires Valid()
      modifies this
      ensures Valid() && events == old(events) + [Tick]
      ensures body == if Settled(old(events)) then old(body) else old(body) + "1"
    {
      Happened(events, Tick);
      if ticking {
        if !finished {
          Write("1");
        }
      }
      events := events + [Tick];
    }

    /**
     * The interval is cleared before the terminator is sent. If nothing had settled the request yet, the body
     * now reads as the result with its heartbeat, or as nothing if the result is empty, and nothing that
     * happens later changes it; otherwise it stays as it was.
     */
    method OnResolved(members: Members)
      requires Valid()
      modifies this
      ensures Valid() && events == old(events) + [Resolved(members)] && NothingFollows(events, body)
      ensures if Settled(old(events)) then body == old(body)
              else Parse(body) == WithHeartbeat(|old(events)|, members)
    {
      Happened(events, Resolved(members));
      SettlingStream(events, Resolved(members));
      ticking := false;
      End(Terminator(members));
      events := events + [Resolved(members)];
    }

    /**
     * The interval is not cleared: only the check of res.finished keeps later ticks out of the body. An error
     * that next() throws after the terminator comes here too, and changes nothing.
     */
    method OnRejected(error: Members)
      requires Valid()
      modifies this
      ensures Valid() && events == old(events) + [Rejected(error)] && NothingFollows(events, body)
      ensures if Settled(old(events)) then body == old(body)
              else Parse(body) == WithHeartbeat(|old(events)|, [Entry("error", Obj(error))])
    {
      Happened(events, Rejected(error));
      SettlingStream(events, Rejected(error));
      End(Terminator(ErrorObject(error)));
      events := events + [Rejected(error)];
    }
  }

  /** The handler has finished or failed. */
  ghost predicate Settled(events: seq<Event>) { exists i :: 0 <= i < |events| && !events[i].Tick? }

  /** Whatever happens after these events, the body stays. */
  ghost predicate NothingFollows(events: seq<Event>, body: string) {
    forall later: seq<Event> :: STARTED.Run(events + later).body == body
  }

  /** What the body reads as: the result with one more member for the n ticks; an empty result is no JSON. */
  function WithHeartbeat(n: nat, members: Members): Option<Json> {
    if members == [] then None else Some(Obj([HeartbeatMember(n)] + members))
  }

  lemma Happened(events: seq<Event>, e: Event)
    ensures STARTED.Run(events + [e]) == STARTED.Run(events).Next(e)
    ensures Settled(events) <==> STARTED.Run(events).finished
    ensures !Settled(events) ==> STARTED.Run(events) == State(OPENING + Ones(|events|), false, true)
  {
    RunOneMore(STARTED, events, e);
    if Settled(events) {
      var p := FirstSettling(events);
      StreamText(events, p);
    } else {
      assert OPENING + Ones(0) == OPENING;
      RunOnTicks(0, events);
    }
  }

  lemma RunOneMore(s: State, events: seq<Event>, e: Event)
    ensures s.Run(events + [e]) == s.Run(events).Next(e)
  {
    RunSplits(s, events, [e]);
    assert [e][1..] == [];
  }

  lemma SettlingStream(events: seq<Event>, e: Event)
    requires !e.Tick?
    ensures NothingFollows(events + [e], STARTED.Run(events + [e]).body)
    ensures !Settled(events) ==>
              Parse(STARTED.Run(events + [e]).body) == WithHeartbeat(|events|, ResultMembers(e))
  {
    Happened(events, e);
    var now := events + [e];
    forall later: seq<Event> ensures STARTED.Run(now + later).body == STARTED.Run(now).body {
      RunSplits(STARTED, now, later);
      FinishedIsFinal(STARTED.Run(now), later);
    }
    if !Settled(events) {
      assert SettlesAt(now, |events|);
      StreamIsTheResult(now, |events|);
    }
  }

  lemma {:induction false} FirstSettling(events: seq<Event>) returns (p: nat)
    requires Settled(events)
    ensures SettlesAt(events, p)
  {
    if !events[0].Tick? {
      p := 0;
    } else {
      assert exists i :: 0 <= i < |events[1..]| && !events[1..][i].Tick? by {
        var i :| 0 <= i < |events| && !events[i].Tick?;
        assert events[1..][i - 1] == events[i];
      }
      var q := FirstSettling(events[1..]);
      p := q + 1;
      assert forall i | 0 < i < |events| :: events[i] == events[1..][i - 1];
    }
  }
}
