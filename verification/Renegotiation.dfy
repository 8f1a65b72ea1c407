/** The renegotiation guard: what the handshake callback does over a whole trace of events. */
module Renegotiation {
  import opened Bytes
  import opened Contexts

  const CB_HANDSHAKE_START: bv32 := 0x10
  const CB_HANDSHAKE_DONE: bv32 := 0x20
  const TLS1_3_VERSION: int := 0x0304

  /** One invocation: the `where` bits and the protocol version of the session, if there is one. */
  datatype Event = Event(where: bv32, session: Option<int>) {
    predicate Tls13() {
      session == Some(TLS1_3_VERSION)
    }

    predicate Starts() {
      where & CB_HANDSHAKE_START != 0 && !Tls13()
    }

    predicate Completes() {
      where & CB_HANDSHAKE_DONE != 0 && !Tls13()
    }
  }

  function Next(state: RenegState, e: Event): RenegState {
    if e.Starts() && state == Reject then Abort
    else if e.Completes() && state == Init then Reject
    else state
  }

  /** `SSL_callback_handshake` */
  method HandshakeCallback(con: Connection?, where: bv32, session: Option<int>)
    modifies if con == null then {} else {con}
    ensures con != null ==>
              && con.renegState == Next(old(con.renegState), Event(where, session))
              && con.phaState == old(con.phaState) && con.hasPeer == old(con.hasPeer)
              && con.verifyResult == old(con.verifyResult)
  {
    if con == null {
      return;
    }
    if session.Some? {
      if session.value == TLS1_3_VERSION {
        return;
      }
    }
    if where & CB_HANDSHAKE_START != 0 && con.renegState == Reject {
      con.renegState := Abort;
    } else if where & CB_HANDSHAKE_DONE != 0 && con.renegState == Init {
      con.renegState := Reject;
    }
  }

  /** The state after a trace, from `RENEG_INIT`. */
  function Run(events: seq<Event>): RenegState {
    if events == [] then Init else Next(Run(events[..|events| - 1]), events[|events| - 1])
  }

  ghost predicate Renegotiated(events: seq<Event>) {
    exists i, j :: 0 <= i < j < |events| && events[i].Completes() && events[j].Starts()
  }

  ghost predicate Established(events: seq<Event>) {
    exists i :: 0 <= i < |events| && events[i].Completes()
  }

  /** ABORT exactly when a completed handshake is followed by a later start, REJECT exactly when one
      completed and none started since, INIT exactly when none completed; RENEG_ALLOW never. */
  lemma {:induction false} StateTellsTrace(events: seq<Event>)
    ensures Run(events) == if Renegotiated(events) then Abort else if Established(events) then Reject else Init
    decreases |events|
  {
    if events != [] {
      var n := |events| - 1;
      var before, last := events[..n], events[n];
      StateTellsTrace(before);
      assert forall i :: 0 <= i < n ==> before[i] == events[i];
      if Renegotiated(before) {
        var i, j :| 0 <= i < j < |before| && before[i].Completes() && before[j].Starts();
        assert events[i].Completes() && events[j].Starts();
      } else if Established(before) {
        var i :| 0 <= i < |before| && before[i].Completes();
        assert events[i].Completes();
        if last.Starts() {
          assert events[n].Starts();
        }
      } else if last.Completes() {
        assert events[n].Completes();
      }
    }
  }

  /** Events by their bits and versions: of a session below TLS 1.3 one completed handshake and a later
      start end in ABORT; under TLS 1.3, or with other bits alone, nothing ever changes the state. */
  lemma {:induction false} TracesByNumber(version: Option<int>, quiet: seq<Event>)
    requires version != Some(0x0304)
    requires forall e <- quiet :: e.session == Some(0x0304) || e.where & 0x30 == 0
    ensures Run([Event(0x10, version), Event(0x20, version)]) == Reject
    ensures Run([Event(0x10, version), Event(0x20, version), Event(0x10, version)]) == Abort
    ensures Run(quiet) == Init
  {
    var first: seq<Event> := [Event(0x10, version), Event(0x20, version)];
    var all: seq<Event> := [Event(0x10, version), Event(0x20, version), Event(0x10, version)];
    assert first[0].Starts() && !first[0].Completes() && first[1].Completes() && !first[1].Starts();
    StateTellsTrace(first);
    StateTellsTrace(all);
    assert all[1].Completes() && all[2].Starts();
    assert Renegotiated(all);
    StateTellsTrace(quiet);
    forall e | e in quiet
      ensures !e.Completes()
    {
      assert e.where & 0x20 == (e.where & 0x30) & 0x20;
    }
  }

  function Rank(state: RenegState): nat {
    match state
    case Init => 0
    case Reject => 1
    case Allow => 2
    case Abort => 3
  }

  /** Over a trace the state only advances, and ABORT is never left. */
  lemma {:induction false} StateOnlyAdvances(events: seq<Event>, n: nat)
    requires n <= |events|
    ensures Rank(Run(events[..n])) <= Rank(Run(events))
    ensures Run(events[..n]) == Abort ==> Run(events) == Abort
    decreases |events|
  {
    if n == |events| {
      assert events[..n] == events;
    } else {
      var before := events[..|events| - 1];
      assert before[..n] == events[..n];
      StateOnlyAdvances(before, n);
    }
  }
}
