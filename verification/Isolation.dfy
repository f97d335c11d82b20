/** Who is in command, and why nobody else's traffic can matter while somebody is. */
module Isolation {
  import opened Domain
  import opened Registers
  import opened CommsLoss
  import opened ModbusServer
  import opened ControlSystem

  /** A write of one or more registers whose first is a command register. */
  predicate CommandWrite(e: Event) {
    e.Arrive? && (e.request.WriteSingle? || e.request.WriteMultiple?) && 0x0100 <= e.request.address <= 0x0103
  }

  /** The latest command-band write was event `i`, from `conn`, which has not disconnected since. */
  predicate CommandsSince(es: seq<Event>, conn: Conn, i: int) {
    && 0 <= i < |es| && CommandWrite(es[i]) && es[i].conn == conn
    && forall j :: i < j < |es| ==> !CommandWrite(es[j]) && es[j] != Disconnect(conn)
  }

  /** The authoritative connection is always that of the latest command-band write, unless it has
      disconnected since; then there is none. */
  lemma {:induction false} CommanderExactly(s: Sys, es: seq<Event>, conn: Conn)
    requires s.comms.commander == None
    ensures Run(s, es).comms.commander == Some(conn) <==> exists i :: CommandsSince(es, conn, i)
    decreases |es|
  {
    if es != [] {
      var m := |es| - 1;
      var before, e := es[..m], es[m];
      CommanderExactly(s, before, conn);
      RunSnoc(s, es);
      StepCommander(Run(s, before), e);
      assert forall j :: 0 <= j < m ==> before[j] == es[j];
      if CommandWrite(e) && e.conn == conn {
        assert CommandsSince(es, conn, m);
      }
      if !CommandWrite(e) && e != Disconnect(conn) && Run(s, before).comms.commander == Some(conn) {
        var i :| CommandsSince(before, conn, i);
        assert CommandsSince(es, conn, i);
      }
      if i :| CommandsSince(es, conn, i) {
        assert i < m ==> CommandsSince(before, conn, i);
      }
    }
  }

  lemma StepCommander(s: Sys, e: Event)
    ensures Step(s, e).comms.commander ==
      if CommandWrite(e) then Some(e.conn)
      else if e.Disconnect? && s.comms.commander == Some(e.conn) then None
      else s.comms.commander
  {
    match e
    case Answer(how) => AnswerIsLocal(s, how);
    case Start => StartIsLocal(s);
    case _ =>
  }

  /** Traffic of a connection that is not in command: any request but a command-band write, or its
      disconnect, while another connection is in command. */
  predicate Bystander(s: Sys, e: Event) {
    && (e.Arrive? || e.Disconnect?) && !CommandWrite(e)
    && s.comms.commander.Some? && s.comms.commander != Some(e.conn)
  }

  lemma BystanderChangesNothing(s: Sys, e: Event)
    requires Bystander(s, e)
    ensures Step(s, e) == s
  {
  }

  /** The run with all bystander traffic deleted. */
  function WithoutBystanders(s: Sys, es: seq<Event>): seq<Event>
    decreases |es|
  {
    if es == [] then []
    else if Bystander(s, es[0]) then WithoutBystanders(s, es[1..])
    else [es[0]] + WithoutBystanders(Step(s, es[0]), es[1..])
  }

  /** Non-interference: deleting all bystander traffic from any run leaves the whole state the
      same: watchdog, store, queue, outstanding writes, relays. */
  lemma {:induction false} BystandersDoNotInterfere(s: Sys, es: seq<Event>)
    ensures Run(s, es) == Run(s, WithoutBystanders(s, es))
    decreases |es|
  {
    if es != [] {
      if Bystander(s, es[0]) {
        BystanderChangesNothing(s, es[0]);
        BystandersDoNotInterfere(s, es[1..]);
      } else {
        var rest := WithoutBystanders(Step(s, es[0]), es[1..]);
        BystandersDoNotInterfere(Step(s, es[0]), es[1..]);
        assert ([es[0]] + rest)[1..] == rest;
      }
    }
  }

  /** Two runs that differ only in bystander traffic, wherever it is inserted, end alike. */
  lemma SameUpToBystanders(s: Sys, a: seq<Event>, b: seq<Event>)
    requires WithoutBystanders(s, a) == WithoutBystanders(s, b)
    ensures Run(s, a) == Run(s, b)
  {
    BystandersDoNotInterfere(s, a);
    BystandersDoNotInterfere(s, b);
  }
}
