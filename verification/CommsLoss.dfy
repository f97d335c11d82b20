/** The comms-loss watchdog and the connection tracker that decides whose activity re-arms it. */
module CommsLoss {
  import opened Domain
  import Registers

  // Milliseconds of the monotonic clock.
  const TIMEOUT_MS := 30000
  const CHECK_INTERVAL_MS := 1000

  type Conn = nat

  datatype Watchdog = Watchdog(lastRead: int, released: bool, commanderGone: bool)

  /** Watchdog and tracker together; `commander` is the authoritative connection, if any. */
  datatype Comms = Comms(wd: Watchdog, commander: Option<Conn>)

  function Rearm(now: int): Watchdog {
    Watchdog(now, false, false)
  }

  /** The test made at a wake-up. */
  predicate ShouldRelease(wd: Watchdog, now: int) {
    (now - wd.lastRead > TIMEOUT_MS || wd.commanderGone) && !wd.released
  }

  /** Does a request from `conn` count as life? */
  predicate CountsAsLife(c: Comms, conn: Conn, commandWrite: bool) {
    commandWrite || c.commander == None || c.commander == Some(conn)
  }

  function AfterRequest(c: Comms, conn: Conn, commandWrite: bool, now: int): Comms {
    Comms(
      if CountsAsLife(c, conn, commandWrite) then Rearm(now) else c.wd,
      if commandWrite then Some(conn) else c.commander)
  }

  function AfterDisconnect(c: Comms, conn: Conn): Comms {
    if c.commander == Some(conn) then Comms(c.wd.(commanderGone := true), None) else c
  }

  class SafetyWatchdog {
    var lastRead: int
    var released: bool
    var commanderGone: bool

    function View(): Watchdog
      reads this
    {
      Watchdog(lastRead, released, commanderGone)
    }

    constructor (now: int)
      ensures View() == Watchdog(now, false, false)
    {
      lastRead, released, commanderGone := now, false, false;
    }

    method NoteModbusRead(now: int)
      modifies this
      ensures View() == Rearm(now)
    {
      lastRead := now;
      commanderGone := false;
      if released {
        released := false;
      }
    }

    method NoteCommanderLost()
      modifies this
      ensures View() == old(View()).(commanderGone := true)
    {
      commanderGone := true;
    }

    /** What a health report shows: with no drop pending, a wake-up now would release exactly if the
        reported silence is over the limit and the report does not say released. */
    method Snapshot(now: int) returns (silence: int, wasReleased: bool)
      ensures View() == Watchdog(now - silence, wasReleased, View().commanderGone)
      ensures ShouldRelease(View(), now) <==> !wasReleased && (silence > 30000 || View().commanderGone)
    {
      silence, wasReleased := now - lastRead, released;
    }

    /** The part of a wake-up before the driver call: decide, and clear the read-backs at once. */
    method Wake(now: int, store: Registers.RegisterStore) returns (attempt: bool)
      modifies store
      ensures attempt == ShouldRelease(View(), now)
      ensures store.View() == if attempt then Registers.ReleaseMaintained(old(store.View())) else old(store.View())
    {
      var elapsed, gone := now - lastRead, commanderGone;
      attempt := false;
      if (elapsed > TIMEOUT_MS || gone) && !released {
        store.ReleaseMaintainedCommands();
        attempt := true;
      }
    }

    /** The part after it: latch only if the physical writes succeeded. */
    method Finish(landed: bool)
      modifies this
      ensures View() == if landed then old(View()).(released := true) else old(View())
    {
      if !landed {
        return;
      }
      released := true;
    }
  }

  class ConnectionTracker {
    const watchdog: SafetyWatchdog
    var commander: Option<Conn>

    function View(): Comms
      reads this, watchdog
    {
      Comms(watchdog.View(), commander)
    }

    constructor (watchdog: SafetyWatchdog)
      ensures this.watchdog == watchdog
      ensures View() == Comms(watchdog.View(), None)
    {
      this.watchdog := watchdog;
      commander := None;
    }

    method NoteRequest(conn: Conn, commandWrite: bool, now: int)
      modifies this, watchdog
      ensures View() == AfterRequest(old(View()), conn, commandWrite, now)
    {
      if commandWrite {
        if commander != Some(conn) {
          commander := Some(conn);
        }
        watchdog.NoteModbusRead(now);
      } else if commander == None {
        watchdog.NoteModbusRead(now);
      } else if commander == Some(conn) {
        watchdog.NoteModbusRead(now);
      }
    }

    method NoteDisconnect(conn: Conn)
      modifies this, watchdog
      ensures View() == AfterDisconnect(old(View()), conn)
    {
      if commander == Some(conn) {
        commander := None;
        watchdog.NoteCommanderLost();
      }
    }
  }
}
