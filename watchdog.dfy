/**
  What one tick of the watchdog (`monitor`, run once a second) does, as a
  function of the configured games, the process names seen in that tick,
  the "resolution changed" flag it starts with, and the backend's answers.
  The class in `App` runs the same tick with loops and is proved to agree
  with `Tick`.
*/
module Watchdog {
  import opened Wrappers
  import opened Paths
  import opened Resolution
  import opened Backend
  import opened GameList

  /** How a resolution string is read into a mode; the program reads it with `Parse`. */
  type Reader = string -> Result<Mode, ParseError>

  /** Some process in the snapshot has the game's executable name, ignoring case. */
  predicate Running(g: GameConfig, procs: seq<string>)
  {
    exists j :: 0 <= j < |procs| && SameName(procs[j], Basename(g.game))
  }

  predicate AnyRunning(games: seq<GameConfig>, procs: seq<string>)
  {
    exists i :: 0 <= i < |games| && Running(games[i], procs)
  }

  /** How a tick ends: normally, or with the exception the resolution string raised. */
  datatype Status = Completed | Raised(error: ParseError)

  /**
    The tick's state after visiting some of the games: the flag, whether a
    monitored game was seen, the backend calls made so far, and how it ended.
  */
  datatype Scan = Scan(changed: bool, running: bool, calls: seq<Call>, status: Status)

  /**
    Visit one game: when it is running, read its resolution (which may
    raise), ask the backend for it unless a change is already in force, and
    note that a monitored game is running. `n0` is the backend's request
    count at the start of the tick.
  */
  function Visit(s: Scan, g: GameConfig, procs: seq<string>, n0: nat, answer: (nat, Call) -> bool, read: Reader): Scan
  {
    if s.status.Raised? || !Running(g, procs) then s
    else
      match read(g.resolution)
      case Failure(e) => s.(status := Raised(e))
      case Success(m) =>
        if s.changed then s.(running := true)
        else
          var call := Apply(m);
          Scan(answer(n0 + |s.calls|, call), true, s.calls + [call], Completed)
  }

  /** Visit the games in order. */
  function ScanFrom(games: seq<GameConfig>, procs: seq<string>, s: Scan, n0: nat, answer: (nat, Call) -> bool, read: Reader): Scan
    decreases |games|
  {
    if games == [] then s
    else ScanFrom(games[1..], procs, Visit(s, games[0], procs, n0, answer, read), n0, answer, read)
  }

  /** One whole tick: the scan, then a reset when no monitored game ran while a change was in force. */
  function Tick(games: seq<GameConfig>, procs: seq<string>, changed: bool, n0: nat, answer: (nat, Call) -> bool, read: Reader): Scan
  {
    var s := ScanFrom(games, procs, Scan(changed, false, [], Completed), n0, answer, read);
    if s.status.Completed? && !s.running && s.changed then
      Scan(false, false, s.calls + [Reset], Completed)
    else s
  }

  /** Every running game's resolution string can be read. */
  predicate ReadableWhenRunning(games: seq<GameConfig>, procs: seq<string>, read: Reader)
  {
    forall i :: 0 <= i < |games| && Running(games[i], procs) ==> read(games[i].resolution).Success?
  }

  /** The modes of the running games, in configuration order. */
  function RunningModes(games: seq<GameConfig>, procs: seq<string>, read: Reader): seq<Mode>
    requires ReadableWhenRunning(games, procs, read)
    decreases |games|
  {
    if games == [] then []
    else
      var rest := RunningModes(games[1..], procs, read);
      if Running(games[0], procs) then [read(games[0].resolution).value] + rest else rest
  }

  /**
    The running modes are empty exactly when no monitored game runs, and
    otherwise start with the mode of the first running game.
  */
  lemma {:induction false} RunningModesFirst(games: seq<GameConfig>, procs: seq<string>, read: Reader) returns (i: nat)
    requires ReadableWhenRunning(games, procs, read)
    ensures |RunningModes(games, procs, read)| == 0 <==> !AnyRunning(games, procs)
    ensures AnyRunning(games, procs) ==>
      && i < |games| && Running(games[i], procs)
      && (forall j :: 0 <= j < i ==> !Running(games[j], procs))
      && RunningModes(games, procs, read)[0] == read(games[i].resolution).value
    decreases |games|
  {
    i := 0;
    if games != [] {
      TailRunning(games, procs);
      ReadableTail(games, procs, read);
      if !Running(games[0], procs) {
        var j := RunningModesFirst(games[1..], procs, read);
        i := j + 1;
        if AnyRunning(games, procs) {
          forall k | 0 <= k < i ensures !Running(games[k], procs) {
            if k > 0 {
              assert games[k] == games[1..][k - 1];
            }
          }
        }
      }
    }
  }

  /**
    The calls a tick that starts with no change in force makes: it asks for
    each running game's mode in turn and stops at the first one the backend
    accepts.
  */
  function Attempts(modes: seq<Mode>, n: nat, answer: (nat, Call) -> bool): seq<Call>
    decreases |modes|
  {
    if modes == [] then []
    else if answer(n, Apply(modes[0])) then [Apply(modes[0])]
    else [Apply(modes[0])] + Attempts(modes[1..], n + 1, answer)
  }

  /**
    The attempts ask for a prefix of the modes in order; every request but
    the last was refused, and they stop before the end only right after an
    accepted request.
  */
  lemma {:induction false} AttemptsStopAtAcceptance(modes: seq<Mode>, n: nat, answer: (nat, Call) -> bool)
    ensures var calls := Attempts(modes, n, answer);
      && |calls| <= |modes|
      && (forall k :: 0 <= k < |calls| ==> calls[k] == Apply(modes[k]))
      && (forall k :: 0 <= k < |calls| - 1 ==> !answer(n + k, calls[k]))
      && (|calls| < |modes| ==> 0 < |calls| && answer(n + |calls| - 1, calls[|calls| - 1]))
    decreases |modes|
  {
    if modes != [] && !answer(n, Apply(modes[0])) {
      AttemptsStopAtAcceptance(modes[1..], n + 1, answer);
      var rest := Attempts(modes[1..], n + 1, answer);
      var calls := Attempts(modes, n, answer);
      assert calls == [Apply(modes[0])] + rest;
      forall k | 1 <= k < |calls| ensures calls[k] == Apply(modes[k]) {
        assert calls[k] == rest[k - 1];
      }
      forall k | 1 <= k < |calls| - 1 ensures !answer(n + k, calls[k]) {
        assert calls[k] == rest[k - 1];
      }
    }
  }

  /** The last of a run of attempts was accepted. */
  predicate Accepted(calls: seq<Call>, n: nat, answer: (nat, Call) -> bool)
  {
    0 < |calls| && answer(n + |calls| - 1, calls[|calls| - 1])
  }

  /** Once an exception is raised, the rest of the scan does nothing. */
  lemma {:induction false} ScanAfterRaise(games: seq<GameConfig>, procs: seq<string>, s: Scan, n0: nat, answer: (nat, Call) -> bool, read: Reader)
    requires s.status.Raised?
    ensures ScanFrom(games, procs, s, n0, answer, read) == s
    decreases |games|
  {
    if games != [] {
      ScanAfterRaise(games[1..], procs, s, n0, answer, read);
    }
  }

  /** With a change in force, the scan makes no call and keeps the flag. */
  lemma {:induction false} ScanWhileChanged(games: seq<GameConfig>, procs: seq<string>, s: Scan, n0: nat, answer: (nat, Call) -> bool, read: Reader)
    requires s.changed
    ensures var r := ScanFrom(games, procs, s, n0, answer, read);
      r.changed && r.calls == s.calls
      && (r.status.Completed? && s.status.Completed? ==> (r.running <==> s.running || AnyRunning(games, procs)))
    decreases |games|
  {
    if games != [] {
      var v := Visit(s, games[0], procs, n0, answer, read);
      ScanWhileChanged(games[1..], procs, v, n0, answer, read);
      if v.status.Raised? {
        ScanAfterRaise(games[1..], procs, v, n0, answer, read);
      }
      TailRunning(games, procs);
    }
  }

  /** A game list runs something exactly when its head or its tail does. */
  lemma TailRunning(games: seq<GameConfig>, procs: seq<string>)
    requires games != []
    ensures AnyRunning(games, procs) <==> Running(games[0], procs) || AnyRunning(games[1..], procs)
  {
    if AnyRunning(games[1..], procs) {
      var i :| 0 <= i < |games| - 1 && Running(games[1..][i], procs);
      assert Running(games[i + 1], procs);
    }
    if AnyRunning(games, procs) && !Running(games[0], procs) {
      var i :| 0 <= i < |games| && Running(games[i], procs);
      assert games[1..][i - 1] == games[i];
    }
  }

  /** The scan makes only `Apply` calls, appended after the ones already made. */
  lemma {:induction false} ScanOnlyApplies(games: seq<GameConfig>, procs: seq<string>, s: Scan, n0: nat, answer: (nat, Call) -> bool, read: Reader)
    ensures var r := ScanFrom(games, procs, s, n0, answer, read);
      |s.calls| <= |r.calls| && r.calls[..|s.calls|] == s.calls
      && forall k :: |s.calls| <= k < |r.calls| ==> r.calls[k].Apply?
    decreases |games|
  {
    if games != [] {
      var v := Visit(s, games[0], procs, n0, answer, read);
      ScanOnlyApplies(games[1..], procs, v, n0, answer, read);
      var r := ScanFrom(games, procs, s, n0, answer, read);
      assert r.calls[..|s.calls|] == r.calls[..|v.calls|][..|s.calls|];
    }
  }

  /** The scan raises exactly when some running game's resolution string cannot be read. */
  lemma {:induction false} ScanRaises(games: seq<GameConfig>, procs: seq<string>, s: Scan, n0: nat, answer: (nat, Call) -> bool, read: Reader)
    requires s.status.Completed?
    ensures ScanFrom(games, procs, s, n0, answer, read).status.Raised? <==> !ReadableWhenRunning(games, procs, read)
    decreases |games|
  {
    if games != [] {
      var v := Visit(s, games[0], procs, n0, answer, read);
      if v.status.Raised? {
        ScanAfterRaise(games[1..], procs, v, n0, answer, read);
        assert Running(games[0], procs) && read(games[0].resolution).Failure?;
      } else {
        ScanRaises(games[1..], procs, v, n0, answer, read);
        ReadableTail(games, procs, read);
      }
    }
  }

  lemma ReadableTail(games: seq<GameConfig>, procs: seq<string>, read: Reader)
    requires games != []
    requires Running(games[0], procs) ==> read(games[0].resolution).Success?
    ensures ReadableWhenRunning(games, procs, read) <==> ReadableWhenRunning(games[1..], procs, read)
  {
    if ReadableWhenRunning(games[1..], procs, read) {
      forall i | 1 <= i < |games| && Running(games[i], procs)
        ensures read(games[i].resolution).Success?
      {
        assert games[1..][i - 1] == games[i];
      }
    }
  }

  /**
    From a state with no change in force, the scan asks for the running
    games' modes in order until the backend accepts one, and the flag ends
    up saying whether it did.
  */
  lemma {:induction false} ScanFromUnchanged(games: seq<GameConfig>, procs: seq<string>, s: Scan, n0: nat, answer: (nat, Call) -> bool, read: Reader)
    requires !s.changed && s.status.Completed?
    requires ReadableWhenRunning(games, procs, read)
    ensures UnchangedOutcome(games, procs, s, n0, answer, read)
    decreases |games|
  {
    if games == [] {
      assert s.calls + [] == s.calls;
    } else {
      var v := Visit(s, games[0], procs, n0, answer, read);
      var rest := games[1..];
      ReadableTail(games, procs, read);
      TailRunning(games, procs);
      if !Running(games[0], procs) {
        ScanFromUnchanged(rest, procs, v, n0, answer, read);
      } else if v.changed {
        ScanWhileChanged(rest, procs, v, n0, answer, read);
        ScanRaises(rest, procs, v, n0, answer, read);
      } else {
        ScanFromUnchanged(rest, procs, v, n0, answer, read);
        RefusedStep(games, procs, s, n0, answer, read);
      }
    }
  }

  /** What `ScanFromUnchanged` establishes about the rest of the scan from `s`. */
  predicate UnchangedOutcome(games: seq<GameConfig>, procs: seq<string>, s: Scan, n0: nat, answer: (nat, Call) -> bool, read: Reader)
    requires ReadableWhenRunning(games, procs, read)
  {
    var r := ScanFrom(games, procs, s, n0, answer, read);
    var tried := Attempts(RunningModes(games, procs, read), n0 + |s.calls|, answer);
    && r.status.Completed?
    && r.calls == s.calls + tried
    && r.changed == Accepted(tried, n0 + |s.calls|, answer)
    && (r.running <==> s.running || AnyRunning(games, procs))
  }

  /** A refused request for the first game's mode puts that request in front of the later ones. */
  lemma RefusedStep(games: seq<GameConfig>, procs: seq<string>, s: Scan, n0: nat, answer: (nat, Call) -> bool, read: Reader)
    requires games != [] && Running(games[0], procs) && ReadableWhenRunning(games, procs, read)
    requires !s.changed && s.status.Completed?
    requires ReadableWhenRunning(games[1..], procs, read)
    requires AnyRunning(games, procs)
    requires var v := Visit(s, games[0], procs, n0, answer, read);
      !v.changed && UnchangedOutcome(games[1..], procs, v, n0, answer, read)
    ensures UnchangedOutcome(games, procs, s, n0, answer, read)
  {
    var n := n0 + |s.calls|;
    var m := read(games[0].resolution).value;
    var v := VisitAsks(s, games[0], procs, n0, answer, read);
    var rest := games[1..];
    var later := Attempts(RunningModes(rest, procs, read), n + 1, answer);
    RunningModesCons(games, procs, read);
    assert Attempts(RunningModes(games, procs, read), n, answer) == [Apply(m)] + later;
    var r := ScanFrom(rest, procs, v, n0, answer, read);
    assert ScanFrom(games, procs, s, n0, answer, read) == r;
    assert r.calls == (s.calls + [Apply(m)]) + later;
    assert r.calls == s.calls + ([Apply(m)] + later);
    AcceptedAfterRefusal(Apply(m), later, n, answer);
  }

  /** Visiting a running, readable game with no change in force asks for its mode. */
  lemma VisitAsks(s: Scan, g: GameConfig, procs: seq<string>, n0: nat, answer: (nat, Call) -> bool, read: Reader) returns (v: Scan)
    requires Running(g, procs) && read(g.resolution).Success?
    requires !s.changed && s.status.Completed?
    ensures var call := Apply(read(g.resolution).value);
      v == Visit(s, g, procs, n0, answer, read) == Scan(answer(n0 + |s.calls|, call), true, s.calls + [call], Completed)
  {
    v := Visit(s, g, procs, n0, answer, read);
  }

  /** The running modes of a list whose head runs start with the head's mode. */
  lemma RunningModesCons(games: seq<GameConfig>, procs: seq<string>, read: Reader)
    requires games != [] && Running(games[0], procs) && ReadableWhenRunning(games, procs, read)
    ensures ReadableWhenRunning(games[1..], procs, read)
    ensures RunningModes(games, procs, read) == [read(games[0].resolution).value] + RunningModes(games[1..], procs, read)
  {
    ReadableTail(games, procs, read);
  }

  lemma AcceptedAfterRefusal(c: Call, later: seq<Call>, n: nat, answer: (nat, Call) -> bool)
    requires !answer(n, c)
    ensures Accepted([c] + later, n, answer) == Accepted(later, n + 1, answer)
  {
    if later != [] {
      assert ([c] + later)[|later|] == later[|later| - 1];
    }
  }

  /**
    A tick with no change in force asks for the first running game's mode,
    then each further running game's mode while the backend refuses, and
    never resets; the flag ends up set exactly when a request was accepted.
    With no monitored game running it makes no call at all.
  */
  lemma TickUnchanged(games: seq<GameConfig>, procs: seq<string>, n0: nat, answer: (nat, Call) -> bool, read: Reader)
    requires ReadableWhenRunning(games, procs, read)
    ensures var t := Tick(games, procs, false, n0, answer, read);
      var tried := Attempts(RunningModes(games, procs, read), n0, answer);
      && t.status == Completed
      && t.calls == tried
      && t.changed == Accepted(tried, n0, answer)
      && (!AnyRunning(games, procs) ==> t.calls == [] && !t.changed)
  {
    ScanFromUnchanged(games, procs, Scan(false, false, [], Completed), n0, answer, read);
  }

  /**
    A tick with a change in force never asks for a mode. It keeps the change
    while a monitored game is running, and otherwise resets once and clears
    the flag, whatever the backend answers to the reset.
  */
  lemma TickChanged(games: seq<GameConfig>, procs: seq<string>, n0: nat, answer: (nat, Call) -> bool, read: Reader)
    ensures var t := Tick(games, procs, true, n0, answer, read);
      && t.calls == (if AnyRunning(games, procs) then [] else [Reset])
      && t.changed == AnyRunning(games, procs)
  {
    var s := Scan(true, false, [], Completed);
    ScanWhileChanged(games, procs, s, n0, answer, read);
    var r := ScanFrom(games, procs, s, n0, answer, read);
    if r.status.Raised? {
      ScanRaises(games, procs, s, n0, answer, read);
      var i :| 0 <= i < |games| && Running(games[i], procs) && read(games[i].resolution).Failure?;
    }
  }

  /**
    The tick resets exactly when a change was in force and no monitored game
    is running; a reset is its only call and leaves the flag clear.
  */
  lemma TickResets(games: seq<GameConfig>, procs: seq<string>, changed: bool, n0: nat, answer: (nat, Call) -> bool, read: Reader)
    ensures var t := Tick(games, procs, changed, n0, answer, read);
      && (Reset in t.calls <==> changed && !AnyRunning(games, procs))
      && (Reset in t.calls ==> t.calls == [Reset] && !t.changed)
  {
    if changed {
      TickChanged(games, procs, n0, answer, read);
    } else {
      var s := Scan(false, false, [], Completed);
      ScanOnlyApplies(games, procs, s, n0, answer, read);
      var r := ScanFrom(games, procs, s, n0, answer, read);
      assert r.calls[..0] == [];
      if r.status.Completed? && !r.running && r.changed {
        ScanRunningNeedsCall(games, procs, s, n0, answer, read);
      }
    }
  }

  /** Starting unset, the flag is set only by an accepted call, and an accepted call means a game ran. */
  lemma {:induction false} ScanRunningNeedsCall(games: seq<GameConfig>, procs: seq<string>, s: Scan, n0: nat, answer: (nat, Call) -> bool, read: Reader)
    requires s.changed ==> s.running
    ensures var r := ScanFrom(games, procs, s, n0, answer, read); r.changed ==> r.running
    decreases |games|
  {
    if games != [] {
      ScanRunningNeedsCall(games[1..], procs, Visit(s, games[0], procs, n0, answer, read), n0, answer, read);
    }
  }

  /** A tick raises exactly when a running game's resolution string cannot be read, and then makes no reset. */
  lemma TickRaises(games: seq<GameConfig>, procs: seq<string>, changed: bool, n0: nat, answer: (nat, Call) -> bool, read: Reader)
    ensures var t := Tick(games, procs, changed, n0, answer, read);
      && (t.status.Raised? <==> !ReadableWhenRunning(games, procs, read))
      && (t.status.Raised? ==> Reset !in t.calls)
  {
    var s := Scan(changed, false, [], Completed);
    ScanRaises(games, procs, s, n0, answer, read);
    ScanOnlyApplies(games, procs, s, n0, answer, read);
    var r := ScanFrom(games, procs, s, n0, answer, read);
    assert r.calls[..0] == [];
    forall k | 0 <= k < |r.calls| ensures r.calls[k] != Reset {
    }
  }

  /**
    A refused request is made again on the next tick: when the first tick
    ends with no change in force although a game runs, the next tick over
    the same processes starts with the same request.
  */
  lemma RetryAfterRefusal(games: seq<GameConfig>, procs: seq<string>, n0: nat, answer: (nat, Call) -> bool, read: Reader)
    requires ReadableWhenRunning(games, procs, read) && AnyRunning(games, procs)
    ensures var first := Tick(games, procs, false, n0, answer, read);
      !first.changed ==>
        var second := Tick(games, procs, first.changed, n0 + |first.calls|, answer, read);
        0 < |first.calls| && 0 < |second.calls| && second.calls[0] == first.calls[0]
  {
    var first := Tick(games, procs, false, n0, answer, read);
    var _ := RunningModesFirst(games, procs, read);
    TickUnchanged(games, procs, n0, answer, read);
    TickUnchanged(games, procs, n0 + |first.calls|, answer, read);
  }

  /**
    A run of ticks, one per process snapshot. It stops at a tick that
    raises; `status` and `running` describe the last tick performed, and
    `calls` collects the calls of all of them.
  */
  function Run(games: seq<GameConfig>, snapshots: seq<seq<string>>, changed: bool, n0: nat, answer: (nat, Call) -> bool, read: Reader): Scan
    decreases |snapshots|
  {
    if snapshots == [] then Scan(changed, false, [], Completed)
    else
      var t := Tick(games, snapshots[0], changed, n0, answer, read);
      if t.status.Raised? then t
      else
        var rest := Run(games, snapshots[1..], t.changed, n0 + |t.calls|, answer, read);
        rest.(calls := t.calls + rest.calls)
  }

  /** While no monitored game runs and no change is in force, ticking does nothing. */
  lemma {:induction false} IdleRunIsQuiet(games: seq<GameConfig>, snapshots: seq<seq<string>>, n0: nat, answer: (nat, Call) -> bool, read: Reader)
    requires forall k :: 0 <= k < |snapshots| ==> !AnyRunning(games, snapshots[k])
    ensures Run(games, snapshots, false, n0, answer, read).calls == []
    ensures !Run(games, snapshots, false, n0, answer, read).changed
    decreases |snapshots|
  {
    if snapshots != [] {
      var procs := snapshots[0];
      assert !AnyRunning(games, procs);
      assert ReadableWhenRunning(games, procs, read) by {
        forall i | 0 <= i < |games| ensures !Running(games[i], procs) {
        }
      }
      TickUnchanged(games, procs, n0, answer, read);
      var t := Tick(games, procs, false, n0, answer, read);
      assert t.calls == [] && !t.changed && t.status.Completed?;
      IdleRunIsQuiet(games, snapshots[1..], n0, answer, read);
      var rest := Run(games, snapshots[1..], false, n0, answer, read);
      assert Run(games, snapshots, false, n0, answer, read) == rest.(calls := t.calls + rest.calls);
    }
  }

  /** While a change is in force and some monitored game keeps running, ticking calls nothing and keeps it. */
  lemma {:induction false} SteadyRunIsQuiet(games: seq<GameConfig>, snapshots: seq<seq<string>>, n0: nat, answer: (nat, Call) -> bool, read: Reader)
    requires forall k :: 0 <= k < |snapshots| ==> AnyRunning(games, snapshots[k])
    ensures Run(games, snapshots, true, n0, answer, read).calls == []
    ensures Run(games, snapshots, true, n0, answer, read).changed
    decreases |snapshots|
  {
    if snapshots != [] {
      TickChanged(games, snapshots[0], n0, answer, read);
      var t := Tick(games, snapshots[0], true, n0, answer, read);
      if t.status.Completed? {
        SteadyRunIsQuiet(games, snapshots[1..], n0, answer, read);
      }
    }
  }

  /**
    A game that starts and keeps running is switched to its mode once: if
    the backend accepts the first request, the whole run makes exactly that
    one call and ends with the change in force.
  */
  lemma AppliedOnceWhileRunning(games: seq<GameConfig>, snapshots: seq<seq<string>>, procs: seq<string>, n0: nat, answer: (nat, Call) -> bool, read: Reader)
    requires 0 < |snapshots| && forall k :: 0 <= k < |snapshots| ==> snapshots[k] == procs
    requires ReadableWhenRunning(games, procs, read) && RunningModes(games, procs, read) != []
    requires answer(n0, Apply(RunningModes(games, procs, read)[0]))
    ensures Run(games, snapshots, false, n0, answer, read).calls == [Apply(RunningModes(games, procs, read)[0])]
    ensures Run(games, snapshots, false, n0, answer, read).changed
  {
    var modes := RunningModes(games, procs, read);
    var _ := RunningModesFirst(games, procs, read);
    TickUnchanged(games, procs, n0, answer, read);
    var t := Tick(games, procs, false, n0, answer, read);
    assert Attempts(modes, n0, answer) == [Apply(modes[0])];
    assert t.calls == [Apply(modes[0])] && t.changed && t.status.Completed?;
    SteadyRunIsQuiet(games, snapshots[1..], n0 + 1, answer, read);
    var rest := Run(games, snapshots[1..], true, n0 + 1, answer, read);
    assert Run(games, snapshots, false, n0, answer, read) == rest.(calls := t.calls + rest.calls);
  }

  /**
    When the monitored game exits while its change is in force, the next
    tick resets once and the ticks after it stay quiet.
  */
  lemma RevertedOnceAfterExit(games: seq<GameConfig>, snapshots: seq<seq<string>>, n0: nat, answer: (nat, Call) -> bool, read: Reader)
    requires 0 < |snapshots|
    requires forall k :: 0 <= k < |snapshots| ==> !AnyRunning(games, snapshots[k])
    ensures Run(games, snapshots, true, n0, answer, read).calls == [Reset]
    ensures !Run(games, snapshots, true, n0, answer, read).changed
  {
    TickChanged(games, snapshots[0], n0, answer, read);
    IdleRunIsQuiet(games, snapshots[1..], n0 + 1, answer, read);
  }
}
