/** The asynchronous client's command queue: MQTTAsync_addCommand, the choice made by MQTTAsync_processCommand, and
    the removal of a client's commands. */
module Scheduler {

  const MAX_MSG_ID := 65535

  datatype Kind = Connect | Disconnect(internal: bool) | Publish(qos: int) | Subscribe | Unsubscribe

  /** A queued command. The serial number is not in the program: it tells commands apart. */
  datatype Command = Command(client: int, kind: Kind, serial: nat)

  /** What the choice looks at in a client. */
  datatype Status = Status(v5: bool, connected: bool, settled: bool, clear: bool, inflight: nat, maxInflight: int)

  /** CONNECT and internal DISCONNECT jump the queue; the others are ordinary. */
  predicate Ordinary(c: Command) {
    !(c.kind.Connect? || (c.kind.Disconnect? && c.kind.internal))
  }

  predicate NeedsId(k: Kind) {
    k.Publish? || k.Subscribe? || k.Unsubscribe?
  }

  predicate Limited(k: Kind) {
    (k.Publish? && k.qos > 0) || k.Subscribe? || k.Unsubscribe?
  }

  /** May the command be dispatched now? */
  predicate Eligible(c: Command, s: Status) {
    && (c.kind.Connect? || c.kind.Disconnect? || (s.connected && s.settled && s.clear))
    && !(NeedsId(c.kind) && s.inflight >= MAX_MSG_ID - 1)
    && !(s.v5 && Limited(c.kind) && s.inflight >= s.maxInflight)
  }

  /** The command is its client's earliest. */
  predicate Earliest(cs: seq<Command>, i: int)
    requires 0 <= i < |cs|
  {
    forall j :: 0 <= j < i ==> cs[j].client != cs[i].client
  }

  /** The commands of one client that were not put at the head. */
  function OrdinaryOf(cs: seq<Command>, client: int): seq<Command> {
    if |cs| == 0 then []
    else (if cs[0].client == client && Ordinary(cs[0]) then [cs[0]] else []) + OrdinaryOf(cs[1..], client)
  }

  /** The commands of the other clients. */
  function Others(cs: seq<Command>, client: int): seq<Command> {
    if |cs| == 0 then []
    else (if cs[0].client == client then [] else [cs[0]]) + Others(cs[1..], client)
  }

  lemma {:induction false} OrdinaryAppend(a: seq<Command>, b: seq<Command>, client: int)
    ensures OrdinaryOf(a + b, client) == OrdinaryOf(a, client) + OrdinaryOf(b, client)
  {
    if |a| == 0 {
      assert a + b == b;
    } else {
      assert (a + b)[1..] == a[1..] + b;
      OrdinaryAppend(a[1..], b, client);
    }
  }

  lemma {:induction false} OthersAppend(a: seq<Command>, b: seq<Command>, client: int)
    ensures Others(a + b, client) == Others(a, client) + Others(b, client)
  {
    if |a| == 0 {
      assert a + b == b;
    } else {
      assert (a + b)[1..] == a[1..] + b;
      OthersAppend(a[1..], b, client);
    }
  }

  lemma OrdinaryOne(c: Command, client: int)
    ensures OrdinaryOf([c], client) == if c.client == client && Ordinary(c) then [c] else []
  {
    assert [c][1..] == [];
  }

  lemma {:induction false} NoneOf(cs: seq<Command>, client: int)
    requires forall i :: 0 <= i < |cs| ==> cs[i].client != client
    ensures OrdinaryOf(cs, client) == []
  {
    if |cs| > 0 {
      NoneOf(cs[1..], client);
    }
  }

  /** Removing a client's commands leaves the others' in order. */
  lemma {:induction false} OthersKeep(cs: seq<Command>, client: int, o: int)
    ensures OrdinaryOf(Others(cs, client), o) == if o == client then [] else OrdinaryOf(cs, o)
  {
    if |cs| > 0 {
      OthersKeep(cs[1..], client, o);
      assert [] + Others(cs[1..], client) == Others(cs[1..], client);
      if cs[0].client != client {
        OrdinaryAppend([cs[0]], Others(cs[1..], client), o);
        OrdinaryOne(cs[0], o);
      }
    }
  }

  lemma OrdinaryCons(c: Command, cs: seq<Command>, client: int)
    requires !Ordinary(c)
    ensures OrdinaryOf([c] + cs, client) == OrdinaryOf(cs, client)
  {
    assert ([c] + cs)[1..] == cs;
  }

  lemma OrdinarySnoc(d: seq<Command>, cs: seq<Command>, c: Command, client: int)
    requires Ordinary(c)
    ensures OrdinaryOf(d, client) + OrdinaryOf(cs + [c], client)
         == OrdinaryOf(d, client) + OrdinaryOf(cs, client) + if c.client == client then [c] else []
  {
    OrdinaryAppend(cs, [c], client);
    OrdinaryOne(c, client);
  }

  function WithoutAt(cs: seq<Command>, k: int): seq<Command>
    requires 0 <= k < |cs|
  {
    cs[..k] + cs[k + 1..]
  }

  /** Taking out a client's earliest command takes the first of its ordinary commands, if it is one. */
  lemma EarliestFirst(cs: seq<Command>, k: int, o: int)
    requires 0 <= k < |cs| && Earliest(cs, k)
    ensures OrdinaryOf(cs, o) == OrdinaryOf([cs[k]], o) + OrdinaryOf(WithoutAt(cs, k), o)
  {
    hide OrdinaryOf;
    var a, b := cs[..k], cs[k + 1..];
    assert cs == a + ([cs[k]] + b);
    OrdinaryAppend(a, [cs[k]] + b, o);
    OrdinaryAppend([cs[k]], b, o);
    OrdinaryAppend(a, b, o);
    OrdinaryOne(cs[k], o);
    if o == cs[k].client {
      NoneOf(a, o);
    }
  }

  lemma Dispatched(d: seq<Command>, cs: seq<Command>, k: int, o: int)
    requires 0 <= k < |cs| && Earliest(cs, k)
    ensures OrdinaryOf(d + [cs[k]], o) + OrdinaryOf(WithoutAt(cs, k), o) == OrdinaryOf(d, o) + OrdinaryOf(cs, o)
  {
    hide OrdinaryOf;
    EarliestFirst(cs, k, o);
    OrdinaryAppend(d, [cs[k]], o);
  }

  // ----- what each operation does -----

  /** The queue, the number of outbound messages of each client, and every command dispatched so far. */
  datatype State = State(commands: seq<Command>, inflight: map<int, nat>, dispatched: seq<Command>) {
    function Inflight(client: int): nat {
      if client in inflight then inflight[client] else 0
    }
  }

  /** MQTTAsync_addCommand. */
  function Added(cs: seq<Command>, cmd: Command): seq<Command> {
    if Ordinary(cmd) then cs + [cmd] else if Repeats(cs, cmd) then cs else [cmd] + cs
  }

  /** The command is its client's earliest and may be dispatched. */
  predicate Ready(cs: seq<Command>, status: int -> Status, i: int)
    requires 0 <= i < |cs|
  {
    Earliest(cs, i) && Eligible(cs[i], status(cs[i].client))
  }

  /** The first command from position k on that is ready, or -1. */
  function FirstReady(cs: seq<Command>, status: int -> Status, k: nat): (r: int)
    requires k <= |cs|
    ensures r == -1 || k <= r < |cs|
    ensures r >= 0 ==> Ready(cs, status, r)
    ensures forall i :: k <= i < (if r < 0 then |cs| else r) ==> !Ready(cs, status, i)
    decreases |cs| - k
  {
    if k == |cs| then -1 else if Ready(cs, status, k) then k else FirstReady(cs, status, k + 1)
  }

  /** MQTTAsync_processCommand: the first ready command is dispatched; a PUBLISH of QoS 1 or 2 adds an
      outbound message. */
  function Processed(s: State, status: int -> Status): State {
    var k := FirstReady(s.commands, status, 0);
    if k < 0 then s
    else
      var cmd := s.commands[k];
      State(
        WithoutAt(s.commands, k),
        if cmd.kind.Publish? && cmd.kind.qos > 0 then s.inflight[cmd.client := s.Inflight(cmd.client) + 1]
        else s.inflight,
        s.dispatched + [cmd])
  }

  /** An outbound exchange is over. */
  function Acknowledged(s: State, client: int): State {
    if s.Inflight(client) > 0 then s.(inflight := s.inflight[client := s.Inflight(client) - 1]) else s
  }

  // ----- runs -----

  /** What a client's connection allows at some moment. */
  datatype Net = Net(connected: bool, settled: bool, clear: bool)

  datatype Event = Add(cmd: Command) | Process(net: int -> Net) | Remove(client: int) | Acked(client: int)

  /** What does not change in a run: the clients' versions and their limits. */
  datatype Config = Config(v5: int -> bool, maxInflight: int -> int)

  /** What the choice sees of each client. */
  function Seen(s: State, config: Config, net: int -> Net): int -> Status {
    (c: int) => Status(config.v5(c), net(c).connected, net(c).settled, net(c).clear, s.Inflight(c),
        config.maxInflight(c))
  }

  function Step(s: State, config: Config, e: Event): State {
    match e
    case Add(cmd) => s.(commands := Added(s.commands, cmd))
    case Process(net) => Processed(s, Seen(s, config, net))
    case Remove(client) => s.(commands := Others(s.commands, client))
    case Acked(client) => Acknowledged(s, client)
  }

  function After(s: State, config: Config, events: seq<Event>): State {
    if |events| == 0 then s else Step(After(s, config, events[..|events| - 1]), config, events[|events| - 1])
  }

  /** The ordinary commands that a client has added, in that order, without those removed before their turn. */
  function Accepted(s: State, config: Config, events: seq<Event>, client: int): seq<Command> {
    if |events| == 0 then OrdinaryOf(s.dispatched, client) + OrdinaryOf(s.commands, client)
    else
      var before, e := events[..|events| - 1], events[|events| - 1];
      match e
      case Add(cmd) => Accepted(s, config, before, client) + if cmd.client == client && Ordinary(cmd) then [cmd] else []
      case Remove(c) =>
        if c == client then OrdinaryOf(After(s, config, before).dispatched, client)
        else Accepted(s, config, before, client)
      case _ => Accepted(s, config, before, client)
  }

  /** Over any run each client's ordinary commands have been dispatched in the order added, and the rest wait in that
      order. */
  lemma {:induction false} DispatchedInOrder(s: State, config: Config, events: seq<Event>, client: int)
    ensures var t := After(s, config, events);
      OrdinaryOf(t.dispatched, client) + OrdinaryOf(t.commands, client) == Accepted(s, config, events, client)
  {
    hide OrdinaryOf, Others, Earliest, Eligible;
    if |events| > 0 {
      var before := events[..|events| - 1];
      DispatchedInOrder(s, config, before, client);
      StepInOrder(After(s, config, before), config, events[|events| - 1], client);
    }
  }

  lemma StepInOrder(s: State, config: Config, e: Event, client: int)
    ensures var t := Step(s, config, e);
      OrdinaryOf(t.dispatched, client) + OrdinaryOf(t.commands, client) ==
      match e
      case Add(cmd) =>
        OrdinaryOf(s.dispatched, client) + OrdinaryOf(s.commands, client)
          + (if cmd.client == client && Ordinary(cmd) then [cmd] else [])
      case Remove(c) =>
        if c == client then OrdinaryOf(s.dispatched, client)
        else OrdinaryOf(s.dispatched, client) + OrdinaryOf(s.commands, client)
      case _ => OrdinaryOf(s.dispatched, client) + OrdinaryOf(s.commands, client)
  {
    hide OrdinaryOf, Others, Earliest, Eligible;
    var d, cs := OrdinaryOf(s.dispatched, client), OrdinaryOf(s.commands, client);
    match e {
      case Add(cmd) =>
        if Ordinary(cmd) {
          OrdinarySnoc(s.dispatched, s.commands, cmd, client);
        } else {
          OrdinaryCons(cmd, s.commands, client);
          assert d + cs + [] == d + cs;
        }
      case Process(net) =>
        var k := FirstReady(s.commands, Seen(s, config, net), 0);
        if k >= 0 { Dispatched(s.dispatched, s.commands, k, client); }
      case Remove(c) =>
        OthersKeep(s.commands, c, client);
        assert d + [] == d;
      case Acked(_) =>
    }
  }

  /** The commands of the Add events. */
  function CommandsOf(events: seq<Event>): seq<Command> {
    if |events| == 0 then []
    else CommandsOf(events[..|events| - 1]) + if events[|events| - 1].Add? then [events[|events| - 1].cmd] else []
  }

  /** Of a client that is not removed, they are simply those of the events. */
  lemma {:induction false} AcceptedAll(s: State, config: Config, events: seq<Event>, client: int)
    requires Event.Remove(client) !in events
    ensures Accepted(s, config, events, client) ==
      OrdinaryOf(s.dispatched, client) + OrdinaryOf(s.commands, client) + OrdinaryOf(CommandsOf(events), client)
  {
    hide OrdinaryOf, After;
    NoOrdinary(client);
    if |events| > 0 {
      var before, e := events[..|events| - 1], events[|events| - 1];
      assert e in events && forall x :: x in before ==> x in events;
      AcceptedAll(s, config, before, client);
      if e.Add? {
        OrdinaryAppend(CommandsOf(before), [e.cmd], client);
        OrdinaryOne(e.cmd, client);
      } else {
        assert CommandsOf(before) + [] == CommandsOf(before);
      }
    }
  }

  lemma NoOrdinary(client: int)
    ensures OrdinaryOf([], client) == []
  {
  }

  /** Over any run no client goes above its limits if it starts within them. */
  lemma {:induction false} WithinLimits(s: State, config: Config, events: seq<Event>, client: int)
    ensures var n, m := s.Inflight(client), After(s, config, events).Inflight(client);
      && (n < MAX_MSG_ID ==> m < MAX_MSG_ID)
      && (config.v5(client) && n <= config.maxInflight(client) ==> m <= config.maxInflight(client))
  {
    hide FirstReady, Earliest, Others;
    if |events| > 0 {
      var before := events[..|events| - 1];
      WithinLimits(s, config, before, client);
      var t := After(s, config, before);
      match events[|events| - 1] {
        case Process(net) =>
          ReadyIs(t.commands, Seen(t, config, net));
        case _ =>
      }
    }
  }

  /** A command is chosen exactly when some client's earliest may be dispatched. */
  lemma ChosenIfReady(cs: seq<Command>, status: int -> Status)
    ensures -1 <= FirstReady(cs, status, 0) < |cs|
    ensures FirstReady(cs, status, 0) >= 0 <==> exists i :: 0 <= i < |cs| && Ready(cs, status, i)
  {
    hide Ready;
  }

  lemma ReadyIs(cs: seq<Command>, status: int -> Status)
    ensures var k := FirstReady(cs, status, 0); k < 0 || (k < |cs| && Eligible(cs[k], status(cs[k].client)))
  {
  }

  /** What is left after a command is dispatched, and when none can be. */
  lemma ProcessedIs(s: State, status: int -> Status)
    ensures var k, t := FirstReady(s.commands, status, 0), Processed(s, status);
      if k < 0 then t == s
      else
        && t.commands == WithoutAt(s.commands, k) && t.dispatched == s.dispatched + [s.commands[k]]
        && t.inflight == var c := s.commands[k];
             if c.kind.Publish? && c.kind.qos > 0 then s.inflight[c.client := s.Inflight(c.client) + 1] else s.inflight
  {
  }

  class Queue {
    var commands: seq<Command>
    /** outboundMsgs->count, by client. */
    var inflight: map<int, nat>
    ghost var dispatched: seq<Command>

    constructor ()
      ensures Now() == State([], map[], [])
    {
      commands, inflight, dispatched := [], map[], [];
    }

    ghost function Now(): State
      reads this
    {
      State(commands, inflight, dispatched)
    }

    /** MQTTAsync_addCommand. */
    method AddCommand(cmd: Command)
      modifies this`commands
      ensures commands == Added(old(commands), cmd)
    {
      if !Ordinary(cmd) {
        if !Repeats(commands, cmd) {
          commands := [cmd] + commands;
        }
      } else {
        commands := commands + [cmd];
      }
    }

    /** The selection loop of MQTTAsync_processCommand, with its list of ignored clients, finds the first command that
        is its client's earliest and may be dispatched. */
    method Select(status: int -> Status) returns (k: int)
      ensures k == FirstReady(commands, status, 0)
    {
      var ignored: seq<int> := [];
      k := 0;
      while k < |commands|
        invariant 0 <= k <= |commands|
        invariant forall c :: c in ignored <==> exists j :: 0 <= j < k && commands[j].client == c
        invariant FirstReady(commands, status, k) == FirstReady(commands, status, 0)
      {
        var cmd := commands[k];
        if cmd.client !in ignored {
          if Eligible(cmd, status(cmd.client)) { return; }
          ignored := ignored + [cmd.client];
        }
        k := k + 1;
      }
      k := -1;
    }

    /** MQTTAsync_processCommand. A command is dispatched exactly when some client's earliest may be. */
    method ProcessCommand(status: int -> Status) returns (chosen: bool)
      modifies this
      ensures Now() == Processed(old(Now()), status)
      ensures chosen <==> exists i :: 0 <= i < |old(commands)| && Ready(old(commands), status, i)
    {
      hide Ready, FirstReady, WithoutAt, Processed;
      ChosenIfReady(commands, status);
      ProcessedIs(Now(), status);
      var k := Select(status);
      chosen := k >= 0;
      if chosen {
        var cmd := commands[k];
        if cmd.kind.Publish? && cmd.kind.qos > 0 {
          var n := if cmd.client in inflight then inflight[cmd.client] else 0;
          inflight := inflight[cmd.client := n + 1];
        }
        commands := WithoutAt(commands, k);
        dispatched := dispatched + [cmd];
      }
    }

    /** The second loop of MQTTAsync_removeResponsesAndCommands. */
    method RemoveCommands(client: int)
      modifies this`commands
      ensures commands == Others(old(commands), client)
    {
      hide Others;
      var k := 0;
      ghost var done := 0;
      ghost var all := commands;
      OthersNone(client);
      while k < |commands|
        invariant 0 <= k <= |commands| && 0 <= done <= |all|
        invariant commands[..k] == Others(all[..done], client) && commands[k..] == all[done..]
        decreases |commands| - k
      {
        OthersNext(all, done, client);
        assert commands[k] == commands[k..][0] == all[done];
        ghost var before := commands;
        if commands[k].client == client {
          commands := WithoutAt(commands, k);
          assert commands[..k] == before[..k] && commands[k..] == before[k..][1..];
        } else {
          k := k + 1;
          assert commands[..k] == before[..k - 1] + [all[done]] && commands[k..] == before[k - 1..][1..];
        }
        done := done + 1;
      }
      assert all[..done] == all && commands[..k] == commands;
    }

    /** An outbound exchange is over. */
    method Acknowledge(client: int)
      modifies this`inflight
      ensures Now() == Acknowledged(old(Now()), client)
    {
      if client in inflight && inflight[client] > 0 {
        inflight := inflight[client := inflight[client] - 1];
      }
    }

    /** Any run: it ends in the state that the events determine, each client's ordinary commands having been dispatched
        in the order added, and no client above its limits. */
    method Run(events: seq<Event>, config: Config)
      modifies this
      ensures Now() == After(old(Now()), config, events)
      ensures forall c :: OrdinaryOf(dispatched, c) <= Accepted(old(Now()), config, events, c)
      ensures forall c :: old(Now()).Inflight(c) < MAX_MSG_ID ==> Now().Inflight(c) < MAX_MSG_ID
      ensures forall c :: config.v5(c) && old(Now()).Inflight(c) <= config.maxInflight(c) ==>
        Now().Inflight(c) <= config.maxInflight(c)
    {
      hide OrdinaryOf, Eligible, Earliest, Accepted, Processed, Others, Added, Acknowledged, Ready;
      ghost var start := Now();
      for i := 0 to |events|
        invariant Now() == After(start, config, events[..i])
      {
        assert events[..i + 1][..i] == events[..i];
        match events[i] {
          case Add(cmd) => AddCommand(cmd);
          case Process(net) =>
            var now := inflight;
            var status := (c: int) => Status(config.v5(c), net(c).connected, net(c).settled, net(c).clear,
                if c in now then now[c] else 0, config.maxInflight(c));
            ghost var s := Now();
            forall c
              ensures status(c) == Seen(s, config, net)(c)
            {
            }
            SameChoice(s, status, Seen(s, config, net));
            var _ := ProcessCommand(status);
          case Remove(client) => RemoveCommands(client);
          case Acked(client) => Acknowledge(client);
        }
      }
      assert events[..|events|] == events;
      forall c
        ensures OrdinaryOf(dispatched, c) <= Accepted(start, config, events, c)
      {
        DispatchedInOrder(start, config, events, c);
      }
      forall c { WithinLimits(start, config, events, c); }
    }
  }

  /** The choice depends only on what it sees. */
  lemma SameChoice(s: State, a: int -> Status, b: int -> Status)
    requires forall c :: a(c) == b(c)
    ensures Processed(s, a) == Processed(s, b)
  {
    hide Earliest, Eligible;
    SameReady(s.commands, a, b, 0);
  }

  lemma {:induction false} SameReady(cs: seq<Command>, a: int -> Status, b: int -> Status, k: nat)
    requires k <= |cs| && forall c :: a(c) == b(c)
    ensures FirstReady(cs, a, k) == FirstReady(cs, b, k)
    decreases |cs| - k
  {
    hide Earliest, Eligible;
    if k < |cs| {
      SameReady(cs, a, b, k + 1);
    }
  }

  lemma OthersNone(client: int)
    ensures Others([], client) == []
  {
  }

  lemma OthersNext(cs: seq<Command>, i: int, client: int)
    requires 0 <= i < |cs|
    ensures Others(cs[..i + 1], client) == Others(cs[..i], client) + if cs[i].client == client then [] else [cs[i]]
  {
    assert cs[..i + 1] == cs[..i] + [cs[i]];
    OthersAppend(cs[..i], [cs[i]], client);
    assert [cs[i]][1..] == [];
  }

  /** The same kind of command for the same client is already at the head of the queue. */
  predicate Repeats(cs: seq<Command>, cmd: Command) {
    |cs| > 0 && cs[0].client == cmd.client && SameType(cs[0].kind, cmd.kind)
  }

  /** The comparison of command types in MQTTAsync_addCommand. */
  predicate SameType(a: Kind, b: Kind) {
    (a.Connect? && b.Connect?) || (a.Disconnect? && b.Disconnect?)
    || (a.Publish? && b.Publish?) || (a.Subscribe? && b.Subscribe?) || (a.Unsubscribe? && b.Unsubscribe?)
  }
}
