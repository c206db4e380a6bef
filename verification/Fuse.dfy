// The smart modularized fuse: currents reported by the modules, the margin each of them is given, and the
// overload protection (CommandHandler.cpp, CoreBridge.cpp).

module Fuse {
  import opened Bytes
  import opened Overload

  const MAX_MODULE_NUM := 20

  const CMD_DO_MODULE: byte := 0x44
  const CMD_REQ_DATA: byte := 0x45
  const CMD_UPDATE_DATA: byte := 0x55
  const DO_TURN_OFF: byte := 0x66
  const MODULE_CURRENT: byte := 0x62
  const MODULE_MCUB: byte := 0x63

  type word = x: int | 0 <= x < 0x1_0000

  datatype Module = Module(priority: byte, current: word, state: bool)

  /** What goes to the modules' bus: the port and the bytes. */
  datatype Message = Message(port: byte, payload: seq<byte>)

  function TurnOff(addr: byte): Message {
    Message(3, [CMD_DO_MODULE, addr, DO_TURN_OFF])
  }

  function RequestCurrents(): Message {
    Message(3, [CMD_REQ_DATA, MODULE_CURRENT])
  }

  /** The margin, to all modules at once. */
  function Broadcast(mcub: word): Message {
    Message(3, [CMD_UPDATE_DATA, MODULE_MCUB, 0, mcub % 256, mcub / 256])
  }

  predicate IsTurnOff(m: Message) {
    |m.payload| == 3 && m.payload[0] == CMD_DO_MODULE && m.payload[2] == DO_TURN_OFF
  }

  function TurnOffs(messages: seq<Message>): nat {
    if messages == [] then 0
    else TurnOffs(messages[..|messages| - 1]) + if IsTurnOff(messages[|messages| - 1]) then 1 else 0
  }

  lemma TurnOffsAppend(messages: seq<Message>, m: Message)
    ensures TurnOffs(messages + [m]) == TurnOffs(messages) + if IsTurnOff(m) then 1 else 0
  {
    assert (messages + [m])[..|messages|] == messages;
  }

  function Sum(modules: seq<Module>, n: nat): nat
    requires n <= |modules|
  {
    if n == 0 then 0 else Sum(modules, n - 1) + modules[n - 1].current
  }

  lemma {:induction false} SumAfterReport(modules: seq<Module>, n: nat, i: nat, value: word)
    requires n <= |modules| && i < |modules|
    ensures Sum(modules[i := modules[i].(current := value)], n) ==
      Sum(modules, n) + if i < n then value - modules[i].current else 0
  {
    if n > 0 {
      SumAfterReport(modules, n - 1, i, value);
    }
  }

  lemma {:induction false} SumOfSameCurrents(modules: seq<Module>, others: seq<Module>, n: nat)
    requires n <= |modules| && n <= |others|
    requires forall i :: 0 <= i < n ==> others[i].current == modules[i].current
    ensures Sum(others, n) == Sum(modules, n)
  {
    if n > 0 {
      SumOfSameCurrents(modules, others, n - 1);
    }
  }

  lemma {:induction false} SumOfZeros(modules: seq<Module>, n: nat)
    requires n <= |modules| && forall i :: 0 <= i < n ==> modules[i].current == 0
    ensures Sum(modules, n) == 0
  {
    if n > 0 {
      SumOfZeros(modules, n - 1);
    }
  }

  /** Of the modules that are on the one of greatest priority, and of those the last. */
  predicate IsPopTarget(modules: seq<Module>, n: nat, i: nat)
    requires n <= |modules|
  {
    && i < n && modules[i].state
    && forall j :: 0 <= j < n && modules[j].state ==>
      modules[j].priority < modules[i].priority || (modules[j].priority == modules[i].priority && j <= i)
  }

  predicate SomeOn(modules: seq<Module>, n: nat)
    requires n <= |modules|
  {
    exists i :: 0 <= i < n && modules[i].state
  }

  /** Who is turned off: by priority if that is on and decides, and else who was recorded. */
  predicate IsTarget(modules: seq<Module>, n: nat, enablePop: byte, recorded: byte, target: byte)
    requires n <= |modules|
  {
    if enablePop != 0 && SomeOn(modules, n) then target > 0 && IsPopTarget(modules, n, target - 1)
    else target == recorded
  }

  lemma TargetMeans(ms: seq<Module>, n: nat, enablePop: byte, recorded: byte, target: byte)
    requires n <= |ms| && IsTarget(ms, n, enablePop, recorded, target)
    ensures
      if enablePop != 0 && exists i :: 0 <= i < n && ms[i].state
      then
        && 1 <= target <= n && ms[target - 1].state
        && forall j :: 0 <= j < n && ms[j].state ==>
             var p := ms[target - 1].priority;
             ms[j].priority < p || (ms[j].priority == p && j < target)
      else target == recorded
  {}

  /** What a check queues. */
  function CheckMessages(overload: bool, before: bool, target: byte, due: bool): seq<Message> {
    if !overload then [] else if !before then [TurnOff(target)] else if due then [RequestCurrents()] else []
  }

  /** And the new margin, if there is one. */
  function WithMargin(messages: seq<Message>, defined: bool, mcub: word): seq<Message> {
    if defined then messages + [Broadcast(mcub)] else messages
  }

  /** The messages of a report, byte by byte. */
  lemma BytesOf(overload: bool, before: bool, target: byte, due: bool, defined: bool, mcub: word)
    ensures
      var checked := CheckMessages(overload, before, target, due);
      && checked == (if overload && !before then [Message(3, [0x44, target, 0x66])]
                     else if overload && due then [Message(3, [0x45, 0x62])]
                     else [])
      && WithMargin(checked, defined, mcub)
         == checked + (if defined then [Message(3, [0x55, 0x63, 0, mcub % 256, mcub / 256])] else [])
  {}

  lemma ThenMore(x: seq<Message>, y: seq<Message>, z: seq<Message>)
    ensures x + (y + z) == x + y + z
  {}

  lemma MarginIs(total: nat, n: nat, mcub: nat)
    requires IsMargin(total, n, mcub) && total <= 1500
    ensures total + n * mcub <= 1500 < total + n * (mcub + 1)
  {}

  lemma ThenMargin(before: seq<Message>, messages: seq<Message>, defined: bool, mcub: word)
    ensures before + messages + WithMargin([], defined, mcub) == before + WithMargin(messages, defined, mcub)
  {}

  /** The margin is a fair share of what is left, and none of it is kept back. */
  predicate IsMargin(total: nat, n: nat, mcub: nat) {
    if total <= MAX_CURRENT then total + n * mcub <= MAX_CURRENT < total + n * (mcub + 1) else mcub == 0
  }

  lemma MarginBound(total: nat, n: nat, mcub: nat)
    requires IsMargin(total, n, mcub) && n > 0
    ensures mcub <= if total <= MAX_CURRENT then MAX_CURRENT - total else 0
  {
    MarginTimes(n, mcub);
  }

  lemma MarginTimes(n: nat, mcub: nat)
    requires n > 0
    ensures n * mcub >= mcub
  {}

  datatype Action =
    | Link(infos: seq<(byte, bool)>)
    | Remove
    | Report(addr: byte, lo: byte, hi: byte, due: bool)
    | Switch(addr: byte, state: byte)
    | Priority(addr: byte, value: byte)
    | Pop(state: byte)
    | Sent

  /** The modules, and how many of them are linked: what the actions do to them, and to the sum of currents. */
  datatype Bus = Bus(modules: seq<Module>, n: nat) {
    predicate Sized() {
      n <= |modules| == MAX_MODULE_NUM
    }

    /** Addresses behind the table, and a report when nothing is linked. */
    predicate Undefined(a: Action) {
      match a
      case Link(infos) => !(1 <= |infos| <= MAX_MODULE_NUM)
      case Report(addr, _, _, _) => n == 0 || !(1 <= addr <= MAX_MODULE_NUM)
      case Switch(addr, _) => !(1 <= addr <= MAX_MODULE_NUM)
      case Priority(addr, _) => !(1 <= addr <= MAX_MODULE_NUM)
      case _ => false
    }

    function After(a: Action): (b: Bus)
      requires Sized()
      ensures b.Sized()
    {
      if Undefined(a) then this
      else
        match a
        case Link(infos) =>
          Bus(seq(|infos|, i requires 0 <= i < |infos| => Module(infos[i].0, 0, infos[i].1)) + modules[|infos|..],
              |infos|)
        case Remove => Bus(modules, 0)
        case Report(addr, lo, hi, _) => With(addr - 1, modules[addr - 1].(current := lo + 256 * hi))
        case Switch(addr, state) => With(addr - 1, modules[addr - 1].(state := state != 0))
        case Priority(addr, value) => With(addr - 1, modules[addr - 1].(priority := value))
        case _ => this
    }

    function With(i: nat, m: Module): Bus
      requires Sized() && i < |modules|
    {
      Bus(modules[i := m], n)
    }

    function EventOf(a: Action): seq<Event>
      requires Sized()
    {
      match a
      case Link(_) => [Cleared]
      case Remove => [Cleared]
      case Report(_, _, _, _) => [Reported(Sum(After(a).modules, After(a).n))]
      case _ => []
    }

    function AfterAll(actions: seq<Action>): (b: Bus)
      requires Sized()
      ensures b.Sized()
    {
      if actions == [] then this
      else AfterAll(actions[..|actions| - 1]).After(actions[|actions| - 1])
    }

    function Events(actions: seq<Action>): seq<Event>
      requires Sized()
    {
      if actions == [] then []
      else
        var before := actions[..|actions| - 1];
        Events(before) + AfterAll(before).EventOf(actions[|actions| - 1])
    }

    lemma Nothing()
      requires Sized()
      ensures AfterAll([]) == this && Events([]) == []
    {}

    lemma OneMore(actions: seq<Action>, k: nat)
      requires Sized() && k < |actions|
      ensures AfterAll(actions[..k + 1]) == AfterAll(actions[..k]).After(actions[k])
      ensures Events(actions[..k + 1]) == Events(actions[..k]) + AfterAll(actions[..k]).EventOf(actions[k])
    {
      assert actions[..k + 1][..k] == actions[..k];
    }
  }

  class CoreBridge {
    const modules: array<Module>
    var numModules: byte
    var sumCurrent: word
    /** How much more each module may draw at once. */
    var mcub: word
    var overloadTriggeredAddr: byte
    var enablePop: byte
    /** The latch of overloadProtectionCheck. */
    var emergTriggered: bool
    var queue: seq<Message>
    /** All messages ever queued, and the history of the sum. */
    ghost var pushed: seq<Message>
    ghost var history: seq<Event>

    ghost predicate Valid()
      reads this, modules
    {
      && modules.Length == MAX_MODULE_NUM && numModules <= MAX_MODULE_NUM
      && MarginValid() && LatchValid() && TurnOffsValid() && QueueValid()
    }

    /** What is in the queue is the end of what was pushed. */
    ghost predicate QueueValid()
      reads this`queue, this`pushed
    {
      |queue| <= |pushed| && queue == pushed[|pushed| - |queue|..]
    }

    function Total(): nat
      reads this`numModules, modules
      requires numModules <= modules.Length
    {
      Sum(modules[..], numModules)
    }

    /** The margin never exceeds what is left. */
    ghost predicate MarginValid()
      reads this`mcub, this`numModules, modules
      requires numModules <= modules.Length
    {
      mcub <= if Total() <= MAX_CURRENT then MAX_CURRENT - Total() else 0
    }

    /** Latch and sum are those of the history. */
    ghost predicate LatchValid()
      reads this`emergTriggered, this`history, this`numModules, modules
      requires numModules <= modules.Length
    {
      emergTriggered == Latched(history) && Total() == SumAfter(history) && Plausible(history)
    }

    /** And so are the turn-offs. */
    ghost predicate TurnOffsValid()
      reads this`pushed, this`history
    {
      TurnOffs(pushed) == Fired(history)
    }

    constructor ()
      ensures Valid() && fresh(modules) && numModules == 0 && pushed == [] && history == []
    {
      modules := new Module[MAX_MODULE_NUM](_ => Module(0, 0, false));
      numModules, sumCurrent, mcub, overloadTriggeredAddr, enablePop := 0, 0, 0, 0, 0;
      emergTriggered, queue, pushed, history := false, [], [], [];
    }

    method Push(m: Message)
      requires QueueValid()
      modifies this`queue, this`pushed
      ensures QueueValid()
      ensures queue == old(queue) + [m] && pushed == old(pushed) + [m]
      ensures TurnOffs(pushed) == TurnOffs(old(pushed)) + if IsTurnOff(m) then 1 else 0
    {
      TurnOffsAppend(pushed, m);
      queue, pushed := queue + [m], pushed + [m];
    }

    /** uartTransmit takes the oldest message. */
    method Transmit() returns (m: Option<Message>)
      requires Valid()
      modifies this`queue
      ensures Valid() && m.Some? == (old(queue) != [])
      ensures m.Some? ==> old(queue) == [m.value] + queue
    {
      if queue == [] {
        return None;
      }
      m := Some(queue[0]);
      queue := queue[1..];
    }

    /** doModulesAction */
    method DoModulesAction(addrs: seq<byte>, actions: seq<byte>)
      requires |addrs| == |actions| < 128
      requires QueueValid()
      modifies this`queue, this`pushed
      ensures QueueValid()
      ensures |pushed| == |old(pushed)| + 1 && pushed[..|old(pushed)|] == old(pushed)
      ensures var m := pushed[|old(pushed)|];
        && m.port == 3 && |m.payload| == 2 * |addrs| + 1 && m.payload[0] == CMD_DO_MODULE
        && forall i :: 0 <= i < |addrs| ==> m.payload[2 * i + 1] == addrs[i] && m.payload[2 * i + 2] == actions[i]
      ensures TurnOffs(pushed) == TurnOffs(old(pushed)) + if IsTurnOff(pushed[|old(pushed)|]) then 1 else 0
    {
      var p := new byte[2 * |addrs| + 1](_ => 0);
      p[0] := CMD_DO_MODULE;
      for i := 0 to |addrs|
        modifies p
        invariant p[0] == CMD_DO_MODULE
        invariant forall j :: 0 <= j < i ==> p[2 * j + 1] == addrs[j] && p[2 * j + 2] == actions[j]
      {
        p[2 * i + 1], p[2 * i + 2] := addrs[i], actions[i];
      }
      Push(Message(3, p[..]));
    }

    /** overloadProtectionCheck. `due` says that a second has passed since currents were last asked for. */
    method OverloadProtectionCheck(due: bool)
      requires modules.Length == MAX_MODULE_NUM && numModules <= MAX_MODULE_NUM && QueueValid()
      modifies this`queue, this`pushed, this`emergTriggered, this`overloadTriggeredAddr
      ensures QueueValid() && emergTriggered == (sumCurrent > MAX_CURRENT)
      ensures TurnOffs(pushed) ==
        TurnOffs(old(pushed)) + if sumCurrent > MAX_CURRENT && !old(emergTriggered) then 1 else 0
      ensures pushed == old(pushed) +
        CheckMessages(sumCurrent > MAX_CURRENT, old(emergTriggered), overloadTriggeredAddr, due)
      // the bytes: turn off one module, or ask all for their currents
      ensures pushed == old(pushed) + (
          if sumCurrent > 1500 && !old(emergTriggered) then [Message(3, [0x44, overloadTriggeredAddr, 0x66])]
          else if sumCurrent > 1500 && due then [Message(3, [0x45, 0x62])]
          else [])
      // the last of the modules that are on with the greatest priority, if priorities are in use
      ensures
        var ms := modules[..];
        if sumCurrent > 1500 && !old(emergTriggered) && enablePop != 0
           && exists i :: 0 <= i < numModules && ms[i].state
        then
          && 1 <= overloadTriggeredAddr <= numModules && ms[overloadTriggeredAddr - 1].state
          && forall j :: 0 <= j < numModules && ms[j].state ==>
               var p := ms[overloadTriggeredAddr - 1].priority;
               ms[j].priority < p || (ms[j].priority == p && j < overloadTriggeredAddr)
        else overloadTriggeredAddr == old(overloadTriggeredAddr)
      ensures if sumCurrent > MAX_CURRENT && !old(emergTriggered)
        then IsTarget(modules[..], numModules, enablePop, old(overloadTriggeredAddr), overloadTriggeredAddr)
        else overloadTriggeredAddr == old(overloadTriggeredAddr)
    {
      hide IsPopTarget, SomeOn, TurnOffs;
      if sumCurrent > MAX_CURRENT {
        if !emergTriggered {
          if enablePop != 0 {
            SelectByPriority();
          }
          TargetMeans(modules[..], numModules, enablePop, old(overloadTriggeredAddr), overloadTriggeredAddr);
          TurnOffTarget();
          emergTriggered := true;
          return;
        }
        if due {
          Push(RequestCurrents());
        }
        return;
      }
      emergTriggered := false;
    }

    method SelectByPriority()
      requires modules.Length == MAX_MODULE_NUM && numModules <= MAX_MODULE_NUM
      modifies this`overloadTriggeredAddr
      ensures IsTarget(modules[..], numModules, 1, old(overloadTriggeredAddr), overloadTriggeredAddr)
    {
      var highestPriority := 0;
      for i := 0 to numModules
        invariant IsTarget(modules[..], i, 1, old(overloadTriggeredAddr), overloadTriggeredAddr)
        invariant highestPriority ==
          if SomeOn(modules[..], i) then modules[overloadTriggeredAddr - 1].priority else 0
      {
        if modules[i].state && modules[i].priority >= highestPriority {
          overloadTriggeredAddr := i + 1;
          highestPriority := modules[i].priority;
          assert modules[..][i].state;
        }
      }
    }

    method TurnOffTarget()
      requires QueueValid()
      modifies this`queue, this`pushed
      ensures QueueValid() && pushed == old(pushed) + [TurnOff(overloadTriggeredAddr)]
      ensures TurnOffs(pushed) == TurnOffs(old(pushed)) + 1
    {
      ghost var k := |pushed|;
      var addrs, acts := [overloadTriggeredAddr], [DO_TURN_OFF];
      DoModulesAction(addrs, acts);
      assert addrs[0] == overloadTriggeredAddr && acts[0] == DO_TURN_OFF;
      assert pushed[k].payload[2 * 0 + 1] == addrs[0] && pushed[k].payload[2 * 0 + 2] == acts[0];
      assert pushed[k].payload == TurnOff(overloadTriggeredAddr).payload;
      assert pushed == pushed[..k] + [pushed[k]];
    }

    /** The MODULE_CURRENT case of uartReceive: a module reports its current. With no module linked, the margin is a
        division by zero. */
    method CurrentReport(addr: byte, lo: byte, hi: byte, due: bool) returns (defined: bool)
      requires Valid() && 1 <= addr <= MAX_MODULE_NUM
      modifies this`sumCurrent, this`mcub, this`overloadTriggeredAddr, this`emergTriggered
      modifies this`queue, this`pushed, this`history, modules
      ensures Valid()
      ensures modules[..] == old(modules[..])[addr - 1 := old(modules[addr - 1]).(current := lo + 256 * hi)]
      ensures sumCurrent == Total() % 0x1_0000
      ensures defined <==> numModules > 0
      ensures defined ==> IsMargin(Total(), numModules, mcub) && (Total() > MAX_CURRENT ==> mcub == 0)
      ensures history == old(history) + [Reported(Total())] && emergTriggered == (sumCurrent > MAX_CURRENT)
      ensures
        var checked := CheckMessages(sumCurrent > MAX_CURRENT, old(emergTriggered), overloadTriggeredAddr, due);
        pushed == old(pushed) + WithMargin(checked, defined, mcub)
      ensures pushed == old(pushed) + (
          if sumCurrent > 1500 && !old(emergTriggered) then [Message(3, [0x44, overloadTriggeredAddr, 0x66])]
          else if sumCurrent > 1500 && due then [Message(3, [0x45, 0x62])]
          else [])
        + (if defined then [Message(3, [0x55, 0x63, 0, mcub % 256, mcub / 256])] else [])
      ensures defined && Total() <= 1500 ==> Total() + numModules * mcub <= 1500 < Total() + numModules * (mcub + 1)
      ensures
        var recorded :=
          if lo + 256 * hi >= old(modules[addr - 1]).current + old(mcub) then addr else old(overloadTriggeredAddr);
        if sumCurrent > MAX_CURRENT && !old(emergTriggered)
        then IsTarget(modules[..], numModules, enablePop, recorded, overloadTriggeredAddr)
        else overloadTriggeredAddr == recorded
    {
      hide IsTarget, IsMargin, CheckMessages, TurnOffs, Sum, Fired, Latched, Plausible, SumAfter;
      hide MarginValid, QueueValid, TurnOff, Broadcast, WithMargin;
      MarginBelowLimit();
      var value: word := lo + 256 * hi;
      ghost var before := pushed;
      var sum := SumAndCheck(addr, value, due);
      ghost var checked := CheckMessages(sumCurrent > MAX_CURRENT, old(emergTriggered), overloadTriggeredAddr, due);
      hide CoreBridge.LatchValid, CoreBridge.TurnOffsValid;
      defined := ShareOut(sum);
      ThenMargin(before, checked, defined, mcub);
      BytesOf(sumCurrent > MAX_CURRENT, old(emergTriggered), overloadTriggeredAddr, due, defined, mcub);
      ThenMore(before, checked, if defined then [Message(3, [0x55, 0x63, 0, mcub % 256, mcub / 256])] else []);
      if defined && sum <= 1500 {
        MarginIs(sum, numModules, mcub);
      }
    }

    lemma MarginBelowLimit()
      requires Valid()
      ensures mcub <= MAX_CURRENT && (Total() <= MAX_CURRENT ==> mcub <= MAX_CURRENT - Total())
    {
      hide TurnOffs, Sum, Fired, Latched, Plausible, SumAfter, QueueValid;
    }

    // The new current, the sum, and the check of it.
    method SumAndCheck(addr: byte, value: word, due: bool) returns (sum: nat)
      requires Valid() && 1 <= addr <= MAX_MODULE_NUM
      modifies this`sumCurrent, this`overloadTriggeredAddr, this`emergTriggered
      modifies this`queue, this`pushed, this`history, modules
      ensures LatchValid() && TurnOffsValid() && QueueValid() && sum == Total()
      ensures modules[..] == old(modules[..])[addr - 1 := old(modules[addr - 1]).(current := value)]
      ensures sumCurrent == Total() % 0x1_0000
      ensures history == old(history) + [Reported(Total())] && emergTriggered == (sumCurrent > MAX_CURRENT)
      ensures pushed ==
        old(pushed) + CheckMessages(sumCurrent > MAX_CURRENT, old(emergTriggered), overloadTriggeredAddr, due)
      ensures
        var recorded := if value >= old(modules[addr - 1]).current + mcub then addr else old(overloadTriggeredAddr);
        if sumCurrent > MAX_CURRENT && !old(emergTriggered)
        then IsTarget(modules[..], numModules, enablePop, recorded, overloadTriggeredAddr)
        else overloadTriggeredAddr == recorded
    {
      hide IsTarget, CheckMessages, TurnOffs, Sum, Fired, Latched, Plausible, SumAfter;
      hide MarginValid, QueueValid, TurnOff, Broadcast;
      if value >= modules[addr - 1].current + mcub {
        overloadTriggeredAddr := addr;
      }
      SetModuleCurrent(addr - 1, value);
      sum := SumCurrents();
      sumCurrent := sum % 0x1_0000;
      OverloadProtectionCheck(due);
      ReportedNext(history, sum);
      history := history + [Reported(sum)];
    }

    // The new margin, and its broadcast.
    method ShareOut(sum: nat) returns (defined: bool)
      requires modules.Length == MAX_MODULE_NUM && numModules <= MAX_MODULE_NUM && sum == Total()
      requires mcub <= MAX_CURRENT && QueueValid() && TurnOffsValid()
      modifies this`mcub, this`queue, this`pushed
      ensures MarginValid() && QueueValid() && TurnOffsValid() && (defined <==> numModules > 0)
      ensures defined ==> IsMargin(sum, numModules, mcub) && (sum > MAX_CURRENT ==> mcub == 0)
      ensures pushed == old(pushed) + WithMargin([], defined, mcub)
    {
      hide TurnOffs, IsMargin, Fired, QueueValid;
      if numModules == 0 {
        return false;
      }
      hide Sum;
      mcub := Margin(sum, numModules);
      MarginBound(sum, numModules, mcub);
      UpdateModulesData(MODULE_MCUB, 0, mcub);
      return true;
    }

    /** The sum changes by the change of the module, if it is one of those linked. */
    method SetModuleCurrent(index: nat, value: word)
      requires modules.Length == MAX_MODULE_NUM && numModules <= MAX_MODULE_NUM && index < MAX_MODULE_NUM
      modifies modules
      ensures modules[..] == old(modules[..])[index := old(modules[index]).(current := value)]
      ensures Total() == old(Total()) + if index < numModules then value - old(modules[index].current) else 0
    {
      SumAfterReport(modules[..], numModules, index, value);
      modules[index] := modules[index].(current := value);
    }

    method SumCurrents() returns (sum: nat)
      requires modules.Length == MAX_MODULE_NUM && numModules <= MAX_MODULE_NUM
      ensures sum == Total()
    {
      sum := 0;
      for i := 0 to numModules
        invariant sum == Sum(modules[..], i)
      {
        sum := sum + modules[i].current;
      }
    }

    /** updateModulesData for one value. */
    method UpdateModulesData(kind: byte, addr: byte, value: word)
      requires QueueValid()
      modifies this`queue, this`pushed
      ensures QueueValid()
      ensures pushed == old(pushed) + [Message(3, [CMD_UPDATE_DATA, kind, addr, value % 256, value / 256])]
      ensures TurnOffs(pushed) == TurnOffs(old(pushed))
    {
      Push(Message(3, [CMD_UPDATE_DATA, kind, addr, value % 256, value / 256]));
    }

    /** CMD_LINK_MODULE: modules come in with the last one first, and the first to come removes all there were. */
    method LinkModule(total: nat, addr: byte, info: (byte, bool))
      requires modules.Length == MAX_MODULE_NUM && 1 <= addr <= total <= MAX_MODULE_NUM
      requires addr < total ==> numModules < 255
      modifies this`numModules, modules
      ensures modules[..] == old(modules[..])[addr - 1 := Module(info.0, 0, info.1)]
      ensures numModules == if addr == total then 1 else old(numModules) + 1
    {
      if addr == total {
        numModules := 0;
      }
      modules[addr - 1] := Module(info.0, 0, info.1);
      numModules := numModules + 1;
    }

    /** removeModules: also when no module answers any more. */
    method RemoveModules()
      requires Valid()
      modifies this`numModules, this`history
      ensures Valid() && numModules == 0 && history == old(history) + [Cleared]
    {
      numModules := 0;
      ClearedNext(history);
      history := history + [Cleared];
    }

    /** All modules of a bus are linked, in the order in which they come. */
    method Link(infos: seq<(byte, bool)>)
      requires Valid() && 1 <= |infos| <= MAX_MODULE_NUM
      modifies this`numModules, this`history, modules
      ensures Valid() && numModules == |infos| && Total() == 0 && history == old(history) + [Cleared]
      ensures forall i :: 0 <= i < |infos| ==> modules[i] == Module(infos[i].0, 0, infos[i].1)
      ensures modules[|infos|..] == old(modules[|infos|..])
    {
      hide TurnOffs, Sum, Fired, Latched, Plausible;
      var addr := |infos|;
      while addr > 0
        modifies this`numModules, modules
        invariant 0 <= addr <= |infos|
        invariant addr < |infos| ==> numModules == |infos| - addr
        invariant forall i :: addr <= i < |infos| ==> modules[i] == Module(infos[i].0, 0, infos[i].1)
        invariant modules[|infos|..] == old(modules[|infos|..])
      {
        LinkModule(|infos|, addr, infos[addr - 1]);
        addr := addr - 1;
      }
      SumOfZeros(modules[..], numModules);
      ClearedNext(history);
      history := history + [Cleared];
    }

    /** A module's switch state, its priority, and priorities as such are set without touching currents. */
    method SetModuleSwitchState(index: nat, state: byte)
      requires Valid() && index < MAX_MODULE_NUM
      modifies modules
      ensures Valid() && modules[..] == old(modules[..])[index := old(modules[index]).(state := state != 0)]
      ensures Total() == old(Total())
    {
      ghost var before := modules[..];
      modules[index] := modules[index].(state := state != 0);
      SumOfSameCurrents(before, modules[..], numModules);
    }

    method SetModulePriority(index: nat, value: byte)
      requires Valid() && index < MAX_MODULE_NUM
      modifies modules
      ensures Valid() && modules[..] == old(modules[..])[index := old(modules[index]).(priority := value)]
      ensures Total() == old(Total())
    {
      ghost var before := modules[..];
      modules[index] := modules[index].(priority := value);
      SumOfSameCurrents(before, modules[..], numModules);
    }

    method SetEnablePop(state: byte)
      requires Valid()
      modifies this`enablePop
      ensures Valid() && enablePop == state
    {
      enablePop := state;
    }

    function Now(): Bus
      reads this`numModules, modules
    {
      Bus(modules[..], numModules)
    }

    /** Over any run, up to the first action that is not defined: modules and history are those that the actions make;
        turn-offs are those of the history, and no margin exceeds what was left. */
    method Run(actions: seq<Action>) returns (n: nat)
      requires Valid()
      modifies this, modules
      ensures Valid() && n <= |actions|
      ensures Now() == old(Now()).AfterAll(actions[..n]) && history == old(history) + old(Now()).Events(actions[..n])
      ensures forall k :: 0 <= k < n ==> !old(Now()).AfterAll(actions[..k]).Undefined(actions[k])
      ensures n < |actions| ==> Now().Undefined(actions[n])
      ensures TurnOffs(pushed) == Fired(history)
      ensures OneForEach(history) <==> forall k: nat :: k < |history| ==> DecidesAt(history, k)
      ensures Orderly(history) ==> TurnOffs(pushed) == Crossed(history)
    {
      hide OneForEach, DecidesAt, Orderly, TurnOffs, Fired, Crossed, Sum, Latched, Plausible, SumAfter;
      hide Bus.After, Bus.EventOf, Bus.Undefined, Bus.AfterAll, Bus.Events;
      assert Now().Sized();
      hide CoreBridge.Valid;
      n := 0;
      Now().Nothing();
      while n < |actions| && !Now().Undefined(actions[n])
        invariant Valid() && n <= |actions|
        invariant Now() == old(Now()).AfterAll(actions[..n])
        invariant history == old(history) + old(Now()).Events(actions[..n])
        invariant forall k :: 0 <= k < n ==> !old(Now()).AfterAll(actions[..k]).Undefined(actions[k])
      {
        old(Now()).OneMore(actions, n);
        Do(actions[n]);
        n := n + 1;
      }
      TurnOffsAreRight();
    }

    lemma TurnOffsAreRight()
      requires Valid()
      ensures TurnOffs(pushed) == Fired(history)
      ensures OneForEach(history) <==> forall k: nat :: k < |history| ==> DecidesAt(history, k)
      ensures Orderly(history) ==> TurnOffs(pushed) == Crossed(history)
    {
      hide OneForEach, DecidesAt, Orderly, MarginValid, QueueValid;
      OneForEachExactly(history);
      if Orderly(history) {
        OneTurnOffEach(history);
      }
    }

    method Do(a: Action)
      requires Valid() && !Now().Undefined(a)
      modifies this, modules
      ensures Valid() && Now() == old(Now()).After(a) && history == old(history) + old(Now()).EventOf(a)
    {
      hide TurnOffs, Fired, Latched, Plausible, MarginValid, QueueValid, IsMargin, IsTarget, CheckMessages, SumAfter;
      match a {
        case Link(infos) => Link(infos);
        case Remove => RemoveModules();
        case Report(addr, lo, hi, due) => var defined := CurrentReport(addr, lo, hi, due);
        case Switch(addr, state) => SetModuleSwitchState(addr - 1, state);
        case Priority(addr, value) => SetModulePriority(addr - 1, value);
        case Pop(state) => SetEnablePop(state);
        case Sent => var m := Transmit();
      }
    }

    /** A report from within the limit. If it takes the sum over, a turn-off is queued exactly when the latch is clear
        and the new sum is below 65536; and the latch is clear unless modules were removed during an overload with
        nothing reported since. The module that reports is recorded as the trigger in any case, and it is the one
        turned off unless priorities decide. */
    method Crossing(addr: byte, lo: byte, hi: byte, due: bool)
      requires Valid() && 1 <= addr <= numModules && Total() <= MAX_CURRENT
      modifies this, modules
      ensures Valid()
      ensures Total() <= MAX_CURRENT ==> TurnOffs(pushed) == TurnOffs(old(pushed))
      ensures Total() > MAX_CURRENT ==>
        TurnOffs(pushed) == TurnOffs(old(pushed)) + if !old(emergTriggered) && Total() < 0x1_0000 then 1 else 0
      ensures old(emergTriggered) <==> ClearedInOverload(old(history))
      ensures Total() > MAX_CURRENT && (enablePop == 0 || !SomeOn(modules[..], numModules)) ==>
        && overloadTriggeredAddr == addr
        && (!old(emergTriggered) && Total() < 0x1_0000 ==> pushed == old(pushed) + [TurnOff(addr), Broadcast(0)])
    {
      hide IsPopTarget, SomeOn, TurnOffs, Plausible, Latched, Fired, MarginValid, QueueValid, IsMargin;
      hide TurnOff, Broadcast, Sum, SumAfter, ClearedInOverload;
      MarginBelowLimit();
      LatchedWithinLimit(history);
      SumAfterReport(modules[..], numModules, addr - 1, lo + 256 * hi);
      ghost var h, p := history, pushed;
      assert TurnOffs(pushed) == Fired(h) && emergTriggered == Latched(h) && Total() == SumAfter(h);
      var defined := CurrentReport(addr, lo, hi, due);
      assert TurnOffs(pushed) == Fired(history);
      hide CoreBridge.LatchValid, CoreBridge.TurnOffsValid;
      ReportedNext(h, Total());
      assert p + [TurnOff(addr)] + [Broadcast(0)] == p + [TurnOff(addr), Broadcast(0)];
    }
  }

  /** The first report after modules were linked again during an overload: 0 to 4096, and nothing is turned off. */
  method MissedAfterLink() returns (b: CoreBridge)
    ensures fresh(b) && b.Valid()
    ensures b.history == [Cleared, Reported(4096), Cleared, Reported(4096)]
    ensures Crossed(b.history) == 2 && TurnOffs(b.pushed) == 1
  {
    b := new CoreBridge();
    b.Link([(0, true)]);
    ReportOf(b, 1, 0, 16);
    b.Link([(0, true)]);
    ReportOf(b, 1, 0, 16);
    LinkedInOverload(b.history);
  }

  lemma LinkedInOverload(h: seq<Event>)
    requires h == [Cleared, Reported(4096), Cleared, Reported(4096)]
    ensures Crossed(h) == 2 && Fired(h) == 1
  {
    ClearedNext([]);
    assert [] + [Cleared] == [Cleared];
    ReportedNext([Cleared], 4096);
    assert h[..2] == [Cleared] + [Reported(4096)];
    ClearedNext(h[..2]);
    assert h[..3] == h[..2] + [Cleared];
    ReportedNext(h[..3], 4096);
    assert h == h[..3] + [Reported(4096)];
  }

  /** One report that takes the sum from 1 to 65536, and nothing is turned off. */
  method MissedByWrap() returns (b: CoreBridge)
    ensures fresh(b) && b.Valid()
    ensures b.history == [Cleared, Reported(1), Reported(0x1_0000)]
    ensures Crossed(b.history) == 1 && TurnOffs(b.pushed) == 0
  {
    b := new CoreBridge();
    b.Link([(0, true), (0, true)]);
    ReportOf(b, 2, 1, 0);
    ReportOf(b, 1, 255, 255);
    WrappedSum(b.history);
  }

  lemma WrappedSum(h: seq<Event>)
    requires h == [Cleared, Reported(1), Reported(0x1_0000)]
    ensures Crossed(h) == 1 && Fired(h) == 0
  {
    ClearedNext([]);
    assert [] + [Cleared] == [Cleared];
    ReportedNext([Cleared], 1);
    assert h[..2] == [Cleared] + [Reported(1)];
    ReportedNext(h[..2], 0x1_0000);
    assert h == h[..2] + [Reported(0x1_0000)];
  }

  // A report, by what it does to the sum.
  method ReportOf(b: CoreBridge, addr: byte, lo: byte, hi: byte)
    requires b.Valid() && 1 <= addr <= b.numModules
    modifies b, b.modules
    ensures b.Valid() && b.numModules == old(b.numModules)
    ensures forall i :: 0 <= i < MAX_MODULE_NUM ==>
      b.modules[i].current == if i == addr - 1 then lo + 256 * hi else old(b.modules[i].current)
    ensures b.Total() == old(b.Total()) - old(b.modules[addr - 1].current) + (lo + 256 * hi)
    ensures b.history == old(b.history) + [Reported(b.Total())]
  {
    hide TurnOffs, CheckMessages, WithMargin, IsTarget, IsMargin, Fired, Latched, Plausible, SumAfter, Sum;
    SumAfterReport(b.modules[..], b.numModules, addr - 1, lo + 256 * hi);
    var defined := b.CurrentReport(addr, lo, hi, false);
  }

  // The next events of a history.
  lemma ReportedNext(h: seq<Event>, sum: nat)
    ensures SumAfter(h + [Reported(sum)]) == sum && Latched(h + [Reported(sum)]) == Seen(sum)
    ensures Plausible(h) && sum <= SumAfter(h) + 0xffff ==> Plausible(h + [Reported(sum)])
    ensures Fired(h + [Reported(sum)]) == Fired(h) + if Seen(sum) && !Latched(h) then 1 else 0
    ensures Crossed(h + [Reported(sum)]) == Crossed(h) + if SumAfter(h) <= MAX_CURRENT < sum then 1 else 0
  {
    Append(h, Reported(sum));
  }

  lemma ClearedNext(h: seq<Event>)
    ensures SumAfter(h + [Cleared]) == 0 && Latched(h + [Cleared]) == Latched(h)
    ensures Plausible(h) ==> Plausible(h + [Cleared])
    ensures Fired(h + [Cleared]) == Fired(h) && Crossed(h + [Cleared]) == Crossed(h)
  {
    Append(h, Cleared);
  }

  method Margin(sum: nat, n: nat) returns (mcub: word)
    requires n > 0
    ensures IsMargin(sum, n, mcub)
  {
    var share := TruncatedShare(MAX_CURRENT - sum, n);
    if share > 0 {
      MarginTimes(n, share);
    }
    mcub := if share >= 0 then share else 0;
  }

  // Division of C, towards zero.
  method TruncatedShare(rest: int, n: nat) returns (share: int)
    requires n > 0
    ensures rest >= 0 ==> share >= 0 && n * share <= rest < n * (share + 1)
    ensures rest < 0 ==> share <= 0
  {
    if rest >= 0 {
      share := rest / n;
      FundamentalDivMod(rest, n);
      assert n * (share + 1) == n * share + n;
    } else {
      share := -(-rest / n);
    }
  }
}
