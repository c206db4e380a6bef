// What pair setup, pair verify and the pairings requests make of an accessory, as a machine over values: the table,
// the server's session contexts, and the one setup context (esp_hap_pair_setup.c, esp_hap_pairings.c,
// esp_hap_pair_verify.c, esp_hap_ip_services.c). The class of Pairing.dfy refines it.
//
// A message is given by what its parts turn out to be: which TLVs are present, and whether the
// cryptographic checks on them succeed.

module PairingState {
  import opened Bytes
  import opened Controllers

  const MAX_SESSIONS := 8
  const MAX_ATTEMPTS := 100

  const METHOD_PAIR_SETUP: byte := 1
  const METHOD_ADD_PAIRING: byte := 3
  const METHOD_REMOVE_PAIRING: byte := 4
  const METHOD_LIST_PAIRINGS: byte := 5

  datatype TlvError = Unknown | Authentication | MaxPeers | MaxTries | Unavailable | Busy

  datatype Result = Success | Failure(error: TlvError)

  /** A pair-verified session refers to a slot of the controller table. */
  datatype SecureSession = SecureSession(verified: bool, ctrl: nat, conn: nat)

  datatype SetupState = M0 | M2 | M4

  /** A context lives in a block of memory that the allocator gave. `number` tells contexts apart; nothing in the
      program depends on it. */
  datatype SetupCtx =
    SetupCtx(number: nat, block: nat, state: SetupState, pairingMethod: byte, ctrl: nat, conn: nat)

  datatype Flags = Flags(split: bool, transient: bool)

  const NO_FLAGS := Flags(false, false)

  datatype SetupMsg = SetupMsg(
    state: Option<byte>,
    pairingMethod: Option<byte>,
    flags: Option<Flags>,
    srpReady: bool,           // the SRP values could be made, and the reply fits
    hasKeyAndProof: bool,
    proofOk: bool,
    hasEncrypted: bool,
    decrypts: bool,
    id: Option<seq<byte>>,
    ltpk: Option<seq<byte>>,  // of the right length
    hasSignature: bool,
    signatureOk: bool)

  datatype PairingMsg = PairingMsg(
    state: Option<byte>,
    pairingMethod: Option<byte>,
    id: Option<seq<byte>>,
    ltpk: Option<seq<byte>>,
    perms: Option<byte>)

  datatype Action =
    | Setup(conn: nat, setupMsg: SetupMsg, block: nat)
    | Pairings(conn: nat, pairingMsg: PairingMsg)
    | Verify(conn: nat, id: seq<byte>, signatureOk: bool)
    | Timeout
    | Close(conn: nat)

  // ----- places for sessions -----

  type Places = seq<Option<SecureSession>>

  predicate FreePlace(sessions: Places) {
    exists k :: 0 <= k < |sessions| && sessions[k].None?
  }

  predicate FirstFreePlace(sessions: Places, k: nat) {
    k < |sessions| && sessions[k].None? && forall j :: 0 <= j < k ==> sessions[j].Some?
  }

  /** The places after the session of a connection is freed. */
  function Freed(sessions: Places, conn: nat): (r: Places)
    ensures |r| == |sessions|
  {
    seq(|sessions|, k requires 0 <= k < |sessions| =>
      if sessions[k].Some? && sessions[k].value.conn == conn then None else sessions[k])
  }

  /** The session goes to the first free place, if there is one. */
  ghost function Filled(sessions: Places, s: SecureSession): (r: Places)
    ensures |r| == |sessions|
  {
    if exists k: nat :: FirstFreePlace(sessions, k) then
      var k: nat :| FirstFreePlace(sessions, k);
      sessions[k := Some(s)]
    else sessions
  }

  lemma FilledAt(sessions: Places, s: SecureSession)
    ensures !FreePlace(sessions) ==> Filled(sessions, s) == sessions
    ensures forall k: nat :: FirstFreePlace(sessions, k) ==> Filled(sessions, s) == sessions[k := Some(s)]
  {
    forall j: nat, k: nat | FirstFreePlace(sessions, j) && FirstFreePlace(sessions, k) ensures j == k {}
    if !FreePlace(sessions) {
      forall k: nat ensures !FirstFreePlace(sessions, k) {}
    }
  }

  // ----- the table -----

  ghost predicate Names(table: map<nat, Info>, id: seq<byte>, i: nat) {
    i in table && table[i].id == id
  }

  ghost function SlotIn(table: map<nat, Info>, id: seq<byte>): (r: Option<nat>)
    ensures r.Some? ==> Names(table, id, r.value)
    ensures r.None? ==> forall i: nat :: !Names(table, id, i)
  {
    if exists i: nat :: Names(table, id, i) then
      var i: nat :| Names(table, id, i);
      Some(i)
    else None
  }

  /** The first slot from k on that nothing is in. */
  function FreeFrom(table: map<nat, Info>, k: nat): (r: Option<nat>)
    ensures r.Some? ==> k <= r.value < MAX_CONTROLLERS && r.value !in table
    ensures forall j :: k <= j < (if r.Some? then r.value else MAX_CONTROLLERS) ==> j in table
    decreases MAX_CONTROLLERS - k
  {
    if k >= MAX_CONTROLLERS then None else if k !in table then Some(k) else FreeFrom(table, k + 1)
  }

  predicate AdminIn(table: map<nat, Info>) {
    exists i :: i in table && table[i].perms != 0
  }

  /** Adding a controller: to its own slot if it is known and comes with its own key, to the first free one if it is
      not known. */
  ghost function Added(table: map<nat, Info>, info: Info): Option<map<nat, Info>> {
    match SlotIn(table, info.id)
    case Some(i) => if table[i].ltpk == info.ltpk then Some(table[i := info]) else None
    case None => match FreeFrom(table, 0) { case Some(i) => Some(table[i := info]) case None => None }
  }

  /** Removing one: when no administrator is left, all go. */
  ghost function Removed(table: map<nat, Info>, id: seq<byte>): map<nat, Info> {
    var rest := match SlotIn(table, id) { case Some(i) => table - {i} case None => table };
    if AdminIn(rest) then rest else map[]
  }

  /** Slot i is where this controller goes: its own one, with its own key; or, if it is new, the first that is free. */
  ghost predicate GoesTo(table: map<nat, Info>, info: Info, i: nat) {
    || (i in table && table[i].id == info.id && table[i].ltpk == info.ltpk)
    || (i < 16 && i !in table && (forall j: nat :: j < i ==> j in table)
        && forall j :: j in table ==> table[j].id != info.id)
  }

  lemma AddedIs(table: map<nat, Info>, info: Info)
    requires Distinct(table)
    ensures Added(table, info).Some? <==> exists i :: GoesTo(table, info, i)
    ensures Added(table, info).Some? ==>
      exists i :: GoesTo(table, info, i) && Added(table, info).value == table[i := info]
  {
    if i: nat :| GoesTo(table, info, i) && i in table {
      assert Names(table, info.id, i);
    }
    if SlotIn(table, info.id).None? {
      forall i | i in table ensures table[i].id != info.id {
        assert !Names(table, info.id, i);
      }
      var free := FreeFrom(table, 0);
      if free.Some? {
        assert GoesTo(table, info, free.value);
      }
    } else {
      var i := SlotIn(table, info.id).value;
      assert table[i].ltpk == info.ltpk ==> GoesTo(table, info, i);
    }
  }

  /** No two controllers have the same identifier. */
  predicate Distinct(table: map<nat, Info>) {
    forall i, j :: i in table && j in table && i != j ==> table[i].id != table[j].id
  }

  /** All but the one with this identifier. */
  function Without(table: map<nat, Info>, id: seq<byte>): map<nat, Info> {
    map i | i in table && table[i].id != id :: table[i]
  }

  lemma RemovedIs(table: map<nat, Info>, id: seq<byte>)
    requires Distinct(table)
    ensures
      var rest := Without(table, id);
      Removed(table, id) == if exists i :: i in rest && rest[i].perms != 0 then rest else map[]
  {
    match SlotIn(table, id)
    case Some(i) =>
      assert Names(table, id, i);
      assert table - {i} == Without(table, id);
    case None =>
      forall i | i in table ensures table[i].id != id {
        assert !Names(table, id, i);
      }
      assert table == Without(table, id);
  }

  /** A first message of this connection, or one that begins again. */
  predicate AtStart(setup: Option<SetupCtx>, conn: nat, msg: SetupMsg) {
    setup.None? || (setup.value.conn == conn && (setup.value.state == M0 || msg.state == Some(1)))
  }

  /** A message of this connection that goes on from here. */
  predicate AtStep(setup: Option<SetupCtx>, conn: nat, step: SetupState, msg: SetupMsg) {
    setup.Some? && setup.value.conn == conn && setup.value.state == step && msg.state != Some(1)
  }

  /** Only the connection of the context, if there is one, is in setup. */
  ghost predicate OneInSetup(s: State) {
    s.setupPointer.Keys == if s.setup.Some? then {s.setup.value.conn} else {}
  }

  // ----- the machine -----

  datatype State = State(
    table: map<nat, Info>,
    places: Places,
    live: map<nat, SecureSession>,         // the server's session contexts of verified connections
    closing: set<nat>,                     // connections told to close
    setup: Option<SetupCtx>,               // what the one static pointer of setup points to
    setupPointer: map<nat, nat>,           // the server's session contexts of connections in setup: blocks
    attempts: nat,
    flags: Flags,
    contexts: nat)
  {
    /** The connection's pointer is null, or it points to the context that setup has. */
    predicate PointerGood(conn: nat) {
      conn !in live && (conn in setupPointer ==> setup.Some? && setup.value.block == setupPointer[conn])
    }

    /** A message on a connection whose session context is not what its handler takes it for. */
    predicate Undefined(a: Action) {
      match a
      case Setup(conn, _, _) => !PointerGood(conn)
      case Pairings(conn, _) => conn in setupPointer && !PointerGood(conn)
      case Verify(conn, _, _) => conn in setupPointer
      case _ => false
    }

    ghost function After(a: Action): State {
      match a
      case Setup(conn, msg, block) => AfterSetup(conn, msg, block)
      case Pairings(conn, msg) => AfterPairings(conn, msg)
      case Verify(conn, id, signatureOk) => AfterVerify(conn, id, signatureOk)
      case Timeout => this.(closing := closing + if setup.Some? then {setup.value.conn} else {})
      case Close(conn) => AfterClose(conn)
    }

    ghost function AfterAll(actions: seq<Action>): State {
      if actions == [] then this else AfterAll(actions[..|actions| - 1]).After(actions[|actions| - 1])
    }

    // ----- verify and close -----

    ghost function AfterVerify(conn: nat, id: seq<byte>, signatureOk: bool): State {
      match SlotIn(table, id)
      case None => this
      case Some(i) =>
        if !signatureOk || conn in live then this
        else
          var s := SecureSession(true, i, conn);
          this.(live := live[conn := s], places := Filled(places, s))
    }

    function AfterClose(conn: nat): State {
      this.(setup := if conn in setupPointer then None else setup, setupPointer := setupPointer - {conn},
            live := live - {conn}, places := Freed(places, conn), closing := closing - {conn})
    }

    // ----- pairings requests -----

    predicate IsAdmin(conn: nat) {
      conn in live && live[conn].verified && live[conn].ctrl in table && table[live[conn].ctrl].perms == 1
    }

    ghost predicate CanAdd(msg: PairingMsg) {
      && msg.id.Some? && msg.ltpk.Some? && msg.perms.Some?
      && Added(table, Info(msg.id.value, msg.ltpk.value, msg.perms.value)).Some?
    }

    /** What a request needs besides an administrator. */
    ghost predicate Fulfilled(msg: PairingMsg) {
      && msg.state == Some(1) && msg.pairingMethod.Some?
      && var m := msg.pairingMethod.value;
         || (m == METHOD_ADD_PAIRING && CanAdd(msg))
         || (m == METHOD_REMOVE_PAIRING && msg.id.Some?)
         || m == METHOD_LIST_PAIRINGS
    }

    /** Connections of recorded sessions whose slots are in one table and not in the next. */
    function ToClose(next: map<nat, Info>): set<nat> {
      set k | 0 <= k < |places| && places[k].Some? && places[k].value.ctrl in table && places[k].value.ctrl !in next
        :: places[k].value.conn
    }

    ghost function Fulfil(msg: PairingMsg): State
      requires Fulfilled(msg)
    {
      if msg.pairingMethod.value == METHOD_ADD_PAIRING then
        this.(table := Added(table, Info(msg.id.value, msg.ltpk.value, msg.perms.value)).value)
      else if msg.pairingMethod.value == METHOD_REMOVE_PAIRING then
        var next := Removed(table, msg.id.value);
        this.(table := next, closing := closing + ToClose(next))
      else this
    }

    /** What an administrator's request needs, and what it makes of the table. */
    lemma FulfilledMeans(msg: PairingMsg)
      requires Distinct(table)
      ensures Fulfilled(msg) ==> msg.state == Some(1) && msg.pairingMethod in {Some(3), Some(4), Some(5)}
      ensures Fulfilled(msg) && msg.pairingMethod == Some(3) ==>
        && msg.id.Some? && msg.ltpk.Some? && msg.perms.Some?
        && var info := Info(msg.id.value, msg.ltpk.value, msg.perms.value);
           exists i :: GoesTo(table, info, i) && Fulfil(msg).table == table[i := info]
      ensures Fulfilled(msg) && msg.pairingMethod == Some(4) ==>
        && msg.id.Some?
        && var rest := Without(table, msg.id.value);
           Fulfil(msg).table == if exists i :: i in rest && rest[i].perms != 0 then rest else map[]
      ensures Fulfilled(msg) && msg.pairingMethod == Some(5) ==> Fulfil(msg) == this
    {
      if Fulfilled(msg) && msg.pairingMethod == Some(3) {
        AddedIs(table, Info(msg.id.value, msg.ltpk.value, msg.perms.value));
      }
      if Fulfilled(msg) && msg.pairingMethod == Some(4) {
        RemovedIs(table, msg.id.value);
      }
    }

    ghost function AfterPairings(conn: nat, msg: PairingMsg): State {
      if IsAdmin(conn) && Fulfilled(msg) then Fulfil(msg) else this
    }

    // ----- pair setup -----

    /** The step that a message is for: a start message begins again. */
    function StepFor(msg: SetupMsg): SetupState {
      if setup.None? || msg.state == Some(1) then M0 else setup.value.state
    }

    predicate Restarts(msg: SetupMsg) {
      setup.Some? && setup.value.state != M0 && msg.state == Some(1)
    }

    /** Flags, when they come, ask for split pairing after a transient one. */
    predicate FlagsOk(msg: SetupMsg) {
      msg.flags.Some? ==> msg.flags.value.split && (msg.flags.value.transient || flags.transient)
    }

    predicate StartAcceptable(msg: SetupMsg) {
      msg.state == Some(1) && msg.pairingMethod.Some? && msg.srpReady && FlagsOk(msg)
    }

    /** What each step asks of its message. */
    predicate Acceptable(msg: SetupMsg) {
      match StepFor(msg)
      case M0 => table == map[] && attempts < MAX_ATTEMPTS && StartAcceptable(msg)
      case M2 =>
        msg.state == Some(3) && msg.hasKeyAndProof && msg.proofOk && setup.value.pairingMethod != METHOD_PAIR_SETUP
      case M4 =>
        && msg.hasEncrypted && msg.state == Some(5) && msg.decrypts
        && msg.id.Some? && msg.ltpk.Some? && msg.hasSignature && msg.signatureOk
    }

    // Attempts count at the proof step, and start again with a controller.
    function AttemptsAfter(msg: SetupMsg): nat {
      match StepFor(msg)
      case M0 => attempts
      case M2 => attempts + 1
      case M4 => if Acceptable(msg) then 0 else attempts
    }

    // Flags are kept from a start that was right so far.
    function FlagsAfter(msg: SetupMsg): Flags {
      if StepFor(msg) == M0 && table == map[] && attempts < MAX_ATTEMPTS && msg.state == Some(1)
         && msg.pairingMethod.Some? && FlagsOk(msg)
      then (if msg.flags.Some? then msg.flags.value else NO_FLAGS)
      else flags
    }

    /** The context that the message is processed in. */
    function ContextFor(msg: SetupMsg, block: nat): SetupCtx
      requires setup.Some?
    {
      if Restarts(msg) then SetupCtx(contexts, block, M0, 0, 0, setup.value.conn) else setup.value
    }

    /** And what it becomes; none after the last step. The controller is to go to slot 0, since all are free. */
    function ContextAfter(msg: SetupMsg, block: nat): Option<SetupCtx>
      requires setup.Some? && Acceptable(msg)
    {
      var ctx := ContextFor(msg, block);
      match StepFor(msg)
      case M0 => Some(ctx.(ctrl := 0, pairingMethod := msg.pairingMethod.value, state := M2))
      case M2 => Some(ctx.(state := M4))
      case M4 => None
    }

    function TableAfter(msg: SetupMsg): map<nat, Info> {
      if setup.Some? && StepFor(msg) == M4 && Acceptable(msg) then
        map[setup.value.ctrl := Info(msg.id.value, msg.ltpk.value, 1)]
      else table
    }

    /** A message with a good pointer: without a context after it, the pointer goes too. */
    function Processed(conn: nat, msg: SetupMsg, block: nat): State
      requires setup.Some?
    {
      var ctx := if Acceptable(msg) then ContextAfter(msg, block) else None;
      this.(table := TableAfter(msg), attempts := AttemptsAfter(msg), flags := FlagsAfter(msg),
            contexts := contexts + if Restarts(msg) then 1 else 0,
            setup := ctx, setupPointer := if ctx.Some? then setupPointer else setupPointer - {conn})
    }

    /** A restart is a new context for the same message. */
    lemma Restarted(msg: SetupMsg, block: nat, conn: nat)
      requires Restarts(msg) && setup.value.conn == conn
      ensures
        var next := this.(setup := Some(SetupCtx(contexts, block, M0, 0, 0, conn)), contexts := contexts + 1);
        && !next.Restarts(msg) && next.Acceptable(msg) == Acceptable(msg)
        && next.AttemptsAfter(msg) == AttemptsAfter(msg) && next.FlagsAfter(msg) == FlagsAfter(msg)
        && next.TableAfter(msg) == TableAfter(msg)
        && (Acceptable(msg) ==> next.ContextAfter(msg, block) == ContextAfter(msg, block))
    {}

    function Begun(conn: nat, block: nat): State {
      this.(setup := Some(SetupCtx(contexts, block, M0, 0, 0, conn)), setupPointer := setupPointer[conn := block],
            contexts := contexts + 1)
    }

    /** What a setup message makes of counter, flags and context, and when it is accepted. */
    lemma SetupMeans(conn: nat, msg: SetupMsg, block: nat)
      requires OneInSetup(this)
      ensures
        AfterSetup(conn, msg, block).attempts ==
          if AtStep(setup, conn, M2, msg) then attempts + 1
          else if AtStep(setup, conn, M4, msg) && Acceptable(msg) then 0
          else attempts
      ensures AtStart(setup, conn, msg) ==>
        var fits := table == map[] && attempts < 100 && msg.state == Some(1) && msg.pairingMethod.Some?
          && (msg.flags.Some? ==> msg.flags.value.split && (msg.flags.value.transient || flags.transient));
        var next := AfterSetup(conn, msg, block);
        && (Acceptable(msg) <==> fits && msg.srpReady)
        && next.flags == (if !fits then flags else if msg.flags.Some? then msg.flags.value else Flags(false, false))
        && (Acceptable(msg) ==>
              && next.setup.Some? && next.setup.value.state == M2
              && next.setup.value.pairingMethod == msg.pairingMethod.value)
      ensures AtStep(setup, conn, M2, msg) ==>
        && (Acceptable(msg) <==>
              msg.state == Some(3) && msg.hasKeyAndProof && msg.proofOk && setup.value.pairingMethod != 1)
        && AfterSetup(conn, msg, block).flags == flags
        && (Acceptable(msg) ==> AfterSetup(conn, msg, block).setup == Some(setup.value.(state := M4)))
      ensures AtStep(setup, conn, M4, msg) ==>
        && (Acceptable(msg) <==>
              && msg.state == Some(5) && msg.hasEncrypted && msg.decrypts
              && msg.id.Some? && msg.ltpk.Some? && msg.hasSignature && msg.signatureOk)
        && AfterSetup(conn, msg, block).flags == flags && AfterSetup(conn, msg, block).setup.None?
        && AfterSetup(conn, msg, block).table ==
             if Acceptable(msg) then map[setup.value.ctrl := Info(msg.id.value, msg.ltpk.value, 1)] else table
    {}

    lemma RestartMeans(conn: nat, msg: SetupMsg, block: nat)
      requires OneInSetup(this)
      ensures Restarts(msg) <==> setup.Some? && setup.value.state != M0 && msg.state == Some(1)
      ensures AtStart(setup, conn, msg) && Acceptable(msg) ==>
        var next := AfterSetup(conn, msg, block);
        && next.setup.Some? && next.setup.value.conn == conn
        && (setup.None? || setup.value.state != M0 ==> next.setup.value.block == block)
    {}

    lemma PointerMeans(conn: nat)
      requires OneInSetup(this)
      ensures PointerGood(conn) <==>
        !(conn in live || (conn in setupPointer && setup.Some? && setup.value.block != setupPointer[conn]))
    {}

    lemma BegunSame(conn: nat, msg: SetupMsg, block: nat)
      requires setup.None?
      ensures Begun(conn, block).Acceptable(msg) == Acceptable(msg) && !Begun(conn, block).Restarts(msg)
    {}

    /** Another connection is told that setup is busy. */
    function AfterSetup(conn: nat, msg: SetupMsg, block: nat): State {
      if setup.Some? && conn !in setupPointer then this
      else if setup.None? then Begun(conn, block).Processed(conn, msg, block)
      else Processed(conn, msg, block)
    }
  }

  // ----- what runs of the machine keep -----

  /** The message is for the context, and does not start again. */
  predicate GoesOn(s: State, a: Action) {
    a.Setup? && s.setup.Some? && s.setup.value.conn == a.conn && a.setupMsg.state != Some(1)
  }

  /** A proof is tried. */
  predicate Tries(s: State, a: Action) {
    GoesOn(s, a) && s.setup.value.state == M2
  }

  /** Setup saves a controller. */
  predicate Saves(s: State, a: Action) {
    && GoesOn(s, a) && s.setup.value.state == M4
    && var msg := a.setupMsg;
       && msg.state == Some(5) && msg.hasEncrypted && msg.decrypts
       && msg.id.Some? && msg.ltpk.Some? && msg.hasSignature && msg.signatureOk
  }

  lemma AttemptsStep(s: State, a: Action)
    requires OneInSetup(s)
    ensures OneInSetup(s.After(a))
    ensures s.After(a).attempts == if Saves(s, a) then 0 else s.attempts + if Tries(s, a) then 1 else 0
  {}

  ghost predicate SavesAt(s: State, actions: seq<Action>, k: nat)
    requires k < |actions|
  {
    Saves(s.AfterAll(actions[..k]), actions[k])
  }

  /** Proofs tried by actions j to k - 1. */
  ghost function TriesIn(s: State, actions: seq<Action>, j: nat, k: nat): nat
    requires j <= k <= |actions|
  {
    if j == k then 0
    else TriesIn(s, actions, j, k - 1) + if Tries(s.AfterAll(actions[..k - 1]), actions[k - 1]) then 1 else 0
  }

  lemma NoActions(s: State)
    ensures s.AfterAll([]) == s
  {}

  lemma AfterOneMore(s: State, actions: seq<Action>, k: nat)
    requires k < |actions|
    ensures s.AfterAll(actions[..k + 1]) == s.AfterAll(actions[..k]).After(actions[k])
  {
    assert actions[..k + 1][..k] == actions[..k];
  }

  lemma {:induction false} OneInSetupAfter(s: State, actions: seq<Action>, k: nat)
    requires OneInSetup(s) && k <= |actions|
    ensures OneInSetup(s.AfterAll(actions[..k]))
  {
    if k > 0 {
      OneInSetupAfter(s, actions, k - 1);
      AfterOneMore(s, actions, k - 1);
      AttemptsStep(s.AfterAll(actions[..k - 1]), actions[k - 1]);
    }
  }

  /** While setup saves no controller, the counter goes up by the number of proofs tried. */
  lemma {:induction false} AttemptsCounted(s: State, actions: seq<Action>, j: nat, k: nat)
    requires OneInSetup(s) && j <= k <= |actions|
    requires forall i :: j <= i < k ==> !SavesAt(s, actions, i)
    ensures s.AfterAll(actions[..k]).attempts == s.AfterAll(actions[..j]).attempts + TriesIn(s, actions, j, k)
    decreases k - j
  {
    if j < k {
      AttemptsCounted(s, actions, j, k - 1);
      OneInSetupAfter(s, actions, k - 1);
      AfterOneMore(s, actions, k - 1);
      assert !SavesAt(s, actions, k - 1);
      AttemptsStep(s.AfterAll(actions[..k - 1]), actions[k - 1]);
    }
  }

  /** And it is 0 when setup has saved one. */
  lemma AttemptsReset(s: State, actions: seq<Action>, k: nat)
    requires OneInSetup(s) && k < |actions| && SavesAt(s, actions, k)
    ensures s.AfterAll(actions[..k + 1]).attempts == 0
  {
    OneInSetupAfter(s, actions, k);
    AfterOneMore(s, actions, k);
    AttemptsStep(s.AfterAll(actions[..k]), actions[k]);
  }

  ghost predicate RequestChanges(s: State, actions: seq<Action>, k: nat)
    requires k < |actions|
  {
    actions[k].Pairings? && s.AfterAll(actions[..k + 1]) != s.AfterAll(actions[..k])
  }

  /** The connection has a verified session of a controller that is paired, with permissions 1. */
  predicate Administrator(s: State, conn: nat) {
    && conn in s.live && s.live[conn].verified
    && s.live[conn].ctrl in s.table && s.table[s.live[conn].ctrl].perms == 1
  }

  /** A pairings request that changes anything is an administrator's. */
  lemma OnlyAdministrators(s: State, conn: nat, msg: PairingMsg)
    ensures s.After(Pairings(conn, msg)) != s ==> Administrator(s, conn)
  {}

  predicate GoodStart(s: State, start: SetupMsg) {
    s.setup.None? && s.table == map[] && s.attempts < MAX_ATTEMPTS && s.StartAcceptable(start) && start.flags.None?
  }

  /** Two start messages on one connection: all that comes on it afterwards is undefined, setup or pairings request,
      exactly if the two contexts are in different blocks. */
  lemma RestartStrands(s: State, conn: nat, start: SetupMsg, block0: nat, block1: nat)
    requires GoodStart(s, start) && conn !in s.live && conn !in s.setupPointer
    ensures
      var one := s.AfterSetup(conn, start, block0);
      var two := one.AfterSetup(conn, start, block1);
      && s.PointerGood(conn) && one.PointerGood(conn) && (two.PointerGood(conn) <==> block0 == block1)
      && (forall m, b :: two.Undefined(Setup(conn, m, b)) <==> block0 != block1)
      && (forall m :: two.Undefined(Pairings(conn, m)) <==> block0 != block1)
  {
    var one := s.AfterSetup(conn, start, block0);
    assert one.setup == Some(SetupCtx(s.contexts, block0, M2, start.pairingMethod.value, 0, conn));
    assert one.setupPointer == s.setupPointer[conn := block0] && one.flags == NO_FLAGS;
    var two := one.AfterSetup(conn, start, block1);
    assert two.setup == Some(SetupCtx(one.contexts, block1, M2, start.pairingMethod.value, 0, conn));
  }
}
