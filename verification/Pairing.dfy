// Pair Setup, Add Pairing and Remove Pairing over the controller table, its keystore and the sessions, all in place
// (esp_hap_pair_setup.c, esp_hap_pairings.c, esp_hap_controllers.c, esp_hap_pair_verify.c). What each handler does to
// the whole is a step of the machine of PairingState.dfy.

module Pairing {
  import opened Bytes
  import opened Controllers
  import opened PairingState

  /** Looking an identifier up in the slots or in what they stand for is the same. */
  lemma SlotInTable(cs: seq<Ctrl>, id: seq<byte>)
    requires TableOk(cs)
    ensures forall i: nat :: IsSlotOf(cs, id, i) ==> SlotIn(Table(cs), id) == Some(i)
    ensures !Known(cs, id) ==> SlotIn(Table(cs), id) == None
  {
    var t := Table(cs);
    forall i: nat ensures Names(t, id, i) <==> IsSlotOf(cs, id, i) {}
    forall i: nat, j: nat | Names(t, id, i) && Names(t, id, j) ensures i == j {}
  }

  lemma FreeInTable(cs: seq<Ctrl>)
    requires TableOk(cs)
    ensures forall i: nat :: FirstFree(cs, i) ==> FreeFrom(Table(cs), 0) == Some(i)
    ensures (forall i :: 0 <= i < |cs| ==> cs[i].valid) ==> FreeFrom(Table(cs), 0) == None
  {
    var t := Table(cs);
    forall i: nat | i < MAX_CONTROLLERS ensures i in t <==> cs[i].valid {}
  }

  /** What adding makes of the table, for a controller that is known and for one that is not. */
  lemma AddedKnown(cs: seq<Ctrl>, info: Info, i: nat)
    requires TableOk(cs) && IsSlotOf(cs, info.id, i)
    ensures Added(Table(cs), info) == if cs[i].info.ltpk == info.ltpk then Some(Table(cs)[i := info]) else None
  {
    SlotInTable(cs, info.id);
    assert Table(cs)[i] == cs[i].info;
  }

  lemma AddedNew(cs: seq<Ctrl>, info: Info)
    requires TableOk(cs) && !Known(cs, info.id)
    ensures forall i: nat :: FirstFree(cs, i) ==> Added(Table(cs), info) == Some(Table(cs)[i := info])
    ensures (forall i :: 0 <= i < |cs| ==> cs[i].valid) ==> Added(Table(cs), info) == None
  {
    SlotInTable(cs, info.id);
    FreeInTable(cs);
  }

  lemma DistinctTable(cs: seq<Ctrl>)
    requires TableOk(cs)
    ensures Distinct(Table(cs))
  {
    forall i, j | i in Table(cs) && j in Table(cs) && i != j ensures Table(cs)[i].id != Table(cs)[j].id {
      assert cs[i].valid && cs[j].valid;
    }
  }

  lemma AdminInTable(cs: seq<Ctrl>)
    requires TableOk(cs)
    ensures SomeAdmin(cs) <==> AdminIn(Table(cs))
  {
    var t := Table(cs);
    forall i: nat ensures i in t <==> i < |cs| && cs[i].valid {}
    if SomeAdmin(cs) {
      var i :| 0 <= i < |cs| && cs[i].valid && cs[i].info.perms != 0;
      assert i in t && t[i].perms != 0;
    }
  }

  lemma SlotsInTable(cs: seq<Ctrl>)
    ensures ValidSlots(cs) == Table(cs).Keys
  {}

  lemma NewIdentifier(cs: seq<Ctrl>, id: seq<byte>)
    requires !Known(cs, id)
    ensures forall j :: 0 <= j < |cs| && cs[j].valid ==> cs[j].info.id != id
  {
    forall j: nat | j < |cs| && cs[j].valid ensures cs[j].info.id != id {
      assert !IsSlotOf(cs, id, j);
    }
  }

  /** The connection's session has a place in the table of sessions. */
  predicate Recorded(sessions: Places, conn: nat) {
    exists k :: 0 <= k < |sessions| && sessions[k].Some? && sessions[k].value.conn == conn
  }

  predicate HasSession(sessions: Places, slot: nat, conn: nat) {
    exists k :: 0 <= k < |sessions| && sessions[k].Some? &&
      sessions[k].value.ctrl == slot && sessions[k].value.conn == conn
  }

  function ValidSlots(cs: seq<Ctrl>): set<nat> {
    set i: nat | i < |cs| && cs[i].valid
  }

  /** Told to close, besides those told before, are exactly the recorded sessions of these slots. */
  ghost predicate ClosedFor(before: set<nat>, after: set<nat>, sessions: Places, slots: set<nat>) {
    && before <= after
    && (forall c :: c in after ==> c in before || exists i :: i in slots && HasSession(sessions, i, c))
    && (forall i, c :: i in slots && HasSession(sessions, i, c) ==> c in after)
  }

  lemma ClosedForMore(a: set<nat>, b: set<nat>, c: set<nat>, sessions: Places, r1: set<nat>, r2: set<nat>)
    requires ClosedFor(a, b, sessions, r1) && ClosedFor(b, c, sessions, r2)
    ensures ClosedFor(a, c, sessions, r1 + r2)
  {
    hide HasSession;
  }

  /** That determines who is told. */
  lemma ClosedForExactly(s: State, after: set<nat>, next: map<nat, Info>)
    requires ClosedFor(s.closing, after, s.places, s.table.Keys - next.Keys)
    ensures after == s.closing + s.ToClose(next)
  {
    var slots := s.table.Keys - next.Keys;
    forall c | c in s.ToClose(next) ensures c in after {
      var k :|
        0 <= k < |s.places| && s.places[k].Some? && s.places[k].value.ctrl in slots && s.places[k].value.conn == c;
      assert HasSession(s.places, s.places[k].value.ctrl, c);
    }
    forall c | c in after && c !in s.closing ensures c in s.ToClose(next) {
      var i :| i in slots && HasSession(s.places, i, c);
    }
  }

  lemma ClosedForNone(closing: set<nat>, sessions: Places)
    ensures ClosedFor(closing, closing, sessions, {})
  {}

  lemma NoSlots(cs: seq<Ctrl>)
    ensures ValidSlots(cs) == {} <==> !SomeValid(cs)
  {
    if SomeValid(cs) {
      var i: nat :| i < |cs| && cs[i].valid;
      assert i in ValidSlots(cs);
    }
  }

  lemma SlotsAfterClear(cs: seq<Ctrl>, i: nat)
    requires i < |cs|
    ensures ValidSlots(cs[i := CLEARED]) == ValidSlots(cs) - {i}
  {}

  /** No one is known by the identifier of a cleared slot any more. */
  lemma UnknownAfterClear(cs: seq<Ctrl>, i: nat, id: seq<byte>)
    requires TableOk(cs) && IsSlotOf(cs, id, i)
    ensures !Known(cs[i := CLEARED], id)
  {}

  /** What is recorded are sessions that connections have, each once. */
  predicate PlacesOk(sessions: Places, live: map<nat, SecureSession>) {
    && |sessions| == MAX_SESSIONS
    && (forall k :: 0 <= k < |sessions| && sessions[k].Some? ==>
          sessions[k].value.conn in live && live[sessions[k].value.conn] == sessions[k].value)
    && (forall j, k :: 0 <= j < k < |sessions| && sessions[j].Some? && sessions[k].Some? ==>
          sessions[j].value.conn != sessions[k].value.conn)
  }

  lemma PlacesAfterRecord(sessions: Places, live: map<nat, SecureSession>, k: nat, s: SecureSession)
    requires PlacesOk(sessions, live) && k < |sessions| && sessions[k].None? && s.conn !in live
    ensures PlacesOk(sessions[k := Some(s)], live[s.conn := s])
    ensures forall c :: Recorded(sessions[k := Some(s)], c) <==> c == s.conn || Recorded(sessions, c)
  {
    var after := sessions[k := Some(s)];
    assert after[k].Some? && after[k].value.conn == s.conn;
    forall c ensures Recorded(after, c) <==> c == s.conn || Recorded(sessions, c) {
      if Recorded(sessions, c) {
        var j :| 0 <= j < |sessions| && sessions[j].Some? && sessions[j].value.conn == c;
        assert after[j] == sessions[j];
      }
    }
  }

  lemma PlacesUnrecorded(sessions: Places, live: map<nat, SecureSession>, s: SecureSession)
    requires PlacesOk(sessions, live) && s.conn !in live
    ensures PlacesOk(sessions, live[s.conn := s]) && !Recorded(sessions, s.conn)
  {}

  lemma FreedMeans(sessions: Places, conn: nat)
    ensures forall k :: 0 <= k < |sessions| ==>
      Freed(sessions, conn)[k] == if sessions[k].Some? && sessions[k].value.conn == conn then None else sessions[k]
  {}

  lemma PlacesAfterFree(sessions: Places, live: map<nat, SecureSession>, conn: nat)
    requires PlacesOk(sessions, live)
    ensures PlacesOk(Freed(sessions, conn), live - {conn})
    ensures forall c :: Recorded(Freed(sessions, conn), c) <==> c != conn && Recorded(sessions, c)
  {
    var after := Freed(sessions, conn);
    forall c ensures Recorded(after, c) <==> c != conn && Recorded(sessions, c) {
      if c != conn && Recorded(sessions, c) {
        var j :| 0 <= j < |sessions| && sessions[j].Some? && sessions[j].value.conn == c;
        assert after[j] == sessions[j];
      }
    }
  }

  class Accessory {
    const controllers: array<Ctrl>
    const sessions: array<Option<SecureSession>>
    var keystore: map<nat, Info>
    /** Open connections that httpd_sess_trigger_close was called for. */
    var closing: set<nat>
    /** The server's session contexts of verified connections. */
    var live: map<nat, SecureSession>
    var pairAttempts: nat
    var pairingFlags: Flags
    /** What the one static pointer of setup points to, and the server's session contexts of connections in setup:
        pointers too, to blocks that held a context when they were set. */
    var setup: Option<SetupCtx>
    var setupPointer: map<nat, nat>
    /** Where restarts have put the context since the connection's pointer was set. */
    ghost var moves: seq<nat>
    /** Connections whose sessions found a free place, and whether all did. */
    ghost var placed: set<nat>
    ghost var crowded: bool
    ghost var log: seq<Event>
    var contexts: nat

    ghost predicate TableValid()
      reads this`keystore, controllers
    {
      controllers.Length == MAX_CONTROLLERS && TableOk(controllers[..]) && keystore == Table(controllers[..])
    }

    ghost predicate SetupValid()
      reads this`pairAttempts, this`log, this`contexts, this`setup, controllers
    {
      && pairAttempts <= MAX_ATTEMPTS
      && Disciplined(log)
      && (forall n :: n >= contexts ==> Progress(log, n) == 0)
      && (setup.Some? ==> setup.value.number < contexts)
      && (setup.Some? && setup.value.state == M0 ==> Progress(log, setup.value.number) == 0)
      && (setup.Some? && setup.value.state == M2 ==>
            Progress(log, setup.value.number) == 1 && pairAttempts < MAX_ATTEMPTS)
      && (setup.Some? && setup.value.state == M4 ==> Progress(log, setup.value.number) == 2)
      && (setup.Some? && setup.value.state != M0 ==>
            && !SomeValid(controllers[..])
            && setup.value.ctrl < controllers.Length && controllers[setup.value.ctrl].index == setup.value.ctrl)
    }

    /** One connection at most is in setup. Its pointer was set to the block of a context, which restarts move. */
    ghost predicate ConnsValid()
      reads this`setup, this`setupPointer, this`moves, this`live
    {
      && setupPointer.Keys == (if setup.Some? then {setup.value.conn} else {}) && setupPointer.Keys !! live.Keys
      && (setup.Some? ==>
            setup.value.block == if moves == [] then setupPointer[setup.value.conn] else moves[|moves| - 1])
    }

    /** Recorded are the sessions that found a free place when they were made. */
    ghost predicate SessionsValid()
      reads this`live, this`placed, this`crowded, sessions
    {
      && PlacesOk(sessions[..], live)
      && (forall c :: c in live ==> live[c].conn == c && live[c].ctrl < MAX_CONTROLLERS)
      && (forall c :: c in placed <==> Recorded(sessions[..], c))
      && (!crowded ==> forall c :: c in live ==> c in placed)
    }

    ghost predicate Valid()
      reads this, controllers, sessions
    {
      TableValid() && SetupValid() && ConnsValid() && SessionsValid()
    }

    ghost function Now(): State
      reads this`keystore, this`live, this`closing, this`setup, this`setupPointer, this`pairAttempts, this`pairingFlags
      reads this`contexts, sessions
    {
      State(keystore, sessions[..], live, closing, setup, setupPointer, pairAttempts, pairingFlags, contexts)
    }

    // ----- the table -----

    /** hap_controllers_init: at boot, from the keystore. */
    method ControllersInit()
      requires controllers.Length == MAX_CONTROLLERS
      modifies controllers
      ensures forall i :: 0 <= i < MAX_CONTROLLERS ==>
        controllers[i] == if i in keystore then Ctrl(keystore[i], true, i) else CLEARED
    {
      forall i | 0 <= i < controllers.Length {
        controllers[i] := CLEARED;
      }
      for i := 0 to MAX_CONTROLLERS
        invariant forall j :: 0 <= j < i ==>
          controllers[j] == if j in keystore then Ctrl(keystore[j], true, j) else CLEARED
        invariant forall j :: i <= j < MAX_CONTROLLERS ==> controllers[j] == CLEARED
      {
        if i in keystore {
          controllers[i] := Ctrl(keystore[i], true, i);
        }
      }
    }

    method IsAccessoryPaired() returns (r: bool)
      ensures r <==> SomeValid(controllers[..])
    {
      for i := 0 to controllers.Length
        invariant forall j :: 0 <= j < i ==> !controllers[j].valid
      {
        if controllers[i].valid {
          assert controllers[..][i].valid;
          return true;
        }
      }
      return false;
    }

    method IsAdminPaired() returns (r: bool)
      ensures r <==> SomeAdmin(controllers[..])
    {
      for i := 0 to controllers.Length
        invariant forall j :: 0 <= j < i ==> !(controllers[j].valid && controllers[j].info.perms != 0)
      {
        if controllers[i].valid && controllers[i].info.perms != 0 {
          assert controllers[..][i].valid;
          return true;
        }
      }
      return false;
    }

    method GetController(id: seq<byte>) returns (r: Option<nat>)
      ensures r.Some? ==> IsSlotOf(controllers[..], id, r.value)
      ensures r.None? ==> !Known(controllers[..], id)
    {
      for i := 0 to controllers.Length
        invariant forall j :: 0 <= j < i ==> !(controllers[j].valid && controllers[j].info.id == id)
      {
        if controllers[i].valid && controllers[i].info.id == id {
          return Some(i);
        }
      }
      return None;
    }

    /** Also writes the index of the slot it returns. */
    method GetEmptyLoc() returns (r: Option<nat>)
      modifies controllers
      ensures r.None? ==> controllers[..] == old(controllers[..])
      ensures r.None? ==> forall i :: 0 <= i < controllers.Length ==> controllers[i].valid
      ensures r.Some? ==> FirstFree(old(controllers[..]), r.value)
      ensures r.Some? ==>
        controllers[..] == old(controllers[..])[r.value := old(controllers[..])[r.value].(index := r.value)]
    {
      for i := 0 to controllers.Length
        invariant forall j :: 0 <= j < i ==> controllers[j].valid
        invariant controllers[..] == old(controllers[..])
      {
        if !controllers[i].valid {
          controllers[i] := controllers[i].(index := i);
          return Some(i);
        }
      }
      return None;
    }

    method SaveController(i: nat)
      requires i < controllers.Length
      modifies controllers, this`keystore
      ensures controllers[..] == old(controllers[..])[i := old(controllers[i]).(valid := true)]
      ensures keystore == old(keystore)[old(controllers[i]).index := old(controllers[i]).info]
    {
      controllers[i] := controllers[i].(valid := true);
      keystore := keystore[controllers[i].index := controllers[i].info];
    }

    method RemoveController(i: nat)
      requires i < controllers.Length
      modifies controllers, this`keystore
      ensures controllers[..] == old(controllers[..])[i := CLEARED]
      ensures keystore == old(keystore) - {old(controllers[i]).index}
    {
      keystore := keystore - {controllers[i].index};
      controllers[i] := CLEARED;
    }

    // ----- sessions -----

    method CloseSessionsOf(slot: nat)
      modifies this`closing
      ensures ClosedFor(old(closing), closing, sessions[..], {slot})
    {
      for k := 0 to sessions.Length
        invariant forall c :: c in closing ==> c in old(closing) || HasSession(sessions[..], slot, c)
        invariant closing >= old(closing)
        invariant forall j :: 0 <= j < k && sessions[j].Some? && sessions[j].value.ctrl == slot ==>
          sessions[j].value.conn in closing
      {
        if sessions[k].Some? && sessions[k].value.ctrl == slot {
          assert sessions[..][k] == sessions[k];
          closing := closing + {sessions[k].value.conn};
        }
      }
    }

    /** The end of Pair Verify: a new session for a known controller, put in the first empty place if any. A connection
        that is verified already gets an error. On a connection in setup it is not defined what happens. */
    method VerifyFinish(conn: nat, id: seq<byte>, signatureOk: bool) returns (defined: bool, r: Option<SecureSession>)
      requires Valid()
      modifies sessions, this`live, this`placed, this`crowded
      ensures Valid() && (defined <==> conn !in setupPointer)
      ensures Now() == if defined then old(Now()).AfterVerify(conn, id, signatureOk) else old(Now())
      ensures r.Some? <==> defined && Known(controllers[..], id) && signatureOk && conn !in old(live)
      ensures r.Some? ==> r.value.verified && r.value.conn == conn && IsSlotOf(controllers[..], id, r.value.ctrl)
      ensures live == if r.Some? then old(live)[conn := r.value] else old(live)
      // recorded exactly when a place is free
      ensures placed == if r.Some? && FreePlace(old(sessions[..])) then old(placed) + {conn} else old(placed)
      ensures crowded == (old(crowded) || (r.Some? && !FreePlace(old(sessions[..]))))
      ensures r.None? || !FreePlace(old(sessions[..])) ==> sessions[..] == old(sessions[..])
      ensures r.Some? ==> forall k: nat :: FirstFreePlace(old(sessions[..]), k) ==>
        sessions[..] == old(sessions[..])[k := r]
    {
      assert controllers.Length == MAX_CONTROLLERS;
      SlotInTable(controllers[..], id);
      hide Accessory.TableValid, Accessory.SetupValid, Accessory.SessionsValid, Accessory.ConnsValid;
      if conn in setupPointer {
        return false, None;
      }
      var slot := GetController(id);
      if slot.None? || !signatureOk || conn in live {
        return true, None;
      }
      assert IsSlotOf(controllers[..], id, slot.value);
      var s := SecureSession(true, slot.value, conn);
      AddSession(s);
      return true, Some(s);
    }

    method AddSession(s: SecureSession)
      requires SessionsValid() && s.conn !in live && s.ctrl < MAX_CONTROLLERS
      modifies sessions, this`live, this`placed, this`crowded
      ensures SessionsValid() && live == old(live)[s.conn := s]
      ensures placed == if FreePlace(old(sessions[..])) then old(placed) + {s.conn} else old(placed)
      ensures crowded == (old(crowded) || !FreePlace(old(sessions[..])))
      ensures sessions[..] == Filled(old(sessions[..]), s)
      ensures !FreePlace(old(sessions[..])) ==> sessions[..] == old(sessions[..])
      ensures forall k: nat :: FirstFreePlace(old(sessions[..]), k) ==> sessions[..] == old(sessions[..])[k := Some(s)]
    {
      hide PlacesOk, Recorded;
      ghost var before := sessions[..];
      FilledAt(before, s);
      var place := Record(s);
      if place.None? {
        crowded := true;
        PlacesUnrecorded(before, live, s);
      } else {
        placed := placed + {s.conn};
        PlacesAfterRecord(before, live, place.value, s);
      }
      live := live[s.conn := s];
    }

    /** hap_add_secure_session */
    method Record(s: SecureSession) returns (place: Option<nat>)
      modifies sessions
      ensures place.None? <==> !FreePlace(old(sessions[..]))
      ensures place.None? ==> sessions[..] == old(sessions[..])
      ensures place.Some? ==> FirstFreePlace(old(sessions[..]), place.value)
      ensures place.Some? ==> sessions[..] == old(sessions[..])[place.value := Some(s)]
    {
      for k := 0 to sessions.Length
        invariant forall j :: 0 <= j < k ==> old(sessions[..])[j].Some?
        invariant sessions[..] == old(sessions[..])
      {
        if sessions[k].None? {
          assert old(sessions[..])[k].None?;
          sessions[k] := Some(s);
          return Some(k);
        }
      }
      return None;
    }

    /** hap_free_session */
    method FreeSession(s: SecureSession)
      requires PlacesOk(sessions[..], live) && s.conn in live && live[s.conn] == s
      modifies sessions
      ensures sessions[..] == Freed(old(sessions[..]), s.conn)
    {
      ghost var before := sessions[..];
      for k := 0 to sessions.Length
        invariant sessions[..] == before
        invariant forall j :: 0 <= j < k ==> before[j] != Some(s)
      {
        if sessions[k] == Some(s) {
          sessions[k] := None;
          assert sessions[..] == Freed(before, s.conn);
          return;
        }
      }
      assert sessions[..] == Freed(before, s.conn);
    }

    // ----- Add Pairing and Remove Pairing -----

    predicate IsReqAdmin(session: Option<SecureSession>)
      reads controllers
      requires session.Some? ==> session.value.ctrl < controllers.Length
    {
      session.Some? && session.value.verified && controllers[session.value.ctrl].info.perms == 1
    }

    method ProcessPairAdd(msg: PairingMsg) returns (r: Result)
      requires Valid() && SomeValid(controllers[..])
      modifies controllers, this`keystore
      ensures Valid()
      ensures r.Failure? ==> keystore == old(keystore)
      ensures r.Success? <==> old(Now()).CanAdd(msg)
      // to its own slot with its own key, or, if it is new, to the first free one
      ensures r.Success? <==>
        && msg.id.Some? && msg.ltpk.Some? && msg.perms.Some?
        && exists i :: GoesTo(old(keystore), Info(msg.id.value, msg.ltpk.value, msg.perms.value), i)
      ensures r.Success? ==>
        var info := Info(msg.id.value, msg.ltpk.value, msg.perms.value);
        exists i :: GoesTo(old(keystore), info, i) && keystore == old(keystore)[i := info]
      ensures r.Success? ==>
        Added(old(keystore), Info(msg.id.value, msg.ltpk.value, msg.perms.value)) == Some(keystore)
      ensures r == Failure(MaxPeers) <==>
        && msg.id.Some? && msg.ltpk.Some? && msg.perms.Some? && !Known(old(controllers[..]), msg.id.value)
        && forall i :: 0 <= i < MAX_CONTROLLERS ==> old(controllers[..])[i].valid
      ensures r in {Success, Failure(MaxPeers), Failure(Unknown)}
    {
      if msg.id.None? || msg.ltpk.None? || msg.perms.None? {
        return Failure(Unknown);
      }
      hide Accessory.SetupValid, Accessory.SessionsValid, Accessory.ConnsValid, TableOk, Table, Added, FirstFree;
      var info := Info(msg.id.value, msg.ltpk.value, msg.perms.value);
      DistinctTable(controllers[..]);
      AddedIs(keystore, info);
      hide GoesTo;
      var slot := GetController(info.id);
      if slot.Some? {
        AddedKnown(controllers[..], info, slot.value);
        if info.ltpk != controllers[slot.value].info.ltpk {
          return Failure(Unknown);
        }
        UpdatePermissions(slot.value, info);
      } else {
        AddedNew(controllers[..], info);
        slot := AddNew(info);
        if slot.None? {
          return Failure(MaxPeers);
        }
      }
      return Success;
    }

    method UpdatePermissions(i: nat, info: Info)
      requires Valid() && IsSlotOf(controllers[..], info.id, i) && controllers[i].info.ltpk == info.ltpk
      modifies controllers, this`keystore
      ensures Valid() && keystore == old(keystore)[i := info]
    {
      hide Progress, Disciplined;
      ghost var cs := controllers[..];
      assert cs[i].valid;
      controllers[i] := controllers[i].(info := controllers[i].info.(perms := info.perms));
      SaveController(i);
      TableAfterSave(cs, i, info);
      assert controllers[..] == cs[i := Ctrl(info, true, i)];
    }

    method AddNew(info: Info) returns (slot: Option<nat>)
      requires Valid() && SomeValid(controllers[..]) && !Known(controllers[..], info.id)
      modifies controllers, this`keystore
      ensures Valid()
      ensures slot.None? ==> keystore == old(keystore)
      ensures slot.None? <==> forall j :: 0 <= j < MAX_CONTROLLERS ==> old(controllers[..])[j].valid
      ensures slot.Some? ==> FirstFree(old(controllers[..]), slot.value)
      ensures slot.Some? ==> keystore == old(keystore)[slot.value := info]
    {
      hide Progress, Disciplined;
      ghost var cs := controllers[..];
      slot := GetEmptyLoc();
      if slot.None? {
        assert forall j :: 0 <= j < MAX_CONTROLLERS ==> controllers[..][j].valid;
        return;
      }
      var i := slot.value;
      controllers[i] := controllers[i].(info := info);
      SaveController(i);
      NewIdentifier(cs, info.id);
      TableAfterSave(cs, i, info);
      assert controllers[..] == cs[i := Ctrl(info, true, i)];
    }

    /** Told to close were exactly the recorded sessions of removed controllers. So a session of a removed controller is
        told exactly when it found a free place, or was told before; and all of them are, unless all places have been
        taken at some verify. */
    twostate predicate SignalledExactly()
      reads this`closing, this`live, this`placed, this`crowded, controllers, sessions
    {
      var removed := ValidSlots(old(controllers[..])) - ValidSlots(controllers[..]);
      && ClosedFor(old(closing), closing, sessions[..], removed)
      && (forall c :: c in live && live[c].ctrl in removed ==> (c in closing <==> c in placed || c in old(closing)))
      && (!crowded ==> forall c :: c in live && live[c].ctrl in removed ==> c in closing)
    }

    lemma ClosedMeansSignalled(before: set<nat>, slots: set<nat>)
      requires ClosedFor(before, closing, sessions[..], slots) && SessionsValid()
      ensures forall c :: c in live && live[c].ctrl in slots ==> (c in closing <==> c in placed || c in before)
      ensures !crowded ==> forall c :: c in live && live[c].ctrl in slots ==> c in closing
    {
      forall c | c in live
        ensures forall i: nat :: HasSession(sessions[..], i, c) <==> c in placed && i == live[c].ctrl
      {
        assert c in placed <==> Recorded(sessions[..], c);
      }
    }

    method RemoveAllControllers()
      requires TableValid()
      modifies controllers, this`keystore, this`closing
      ensures TableValid() && !SomeValid(controllers[..]) && keystore == map[]
      ensures ValidSlots(controllers[..]) == {}
      ensures ClosedFor(old(closing), closing, sessions[..], ValidSlots(old(controllers[..])))
    {
      hide ClosedFor, HasSession;
      ghost var slots := ValidSlots(controllers[..]);
      ClosedForNone(closing, sessions[..]);
      assert slots - slots == {};
      for i := 0 to MAX_CONTROLLERS
        invariant TableValid() && ValidSlots(controllers[..]) <= slots
        invariant forall j :: 0 <= j < i ==> j !in ValidSlots(controllers[..])
        invariant ClosedFor(old(closing), closing, sessions[..], slots - ValidSlots(controllers[..]))
      {
        if controllers[i].valid {
          ghost var cs, before := controllers[..], closing;
          CloseSessionsOf(i);
          ClosedForMore(old(closing), before, closing, sessions[..], slots - ValidSlots(cs), {i});
          RemoveController(i);
          TableAfterClear(cs, i);
          SlotsAfterClear(cs, i);
          assert slots - ValidSlots(cs) + {i} == slots - ValidSlots(controllers[..]);
        }
      }
      assert ValidSlots(controllers[..]) == {};
      assert slots - {} == slots;
      NoSlots(controllers[..]);
      EmptyTable(controllers[..]);
    }

    method ProcessPairRemove(msg: PairingMsg) returns (r: Result)
      requires Valid() && SomeValid(controllers[..])
      modifies controllers, this`keystore, this`closing
      ensures Valid()
      ensures r == if msg.id.None? then Failure(Unknown) else Success
      ensures r.Failure? ==> keystore == old(keystore)
      // it goes; and if no other has permissions, all go
      ensures r.Success? ==>
        var rest := Without(old(keystore), msg.id.value);
        keystore == if exists i :: i in rest && rest[i].perms != 0 then rest else map[]
      ensures r.Success? ==> keystore == Removed(old(keystore), msg.id.value)
      ensures closing == old(closing) + if r.Success? then old(Now()).ToClose(keystore) else {}
      ensures r.Success? ==> SomeAdmin(controllers[..]) || (Table(controllers[..]) == map[] && keystore == map[])
      ensures r.Success? ==> !Known(controllers[..], msg.id.value)
      ensures SignalledExactly()
      ensures forall i :: i in keystore ==> i in old(keystore) && keystore[i] == old(keystore)[i]
      // while an administrator is left, nothing else is removed
      ensures r.Success? && SomeAdmin(controllers[..]) ==>
        forall i :: i in old(keystore) && old(keystore)[i].id != msg.id.value ==>
          i in keystore && keystore[i] == old(keystore)[i]
    {
      hide ClosedFor, HasSession, PlacesOk, Recorded, Progress, Disciplined;
      ghost var cs, slots := controllers[..], ValidSlots(controllers[..]);
      ClosedForNone(closing, sessions[..]);
      if msg.id.None? {
        assert slots - slots == {};
        ClosedMeansSignalled(old(closing), {});
        return Failure(Unknown);
      }
      SlotsInTable(controllers[..]);
      DistinctTable(controllers[..]);
      RemovedIs(keystore, msg.id.value);
      hide Without;
      RemoveOneOrAll(msg.id.value);
      ClosedMeansSignalled(old(closing), slots - ValidSlots(controllers[..]));
      SlotsInTable(controllers[..]);
      ClosedForExactly(old(Now()), closing, keystore);
      return Success;
    }

    // The controller goes, and when no administrator is left all others go too.
    method RemoveOneOrAll(id: seq<byte>)
      requires TableValid()
      modifies controllers, this`keystore, this`closing
      ensures TableValid() && !Known(controllers[..], id) && keystore == Removed(old(keystore), id)
      ensures (SomeValid(controllers[..]) ==> SomeValid(old(controllers[..])))
      ensures SomeAdmin(controllers[..]) || (Table(controllers[..]) == map[] && keystore == map[])
      ensures forall i :: i in keystore ==> i in old(keystore) && keystore[i] == old(keystore)[i]
      ensures SomeAdmin(controllers[..]) ==>
        forall i :: i in old(keystore) && old(keystore)[i].id != id ==> i in keystore && keystore[i] == old(keystore)[i]
      ensures ClosedFor(old(closing), closing, sessions[..],
                        ValidSlots(old(controllers[..])) - ValidSlots(controllers[..]))
    {
      hide ClosedFor, HasSession;
      ghost var slots := ValidSlots(controllers[..]);
      RemoveIfKnown(id);
      AdminInTable(controllers[..]);
      ghost var cs1, closing1 := controllers[..], closing;
      var paired := IsAdminPaired();
      if !paired {
        RemoveAllControllers();
        EmptyTable(controllers[..]);
        assert slots - ValidSlots(cs1) + ValidSlots(cs1) == slots - ValidSlots(controllers[..]);
        ClosedForMore(old(closing), closing1, closing, sessions[..], slots - ValidSlots(cs1), ValidSlots(cs1));
      }
    }

    // The controller that the request names goes.
    method RemoveIfKnown(id: seq<byte>)
      requires TableValid()
      modifies controllers, this`keystore, this`closing
      ensures TableValid() && !Known(controllers[..], id)
      ensures keystore == match SlotIn(old(keystore), id) {
        case Some(i) => old(keystore) - {i}
        case None => old(keystore)
      }
      ensures (SomeValid(controllers[..]) ==> SomeValid(old(controllers[..])))
      ensures ValidSlots(controllers[..]) <= ValidSlots(old(controllers[..]))
      ensures ClosedFor(old(closing), closing, sessions[..],
                        ValidSlots(old(controllers[..])) - ValidSlots(controllers[..]))
      ensures forall i :: i in old(keystore) && old(keystore)[i].id != id ==>
        i in keystore && keystore[i] == old(keystore)[i]
      ensures forall i :: i in keystore ==> i in old(keystore) && keystore[i] == old(keystore)[i]
    {
      hide HasSession;
      ghost var cs := controllers[..];
      SlotInTable(cs, id);
      var slot := GetController(id);
      if slot.Some? {
        assert IsSlotOf(cs, id, slot.value);
        CloseSessionsOf(slot.value);
        RemoveController(slot.value);
        TableAfterClear(cs, slot.value);
        SlotsAfterClear(cs, slot.value);
        UnknownAfterClear(cs, slot.value, id);
        assert ValidSlots(cs) - ValidSlots(controllers[..]) == {slot.value};
      }
    }

    /** Only an administrator's request changes anything. */
    method PairingsProcess(session: Option<SecureSession>, msg: PairingMsg) returns (r: Result)
      requires Valid() && (session.Some? ==> session.value.ctrl < MAX_CONTROLLERS)
      modifies controllers, this`keystore, this`closing
      ensures Valid()
      ensures !(session.Some? && session.value.verified && session.value.ctrl in old(keystore)
                && old(keystore)[session.value.ctrl].perms == 1) ==>
        r == Failure(Authentication) && Now() == old(Now())
      ensures !old(IsReqAdmin(session)) ==> r == Failure(Authentication)
      ensures old(IsReqAdmin(session)) ==> (r.Success? <==> old(Now()).Fulfilled(msg))
      ensures Now() == if r.Success? then old(Now()).Fulfil(msg) else old(Now())
      ensures r.Success? && msg.pairingMethod == Some(METHOD_REMOVE_PAIRING) ==>
        && (SomeAdmin(controllers[..]) || keystore == map[])
        && !Known(controllers[..], msg.id.value) && SignalledExactly()
        && forall i :: i in keystore ==> i in old(keystore) && keystore[i] == old(keystore)[i]
    {
      hide Accessory.SetupValid, Accessory.SessionsValid, Accessory.ConnsValid, Added, Removed;
      if session.Some? {
        ReqAdminMeans(session.value);
      }
      if !IsReqAdmin(session) {
        return Failure(Authentication);
      }
      assert controllers[..][session.value.ctrl].valid;
      if msg.state != Some(1) || msg.pairingMethod.None? {
        return Failure(Unknown);
      }
      if msg.pairingMethod.value == METHOD_ADD_PAIRING {
        r := ProcessPairAdd(msg);
      } else if msg.pairingMethod.value == METHOD_REMOVE_PAIRING {
        r := ProcessPairRemove(msg);
      } else if msg.pairingMethod.value == METHOD_LIST_PAIRINGS {
        return Success;
      } else {
        return Failure(Unknown);
      }
    }

    // ----- Pair Setup -----

    /** hap_pair_setup_context_init. `block` is what the allocator gives. */
    method ContextInit(conn: nat, block: nat) returns (ok: bool)
      requires SetupValid()
      modifies this`setup, this`contexts
      ensures SetupValid() && ok == old(setup).None? && contexts == old(contexts) + if ok then 1 else 0
      ensures if ok then setup == Some(SetupCtx(old(contexts), block, M0, 0, 0, conn)) else setup == old(setup)
    {
      if setup.Some? {
        return false;
      }
      setup := Some(SetupCtx(contexts, block, M0, 0, 0, conn));
      contexts := contexts + 1;
      return true;
    }

    method CtxClean()
      modifies this`setup
      ensures setup.None?
    {
      setup := None;
    }

    ghost method Note(e: Event)
      requires Disciplined(log) && (e.ControllerSaved? ==> Progress(log, e.ctx) == 3)
      modifies this`log
      ensures log == old(log) + [e] && Disciplined(log)
      ensures forall n: nat :: Progress(log, n) == Advance(Progress(old(log), n), e, n)
    {
      DisciplinedAppend(log, e);
      forall n: nat {
        ProgressAppend(log, e, n);
      }
      log := log + [e];
    }

    /** Nothing but the index of a free slot has changed. */
    ghost predicate IndexWritten(before: seq<Ctrl>, after: seq<Ctrl>) {
      before == after || exists i: nat :: FirstFree(before, i) && after == before[i := before[i].(index := i)]
    }

    // hap_controller_get_empty_loc when no slot is valid
    method ReserveSlot() returns (slot: Option<nat>)
      requires TableValid() && !SomeValid(controllers[..])
      modifies controllers
      ensures TableValid() && !SomeValid(controllers[..])
      ensures slot.Some? && slot.value < controllers.Length && controllers[slot.value].index == slot.value
      ensures slot == Some(0) && IndexWritten(old(controllers[..]), controllers[..])
    {
      ghost var cs := controllers[..];
      assert !cs[0].valid;
      slot := GetEmptyLoc();
      TableAfterScribble(cs, slot.value, controllers[slot.value]);
    }

    /** M1. The table gets no more than an index in a free slot. */
    method SrpStart(msg: SetupMsg) returns (r: Result)
      requires TableValid() && SetupValid() && setup.Some? && setup.value.state == M0
      modifies controllers, this`setup, this`pairingFlags, this`log
      ensures TableValid() && SetupValid()
      ensures r.Success? <==>
        !SomeValid(old(controllers[..])) && pairAttempts < MAX_ATTEMPTS && old(Now()).StartAcceptable(msg)
      ensures pairingFlags == old(Now()).FlagsAfter(msg)
      ensures r.Success? ==>
        setup == Some(old(setup).value.(ctrl := 0, pairingMethod := msg.pairingMethod.value, state := M2))
      ensures IndexWritten(old(controllers[..]), controllers[..])
      ensures setup.Some? && setup.value.conn == old(setup).value.conn
      ensures setup.value.number == old(setup).value.number && setup.value.block == old(setup).value.block
      ensures setup.value.state == if r.Success? then M2 else M0
      ensures log == old(log) + if r.Success? then [StartAccepted(setup.value.number)] else []
    {
      hide Progress, Disciplined, TableOk, Table;
      EmptyTable(controllers[..]);
      var paired := IsAccessoryPaired();
      if paired {
        return Failure(Unavailable);
      }
      if pairAttempts >= MAX_ATTEMPTS {
        return Failure(MaxTries);
      }
      var slot := ReserveSlot();
      if slot.None? {
        return Failure(Unknown);
      }
      var ctx := setup.value.(ctrl := slot.value);
      setup := Some(ctx);
      if msg.state.None? || msg.pairingMethod.None? {
        return Failure(Unknown);
      }
      setup := Some(ctx.(pairingMethod := msg.pairingMethod.value));
      if msg.state.value != 1 {
        return Failure(Unknown);
      }
      var flags := NO_FLAGS;
      if msg.flags.Some? {
        flags := msg.flags.value;
        if !flags.split {
          return Failure(Unknown);
        }
        if !(flags.transient || pairingFlags.transient) {
          return Failure(Authentication);
        }
      }
      pairingFlags := flags;
      if !msg.srpReady {
        return Failure(Unknown);
      }
      setup := Some(setup.value.(state := M2));
      Note(StartAccepted(setup.value.number));
      return Success;
    }

    /** M3. */
    method SrpVerify(msg: SetupMsg) returns (r: Result)
      requires SetupCounted() && setup.Some? && setup.value.state == M2
      modifies this`setup, this`log
      ensures SetupCounted()
      ensures r.Success? <==>
        msg.state == Some(3) && msg.hasKeyAndProof && msg.proofOk && old(setup).value.pairingMethod != METHOD_PAIR_SETUP
      ensures setup == Some(old(setup).value.(state := if r.Success? then M4 else M2))
      ensures log == old(log) + if r.Success? then [ProofAccepted(setup.value.number)] else []
    {
      if msg.state.None? || !msg.hasKeyAndProof {
        return Failure(Unknown);
      }
      if msg.state.value != 3 {
        return Failure(Unknown);
      }
      if !msg.proofOk {
        return Failure(Authentication);
      }
      // hap_pair_setup_manage_mfi_auth of the build without MFi
      if setup.value.pairingMethod == METHOD_PAIR_SETUP {
        return Failure(Unknown);
      }
      setup := Some(setup.value.(state := M4));
      Note(ProofAccepted(setup.value.number));
      return Success;
    }

    /** SetupValid while an attempt has been counted and its outcome is not known. */
    ghost predicate SetupCounted()
      reads this, controllers
    {
      && pairAttempts <= MAX_ATTEMPTS
      && Disciplined(log)
      && (forall n :: n >= contexts ==> Progress(log, n) == 0)
      && (setup.Some? ==> setup.value.number < contexts && setup.value.state != M0)
      && (setup.Some? ==> Progress(log, setup.value.number) == if setup.value.state == M2 then 1 else 2)
      && (setup.Some? ==>
            && !SomeValid(controllers[..])
            && setup.value.ctrl < controllers.Length && controllers[setup.value.ctrl].index == setup.value.ctrl)
    }

    /** M5. The free slot is written before the signature is checked, and made valid after. */
    method Exchange(msg: SetupMsg) returns (r: Result)
      requires TableValid() && SetupValid() && setup.Some? && setup.value.state == M4
      modifies controllers, this`keystore, this`pairAttempts, this`log
      ensures TableValid()
      ensures r.Success? <==>
        && msg.hasEncrypted && msg.state == Some(5) && msg.decrypts
        && msg.id.Some? && msg.ltpk.Some? && msg.hasSignature && msg.signatureOk
      ensures r.Success? ==> keystore == map[old(setup).value.ctrl := Info(msg.id.value, msg.ltpk.value, 1)]
      ensures r.Success? ==> pairAttempts == 0 && Disciplined(log)
      ensures r.Success? ==> forall n :: n >= contexts ==> Progress(log, n) == 0
      ensures r.Success? ==>
        log == old(log) + [SignatureAccepted(setup.value.number), ControllerSaved(setup.value.number)]
      ensures r.Failure? ==> SetupValid() && log == old(log) && keystore == old(keystore)
      ensures r.Failure? ==> pairAttempts == old(pairAttempts)
    {
      if msg.state.None? || !msg.hasEncrypted {
        return Failure(Unknown);
      }
      if msg.state.value != 5 {
        return Failure(Unknown);
      }
      if !msg.decrypts {
        return Failure(Authentication);
      }
      var i := setup.value.ctrl;
      ghost var cs := controllers[..];
      assert !cs[i].valid;
      var parsed := Scribble(i, msg);
      if !parsed {
        return Failure(Authentication);
      }
      if !msg.signatureOk {
        return Failure(Authentication);
      }
      Note(SignatureAccepted(setup.value.number));
      ghost var cs1 := controllers[..];
      var info := controllers[i].info.(perms := 1);
      controllers[i] := controllers[i].(info := info);
      pairAttempts := 0;
      SaveController(i);
      assert forall j :: 0 <= j < |cs1| ==> !cs1[j].valid;
      TableAfterSave(cs1, i, info);
      assert controllers[..] == cs1[i := Ctrl(info, true, i)];
      EmptyTable(cs1);
      Note(ControllerSaved(setup.value.number));
      return Success;
    }

    // The parts of the inner TLV go straight into the slot, as far as they can be read.
    method Scribble(i: nat, msg: SetupMsg) returns (parsed: bool)
      requires TableValid() && !SomeValid(controllers[..]) && i < controllers.Length && controllers[i].index == i
      modifies controllers
      ensures TableValid() && !SomeValid(controllers[..]) && Table(controllers[..]) == Table(old(controllers[..]))
      ensures controllers[i].index == i
      ensures forall j :: 0 <= j < controllers.Length && j != i ==> controllers[j] == old(controllers[j])
      ensures parsed <==> msg.id.Some? && msg.ltpk.Some? && msg.hasSignature
      ensures parsed ==> controllers[i].info.id == msg.id.value && controllers[i].info.ltpk == msg.ltpk.value
    {
      ghost var cs := controllers[..];
      assert !cs[i].valid && cs[i].info.perms == 0;
      var info := controllers[i].info;
      if msg.id.Some? {
        info := info.(id := msg.id.value);
        if msg.ltpk.Some? {
          info := info.(ltpk := msg.ltpk.value);
        }
      }
      controllers[i] := controllers[i].(info := info);
      TableAfterScribble(cs, i, controllers[i]);
      assert controllers[..] == cs[i := controllers[i]];
      parsed := msg.id.Some? && msg.ltpk.Some? && msg.hasSignature;
    }

    method Restart(block: nat) returns (ok: bool)
      requires SetupValid() && setup.Some?
      modifies this`setup, this`contexts
      ensures SetupValid() && ok && contexts == old(contexts) + 1
      ensures setup == Some(SetupCtx(old(contexts), block, M0, 0, 0, old(setup).value.conn))
    {
      var sockFd := setup.value.conn;
      CtxClean();
      ok := ContextInit(sockFd, block);
    }

    /** hap_pair_setup_process, called with a pointer to the context. A restart frees the context and makes a new one,
        in another block or the same; the handler's pointer follows, the server's does not. */
    method PairSetupProcess(conn: nat, msg: SetupMsg, block: nat) returns (r: Result)
      requires TableValid() && SetupValid() && setup.Some? && setup.value.conn == conn
      modifies controllers, this`keystore, this`pairAttempts, this`pairingFlags, this`setup, this`contexts, this`log
      modifies this`moves
      ensures moves == old(moves) + if old(Now()).Restarts(msg) then [block] else []
      ensures contexts == old(contexts) + if old(Now()).Restarts(msg) then 1 else 0
      ensures setup.Some? ==> setup.value.conn == conn
      ensures setup.Some? ==> setup.value.block == if old(Now()).Restarts(msg) then block else old(setup).value.block
      ensures TableValid() && pairAttempts <= MAX_ATTEMPTS && Disciplined(log) && old(log) <= log
      ensures forall n :: n >= contexts ==> Progress(log, n) == 0
      ensures r.Success? <==> old(Now()).Acceptable(msg)
      ensures r.Success? ==> SetupValid() && setup == old(Now()).ContextAfter(msg, block) && |log| > |old(log)|
      ensures pairAttempts ==
        if msg.state == Some(1) || old(setup).value.state == M0 then old(pairAttempts)
        else if old(setup).value.state == M2 then old(pairAttempts) + 1
        else if r.Success? then 0
        else old(pairAttempts)
      ensures pairAttempts == old(Now()).AttemptsAfter(msg) && pairingFlags == old(Now()).FlagsAfter(msg)
      ensures setup.None? ==> r.Success?
      ensures keystore == old(Now()).TableAfter(msg)
      ensures keystore != old(keystore) ==> r.Success? && setup.None? && OnlyNewController(msg)
    {
      hide Progress, Disciplined, TableOk, Table, State.Acceptable, State.AttemptsAfter, State.FlagsAfter;
      hide State.TableAfter, State.ContextAfter, OnlyNewController;
      var recvState := if msg.state.Some? then msg.state.value else 0;
      if recvState == 1 && setup.value.state != M0 {
        var ok := Restart(block);
        moves := moves + [block];
        if !ok {
          return Failure(Busy);
        }
        old(Now()).Restarted(msg, block, setup.value.conn);
      }
      assert msg.state == Some(1) ==> setup.value.state == M0;
      r := ProcessStep(msg, block);
    }

    // The step that the context is at.
    method ProcessStep(msg: SetupMsg, ghost block: nat) returns (r: Result)
      requires TableValid() && SetupValid() && setup.Some? && !Now().Restarts(msg)
      modifies controllers, this`keystore, this`pairAttempts, this`pairingFlags, this`setup, this`log
      ensures setup.Some? ==> setup.value.conn == old(setup).value.conn && setup.value.block == old(setup).value.block
      ensures TableValid() && pairAttempts <= MAX_ATTEMPTS && Disciplined(log) && old(log) <= log
      ensures forall n :: n >= contexts ==> Progress(log, n) == 0
      ensures r.Success? <==> old(Now()).Acceptable(msg)
      ensures r.Success? ==> SetupValid() && setup == old(Now()).ContextAfter(msg, block) && |log| > |old(log)|
      ensures pairAttempts ==
        match old(setup).value.state {
          case M0 => old(pairAttempts)
          case M2 => old(pairAttempts) + 1
          case M4 => if r.Success? then 0 else old(pairAttempts)
        }
      ensures pairAttempts == old(Now()).AttemptsAfter(msg) && pairingFlags == old(Now()).FlagsAfter(msg)
      ensures setup.None? ==> r.Success?
      ensures keystore == old(Now()).TableAfter(msg)
      ensures keystore != old(keystore) ==> r.Success? && setup.None? && OnlyNewController(msg)
    {
      hide Progress, Disciplined, TableOk, Table;
      EmptyTable(controllers[..]);
      match setup.value.state {
        case M0 =>
          r := SrpStart(msg);
        case M2 =>
          pairAttempts := pairAttempts + 1;
          r := SrpVerify(msg);
        case M4 =>
          r := Exchange(msg);
          if r.Success? {
            CtxClean();
          }
      }
    }

    /** The one controller there is came in this message, as an administrator, and its context took all steps. */
    ghost predicate OnlyNewController(msg: SetupMsg)
      reads this
    {
      && msg.signatureOk && msg.id.Some? && msg.ltpk.Some?
      && (exists i :: keystore == map[i := Info(msg.id.value, msg.ltpk.value, 1)])
      && log != [] && log[|log| - 1].ControllerSaved?
    }

    /** The pointer of a connection in setup is good exactly unless setup was restarted since it was set and the context
        is now elsewhere. */
    lemma PointerGoodExactly(conn: nat)
      requires Valid() && conn in setupPointer && conn !in live
      ensures Now().PointerGood(conn) <==> moves == [] || moves[|moves| - 1] == setupPointer[conn]
    {}

    /** hap_http_pair_setup_handler. A failure drops the context, whatever it was. None: the pointer does not point to
        the context, so what the code does is not defined, and the model stops. */
    method PairSetupHandler(conn: nat, msg: SetupMsg, block: nat) returns (r: Option<Result>)
      requires Valid()
      modifies controllers, this`keystore, this`pairAttempts, this`pairingFlags, this`setup, this`setupPointer
      modifies this`contexts, this`log, this`moves
      ensures Valid() && old(log) <= log
      ensures r.None? <==> !old(Now()).PointerGood(conn)
      ensures r.None? <==>
        || conn in live
        || (conn in old(setupPointer) && old(setup).Some? && old(setup).value.block != old(setupPointer)[conn])
      ensures Now() == if r.Some? then old(Now()).AfterSetup(conn, msg, block) else old(Now())
      // the context of another connection is left alone
      ensures r.Some? && old(setup).Some? && old(setup).value.conn != conn ==>
        r == Some(Failure(Busy)) && Now() == old(Now()) && moves == old(moves)
      ensures r.Some? && (old(setup).None? || old(setup).value.conn == conn) ==>
        (r.value.Success? <==> old(Now()).Acceptable(msg)) && (r.value.Failure? ==> setup.None?)
      // each proof tried counts, and a controller saved starts the count again
      ensures pairAttempts ==
        if r.Some? && AtStep(old(setup), conn, M2, msg) then old(pairAttempts) + 1
        else if r == Some(Success) && AtStep(old(setup), conn, M4, msg) then 0
        else old(pairAttempts)
      // a first message, or one that begins again
      ensures r.Some? && AtStart(old(setup), conn, msg) ==>
        var fits := old(keystore) == map[] && old(pairAttempts) < 100 && msg.state == Some(1) && msg.pairingMethod.Some?
          && (msg.flags.Some? ==>
                msg.flags.value.split && (msg.flags.value.transient || old(pairingFlags).transient));
        && (r.value.Success? <==> fits && msg.srpReady)
        && pairingFlags == (if !fits then old(pairingFlags) else if msg.flags.Some? then msg.flags.value
                            else Flags(false, false))
        && (r.value.Success? ==>
              setup.Some? && setup.value.state == M2 && setup.value.pairingMethod == msg.pairingMethod.value)
      // a proof
      ensures r.Some? && AtStep(old(setup), conn, M2, msg) ==>
        && (r.value.Success? <==>
              && msg.state == Some(3) && msg.hasKeyAndProof && msg.proofOk
              && old(setup).value.pairingMethod != 1)
        && pairingFlags == old(pairingFlags)
        && (r.value.Success? ==> setup == Some(old(setup).value.(state := M4)))
      // a signature
      ensures r.Some? && AtStep(old(setup), conn, M4, msg) ==>
        && (r.value.Success? <==>
              && msg.state == Some(5) && msg.hasEncrypted && msg.decrypts
              && msg.id.Some? && msg.ltpk.Some? && msg.hasSignature && msg.signatureOk)
        && pairingFlags == old(pairingFlags) && setup.None?
        && keystore == if r.value.Success? then
             map[old(setup).value.ctrl := Info(msg.id.value, msg.ltpk.value, 1)] else old(keystore)
      // beginning again takes the block that the allocator gives
      ensures r == Some(Success) && AtStart(old(setup), conn, msg) ==>
        && setup.Some? && setup.value.conn == conn
        && (old(setup).None? || old(setup).value.state != M0 ==> setup.value.block == block)
        && (old(setup).Some? && old(setup).value.state != M0 ==> moves == old(moves) + [block])
      // the pointer is set once, and a restart does not change it
      ensures r.Some? && setup.Some? && setup.value.conn == conn ==>
        if conn in old(setupPointer)
        then setupPointer == old(setupPointer) && moves == old(moves) + if old(Now()).Restarts(msg) then [block] else []
        else setupPointer == map[conn := block] && moves == []
      ensures keystore != old(keystore) ==>
        r == Some(Success) && setup.None? && OnlyNewController(msg) && |log| > |old(log)|
    {
      InSetupNow();
      Now().SetupMeans(conn, msg, block);
      Now().RestartMeans(conn, msg, block);
      Now().PointerMeans(conn);
      hide Accessory.Valid, OnlyNewController, State.AfterSetup, State.Acceptable, State.Restarts, State.PointerGood;
      r := SetupRequest(conn, msg, block);
    }

    // With a good pointer, or none.
    method SetupRequest(conn: nat, msg: SetupMsg, block: nat) returns (r: Option<Result>)
      requires Valid()
      modifies controllers, this`keystore, this`pairAttempts, this`pairingFlags, this`setup, this`setupPointer
      modifies this`contexts, this`log, this`moves
      ensures Valid() && old(log) <= log
      ensures r.None? <==> !old(Now()).PointerGood(conn)
      ensures Now() == if r.Some? then old(Now()).AfterSetup(conn, msg, block) else old(Now())
      // the context of another connection is left alone
      ensures r.Some? && old(setup).Some? && old(setup).value.conn != conn ==>
        r == Some(Failure(Busy)) && Now() == old(Now()) && moves == old(moves)
      ensures r.Some? && (old(setup).None? || old(setup).value.conn == conn) ==>
        (r.value.Success? <==> old(Now()).Acceptable(msg)) && (r.value.Failure? ==> setup.None?)
      // the pointer is set once, and a restart does not change it
      ensures r.Some? && setup.Some? && setup.value.conn == conn ==>
        if conn in old(setupPointer)
        then setupPointer == old(setupPointer) && moves == old(moves) + if old(Now()).Restarts(msg) then [block] else []
        else setupPointer == map[conn := block] && moves == []
      ensures keystore != old(keystore) ==>
        r == Some(Success) && setup.None? && OnlyNewController(msg) && |log| > |old(log)|
    {
      hide Progress, Disciplined, TableOk, Table, Accessory.SessionsValid, OnlyNewController, State.TableAfter;
      hide State.AttemptsAfter, State.FlagsAfter, State.Acceptable, State.Processed;
      if conn in live {
        return None;
      }
      if conn !in setupPointer {
        var ok := ContextInit(conn, block);
        if !ok {
          return Some(Failure(Busy));
        }
        setupPointer, moves := setupPointer[conn := block], [];
        assert Now() == old(Now()).Begun(conn, block);
        old(Now()).BegunSame(conn, msg, block);
      } else if setup.value.block != setupPointer[conn] {
        return None;
      }
      var result := ProcessOrDrop(conn, msg, block);
      return Some(result);
    }

    // The message is processed, and the context goes with a failure or with its success.
    method ProcessOrDrop(conn: nat, msg: SetupMsg, block: nat) returns (r: Result)
      requires TableValid() && SetupValid() && ConnsValid() && setup.Some? && setup.value.conn == conn
      modifies controllers, this`keystore, this`pairAttempts, this`pairingFlags, this`setup, this`setupPointer
      modifies this`contexts, this`log, this`moves
      ensures TableValid() && SetupValid() && ConnsValid() && old(log) <= log
      ensures r.Success? <==> old(Now()).Acceptable(msg)
      ensures Now() == old(Now()).Processed(conn, msg, block) && (r.Failure? ==> setup.None?)
      ensures setup.Some? ==> setupPointer == old(setupPointer)
      ensures moves == old(moves) + if old(Now()).Restarts(msg) then [block] else []
      ensures keystore != old(keystore) ==>
        r == Success && setup.None? && OnlyNewController(msg) && |log| > |old(log)|
    {
      hide Progress, Disciplined, TableOk, Table, State.Acceptable, State.AttemptsAfter, State.FlagsAfter;
      r := PairSetupProcess(conn, msg, block);
      var ctxIsNull := setup.None?;
      if r != Success {
        setup := None;
        ctxIsNull := true;
      }
      if ctxIsNull {
        setupPointer := setupPointer - {conn};
      }
    }

    /** hap_pair_setup_timeout: the server is asked to close the connection of the context. */
    method SetupTimeout()
      requires Valid()
      modifies this`closing
      ensures Valid() && Now() == old(Now()).After(Timeout)
      ensures closing == old(closing) + if setup.Some? then {setup.value.conn} else {}
    {
      if setup.Some? {
        closing := closing + {setup.value.conn};
      }
    }

    /** The server drops a connection and frees its context, whatever the pointer points to. */
    method ConnectionClosed(conn: nat)
      requires Valid()
      modifies sessions, this`setup, this`setupPointer, this`live, this`placed, this`closing
      ensures Valid()
      ensures setup == if old(setup).Some? && old(setup).value.conn == conn then None else old(setup)
      ensures live == old(live) - {conn} && placed == old(placed) - {conn} && closing == old(closing) - {conn}
      ensures setupPointer == old(setupPointer) - {conn}
      ensures forall k :: 0 <= k < sessions.Length ==>
        var s := old(sessions[..])[k];
        sessions[k] == if s.Some? && s.value.conn == conn then None else s
      ensures Now() == old(Now()).AfterClose(conn)
    {
      hide Accessory.TableValid, Accessory.SessionsValid, Progress, Disciplined, Freed, SomeValid;
      if conn in setupPointer {
        CtxClean();
        setupPointer := setupPointer - {conn};
      }
      SessionGone(conn);
      FreedMeans(old(sessions[..]), conn);
      assert forall k :: 0 <= k < sessions.Length ==> sessions[..][k] == sessions[k];
      closing := closing - {conn};
    }

    // The session of a connection, if it has one.
    method SessionGone(conn: nat)
      requires SessionsValid()
      modifies sessions, this`live, this`placed
      ensures SessionsValid() && sessions[..] == Freed(old(sessions[..]), conn)
      ensures live == old(live) - {conn} && placed == old(placed) - {conn}
    {
      hide PlacesOk, Recorded, Freed;
      PlacesAfterFree(sessions[..], live, conn);
      if conn in live {
        FreeSession(live[conn]);
        live := live - {conn};
      } else {
        NotRecorded(sessions[..], live, conn);
      }
      placed := placed - {conn};
    }

    /** Boot: what is in the keystore is what is in the table. */
    constructor (stored: map<nat, Info>)
      requires forall i :: i in stored ==> i < MAX_CONTROLLERS
      requires forall i, j :: i in stored && j in stored && i != j ==> stored[i].id != stored[j].id
      ensures Valid() && keystore == stored && setup.None? && pairAttempts == 0 && log == []
      ensures setupPointer == map[] && live == map[] && placed == {} && !crowded && closing == {}
      ensures pairingFlags == NO_FLAGS
      ensures sessions[..] == seq(MAX_SESSIONS, _ => None) && fresh(controllers) && fresh(sessions)
      ensures Table(controllers[..]) == stored
    {
      controllers := new Ctrl[MAX_CONTROLLERS](_ => CLEARED);
      sessions := new Option<SecureSession>[MAX_SESSIONS](_ => None);
      keystore, closing, pairAttempts, pairingFlags := stored, {}, 0, NO_FLAGS;
      setup, setupPointer, moves, log, contexts := None, map[], [], [], 0;
      live, placed, crowded := map[], {}, false;
      new;
      ControllersInit();
      assert Table(controllers[..]) == stored;
    }

    // ----- whole runs -----

    /** The session of the connection, if it has one, makes the request. A context of setup is no such session. None:
        the connection's pointer is to a context that is gone. */
    method PairingsHandler(conn: nat, msg: PairingMsg) returns (r: Option<Result>)
      requires Valid()
      modifies controllers, this`keystore, this`closing
      ensures Valid()
      ensures r.None? <==> conn in setupPointer && !old(Now()).PointerGood(conn)
      ensures r.None? <==> conn in setupPointer && setup.Some? && setup.value.block != setupPointer[conn]
      ensures Now() == if r.Some? then old(Now()).AfterPairings(conn, msg) else old(Now())
      ensures r.Some? ==> (r.value.Success? <==> old(Now()).IsAdmin(conn) && old(Now()).Fulfilled(msg))
      // without an administrator's session the answer is an error, and nothing changes
      ensures r == Some(Success) ==>
        && conn in live && live[conn].verified
        && live[conn].ctrl in old(keystore) && old(keystore)[live[conn].ctrl].perms == 1
      ensures
        r.Some? && !(conn in live && live[conn].verified
                     && live[conn].ctrl in old(keystore) && old(keystore)[live[conn].ctrl].perms == 1) ==>
        r == Some(Failure(Authentication)) && Now() == old(Now())
      ensures r == Some(Success) ==> msg.state == Some(1) && msg.pairingMethod in {Some(3), Some(4), Some(5)}
      ensures r == Some(Success) && msg.pairingMethod == Some(3) ==>
        && msg.id.Some? && msg.ltpk.Some? && msg.perms.Some?
        && var info := Info(msg.id.value, msg.ltpk.value, msg.perms.value);
           exists i :: GoesTo(old(keystore), info, i) && keystore == old(keystore)[i := info]
      ensures r == Some(Success) && msg.pairingMethod == Some(4) ==>
        && msg.id.Some?
        && var rest := Without(old(keystore), msg.id.value);
           keystore == if exists i :: i in rest && rest[i].perms != 0 then rest else map[]
      ensures r == Some(Success) && msg.pairingMethod == Some(5) ==> Now() == old(Now())
      ensures r.Some? && !old(Now()).IsAdmin(conn) ==> r.value == Failure(Authentication)
      ensures r == Some(Success) && msg.pairingMethod == Some(METHOD_REMOVE_PAIRING) ==>
        && (SomeAdmin(controllers[..]) || keystore == map[])
        && !Known(controllers[..], msg.id.value) && SignalledExactly()
        && forall i :: i in keystore ==> i in old(keystore) && keystore[i] == old(keystore)[i]
    {
      AdminIsAdmin(conn);
      DistinctTable(controllers[..]);
      old(Now()).FulfilledMeans(msg);
      hide Accessory.TableValid, Accessory.SetupValid, Known, State.Fulfil, State.Fulfilled;
      if conn in setupPointer && setup.value.block != setupPointer[conn] {
        return None;
      }
      var session := if conn in live then Some(live[conn]) else None;
      var result := PairingsProcess(session, msg);
      return Some(result);
    }

    lemma ReqAdminMeans(s: SecureSession)
      requires Valid() && s.ctrl < MAX_CONTROLLERS
      ensures IsReqAdmin(Some(s)) <==> s.verified && s.ctrl in keystore && keystore[s.ctrl].perms == 1
    {
      hide Accessory.SetupValid, Accessory.SessionsValid, Accessory.ConnsValid;
      assert controllers[..][s.ctrl] == controllers[s.ctrl];
    }

    lemma AdminIsAdmin(conn: nat)
      requires Valid()
      ensures conn in live ==> live[conn].ctrl < controllers.Length
      ensures Now().IsAdmin(conn) <==> conn in live && IsReqAdmin(Some(live[conn]))
    {
      if conn in live && IsReqAdmin(Some(live[conn])) {
        assert controllers[..][live[conn].ctrl].valid;
      }
    }

    /** Any sequence of events, up to the first that is not defined: a run of the machine, in which everything stays
        valid. */
    method Run(actions: seq<Action>) returns (n: nat)
      requires Valid()
      modifies this, controllers, sessions
      ensures Valid() && old(log) <= log && n <= |actions|
      ensures Now() == old(Now()).AfterAll(actions[..n])
      ensures forall k :: 0 <= k < n ==> !old(Now()).AfterAll(actions[..k]).Undefined(actions[k])
      ensures n < |actions| ==> Now().Undefined(actions[n])
      // while setup saves no controller the counter goes up by the proofs tried, which are 100 at most
      ensures forall j, k :: 0 <= j <= k <= n && (forall i :: j <= i < k ==> !SavesAt(old(Now()), actions, i)) ==>
        && old(Now()).AfterAll(actions[..k]).attempts
           == old(Now()).AfterAll(actions[..j]).attempts + TriesIn(old(Now()), actions, j, k)
        && TriesIn(old(Now()), actions, j, k) <= 100
      ensures forall k :: 0 <= k < n && SavesAt(old(Now()), actions, k) ==>
        old(Now()).AfterAll(actions[..k + 1]).attempts == 0
      // a pairings request that changes anything is an administrator's
      ensures forall k :: 0 <= k < n && RequestChanges(old(Now()), actions, k) ==>
        Administrator(old(Now()).AfterAll(actions[..k]), actions[k].conn)
    {
      hide Accessory.Valid, State.After, State.AfterAll, State.Undefined, SavesAt, TriesIn, RequestChanges;
      hide Administrator;
      ghost var s := Now();
      NoActions(s);
      InSetupNow();
      n := 0;
      while n < |actions|
        invariant Valid() && old(log) <= log && n <= |actions|
        invariant Now() == old(Now()).AfterAll(actions[..n])
        invariant forall k :: 0 <= k < n ==> !old(Now()).AfterAll(actions[..k]).Undefined(actions[k])
        invariant forall k :: 0 <= k <= n ==> old(Now()).AfterAll(actions[..k]).attempts <= 100
      {
        AfterOneMore(s, actions, n);
        var defined := Do(actions[n]);
        if !defined {
          break;
        }
        AttemptsNow();
        n := n + 1;
      }
      RunCounts(s, actions, n);
    }

    lemma InSetupNow()
      requires Valid()
      ensures OneInSetup(Now()) && pairAttempts <= 100
    {
      hide Accessory.TableValid, Accessory.SessionsValid;
    }

    lemma AttemptsNow()
      requires Valid()
      ensures Now().attempts <= 100
    {
      hide Accessory.TableValid, Accessory.SessionsValid, Accessory.ConnsValid;
    }

    method Do(a: Action) returns (defined: bool)
      requires Valid()
      modifies this, controllers, sessions
      ensures Valid() && old(log) <= log
      ensures defined <==> !old(Now()).Undefined(a)
      ensures Now() == if defined then old(Now()).After(a) else old(Now())
    {
      hide Accessory.TableValid, Accessory.SetupValid, Accessory.SessionsValid;
      defined := true;
      match a {
        case Setup(conn, msg, block) =>
          var r := PairSetupHandler(conn, msg, block);
          defined := r.Some?;
        case Pairings(conn, msg) =>
          var r := PairingsHandler(conn, msg);
          defined := r.Some?;
        case Verify(conn, id, signatureOk) =>
          var r;
          defined, r := VerifyFinish(conn, id, signatureOk);
        case Timeout =>
          SetupTimeout();
        case Close(conn) =>
          ConnectionClosed(conn);
      }
    }
  }

  // What a run of the machine says of attempts and of administrators.
  lemma RunCounts(s: State, actions: seq<Action>, n: nat)
    requires OneInSetup(s) && n <= |actions|
    requires forall k :: 0 <= k <= n ==> s.AfterAll(actions[..k]).attempts <= 100
    ensures forall j, k :: 0 <= j <= k <= n && (forall i :: j <= i < k ==> !SavesAt(s, actions, i)) ==>
      && s.AfterAll(actions[..k]).attempts == s.AfterAll(actions[..j]).attempts + TriesIn(s, actions, j, k)
      && TriesIn(s, actions, j, k) <= 100
    ensures forall k :: 0 <= k < n && SavesAt(s, actions, k) ==> s.AfterAll(actions[..k + 1]).attempts == 0
    ensures forall k :: 0 <= k < n && RequestChanges(s, actions, k) ==>
      Administrator(s.AfterAll(actions[..k]), actions[k].conn)
  {
    hide SavesAt, TriesIn, Administrator, State.AfterAll, State.After;
    forall j, k | 0 <= j <= k <= n && (forall i :: j <= i < k ==> !SavesAt(s, actions, i))
      ensures s.AfterAll(actions[..k]).attempts == s.AfterAll(actions[..j]).attempts + TriesIn(s, actions, j, k)
      ensures TriesIn(s, actions, j, k) <= 100
    {
      AttemptsCounted(s, actions, j, k);
    }
    forall k | 0 <= k < n
      ensures SavesAt(s, actions, k) ==> s.AfterAll(actions[..k + 1]).attempts == 0
      ensures RequestChanges(s, actions, k) ==>
        Administrator(s.AfterAll(actions[..k]), actions[k].conn)
    {
      if SavesAt(s, actions, k) {
        AttemptsReset(s, actions, k);
      }
      AfterOneMore(s, actions, k);
      if actions[k].Pairings? {
        OnlyAdministrators(s.AfterAll(actions[..k]), actions[k].conn, actions[k].pairingMsg);
      }
    }
  }

  lemma NotRecorded(sessions: Places, live: map<nat, SecureSession>, conn: nat)
    requires PlacesOk(sessions, live) && conn !in live
    ensures Freed(sessions, conn) == sessions && live - {conn} == live
  {}

  /** A reboot after any run finds the table as it was, up to what free slots hold. */
  method RebootKeepsTable(a: Accessory) returns (b: Accessory)
    requires a.Valid()
    ensures fresh(b) && b.Valid() && Table(b.controllers[..]) == Table(a.controllers[..])
    ensures forall i :: 0 <= i < MAX_CONTROLLERS && a.controllers[i].valid ==> b.controllers[i] == a.controllers[i]
  {
    forall i, j | i in a.keystore && j in a.keystore && i != j
      ensures a.keystore[i].id != a.keystore[j].id
    {
      assert a.keystore[i] == a.controllers[..][i].info && a.keystore[j] == a.controllers[..][j].info;
    }
    b := new Accessory(a.keystore);
    forall i | 0 <= i < MAX_CONTROLLERS && a.controllers[i].valid
      ensures b.controllers[i] == a.controllers[i]
    {
      assert a.controllers[..][i].valid && i in Table(a.controllers[..]);
      assert i in Table(b.controllers[..]) && b.controllers[..][i].valid && b.controllers[..][i].index == i;
    }
  }

  // ----- two runs in which the code does not do what it should -----

  /** Nine connections verify as the one administrator, who then removes himself. All controllers are gone, but the
      ninth session, which found no place, is not told to close. */
  method NineSessions(id: seq<byte>, ltpk: seq<byte>) returns (a: Accessory)
    ensures fresh(a) && a.Valid() && a.keystore == map[] && a.crowded
    ensures forall c: nat :: c <= 8 ==> c in a.live && a.live[c].ctrl == 0
    ensures forall c: nat :: c <= 8 ==> (c in a.closing <==> c < 8)
  {
    a := new Accessory(map[0 := Info(id, ltpk, 1)]);
    assert 0 in Table(a.controllers[..]);
    for conn := 0 to 9
      invariant Verified(a, id, ltpk, conn) && fresh(a) && fresh(a.sessions) && fresh(a.controllers)
    {
      VerifyNext(a, id, ltpk, conn);
    }
    var remove := PairingMsg(Some(1), Some(METHOD_REMOVE_PAIRING), Some(id), None, None);
    RemoveLast(a, id, ltpk, remove);
  }

  /** The one controller has verified on this many connections. */
  ghost predicate Verified(a: Accessory, id: seq<byte>, ltpk: seq<byte>, n: nat)
    reads a, a.controllers, a.sessions
  {
    && a.Valid() && a.setupPointer == map[] && a.closing == {} && a.keystore == map[0 := Info(id, ltpk, 1)]
    && FilledTo(a.sessions[..], n)
    && (forall c :: c in a.live <==> 0 <= c < n)
    && (forall c :: c in a.live ==> a.live[c] == SecureSession(true, 0, c))
    && (forall c :: c in a.placed <==> 0 <= c < n && c < MAX_SESSIONS)
    && (a.crowded <==> n > MAX_SESSIONS)
  }

  predicate FilledTo(places: Places, n: nat) {
    |places| == MAX_SESSIONS && forall k :: 0 <= k < |places| ==> (places[k].Some? <==> k < n)
  }

  lemma FillNext(places: Places, n: nat, s: SecureSession)
    requires FilledTo(places, n)
    ensures FreePlace(places) <==> n < MAX_SESSIONS
    ensures n < MAX_SESSIONS ==> FirstFreePlace(places, n) && FilledTo(places[n := Some(s)], n + 1)
    ensures n >= MAX_SESSIONS ==> FilledTo(places, n + 1)
  {
    if n < MAX_SESSIONS {
      assert places[n].None?;
    }
  }

  lemma OneController(cs: seq<Ctrl>, info: Info)
    requires TableOk(cs) && Table(cs) == map[0 := info]
    ensures cs[0].valid && cs[0].info == info && Known(cs, info.id) && ValidSlots(cs) == {0}
    ensures forall i: nat :: IsSlotOf(cs, info.id, i) ==> i == 0
  {
    assert 0 in Table(cs);
    assert IsSlotOf(cs, info.id, 0);
    forall i: nat | i < |cs| && cs[i].valid ensures i == 0 {
      assert i in Table(cs);
    }
  }

  method VerifyNext(a: Accessory, id: seq<byte>, ltpk: seq<byte>, conn: nat)
    requires Verified(a, id, ltpk, conn)
    modifies a, a.sessions
    ensures Verified(a, id, ltpk, conn + 1)
  {
    hide Accessory.SetupValid, Accessory.ConnsValid, Accessory.SessionsValid, FilledTo, FreePlace, FirstFreePlace;
    hide State.AfterVerify, TableOk, Known;
    FillNext(a.sessions[..], conn, SecureSession(true, 0, conn));
    OneController(a.controllers[..], Info(id, ltpk, 1));
    hide Accessory.TableValid;
    var defined, r := a.VerifyFinish(conn, id, true);
  }

  method RemoveLast(a: Accessory, id: seq<byte>, ltpk: seq<byte>, msg: PairingMsg)
    requires Verified(a, id, ltpk, 9)
    requires msg.state == Some(1) && msg.pairingMethod == Some(METHOD_REMOVE_PAIRING) && msg.id == Some(id)
    modifies a, a.controllers
    ensures a.Valid() && a.keystore == map[] && a.crowded == old(a.crowded) && a.live == old(a.live)
    ensures forall c :: c in a.live ==> (c in a.closing <==> c < MAX_SESSIONS)
  {
    OneController(a.controllers[..], Info(id, ltpk, 1));
    hide PlacesOk, Recorded, ClosedFor, Accessory.SetupValid, Accessory.ConnsValid;
    var r := a.PairingsHandler(0, msg);
    EmptyTable(a.controllers[..]);
    NoSlots(a.controllers[..]);
  }

  /** M1, M1 and M3 on one connection. The second M1 restarts setup, and the server's pointer stays on the block of the
      first context: the third message is defined exactly if the allocator gave the same block again. */
  method StartTwice(block0: nat, block1: nat, proof: SetupMsg) returns (a: Accessory, r: Option<Result>)
    ensures fresh(a) && a.Valid() && (r.Some? <==> block0 == block1)
  {
    hide Accessory.Valid, State.AfterSetup, State.StartAcceptable, State.Undefined;
    a := new Accessory(map[]);
    ghost var boot := a.Now();
    var start := SetupMsg(Some(1), Some(0), None, true, false, false, false, false, None, None, false, false);
    RestartStrands(boot, 7, start, block0, block1);
    r := a.PairSetupHandler(7, start, block0);
    r := a.PairSetupHandler(7, start, block1);
    r := a.PairSetupHandler(7, proof, block1);
  }
}
