// The controller table (esp_hap_controllers.c) and the record of pair-setup progress, as values.

module Controllers {
  import opened Bytes

  const MAX_CONTROLLERS := 16

  /** A paired controller: identifier as a C string, long-term public key, permissions. */
  datatype Info = Info(id: seq<byte>, ltpk: seq<byte>, perms: byte)

  datatype Ctrl = Ctrl(info: Info, valid: bool, index: nat)

  /** A slot after memset. */
  const CLEARED: Ctrl := Ctrl(Info([], Repeat(0, 32), 0), false, 0)

  predicate SomeValid(cs: seq<Ctrl>) {
    exists i :: 0 <= i < |cs| && cs[i].valid
  }

  predicate SomeAdmin(cs: seq<Ctrl>) {
    exists i :: 0 <= i < |cs| && cs[i].valid && cs[i].info.perms != 0
  }

  /** Valid slots know their position and have distinct identifiers; free slots have no permissions. */
  predicate TableOk(cs: seq<Ctrl>) {
    && |cs| == MAX_CONTROLLERS
    && (forall i :: 0 <= i < |cs| ==> if cs[i].valid then cs[i].index == i else cs[i].info.perms == 0)
    && (forall i, j :: 0 <= i < j < |cs| && cs[i].valid && cs[j].valid ==> cs[i].info.id != cs[j].info.id)
  }

  /** What the table stands for. */
  function Table(cs: seq<Ctrl>): map<nat, Info> {
    map i: nat | i < |cs| && cs[i].valid :: cs[i].info
  }

  /** Slot of the valid controller with this identifier. */
  predicate IsSlotOf(cs: seq<Ctrl>, id: seq<byte>, i: nat) {
    i < |cs| && cs[i].valid && cs[i].info.id == id
  }

  ghost predicate Known(cs: seq<Ctrl>, id: seq<byte>) {
    exists i :: IsSlotOf(cs, id, i)
  }

  predicate FirstFree(cs: seq<Ctrl>, i: nat) {
    i < |cs| && !cs[i].valid && forall j :: 0 <= j < i ==> cs[j].valid
  }

  lemma TableAfterSave(cs: seq<Ctrl>, i: nat, info: Info)
    requires TableOk(cs) && i < |cs|
    requires forall j :: 0 <= j < |cs| && j != i && cs[j].valid ==> cs[j].info.id != info.id
    ensures TableOk(cs[i := Ctrl(info, true, i)])
    ensures Table(cs[i := Ctrl(info, true, i)]) == Table(cs)[i := info]
  {}

  lemma TableAfterClear(cs: seq<Ctrl>, i: nat)
    requires TableOk(cs) && i < |cs|
    ensures TableOk(cs[i := CLEARED])
    ensures Table(cs[i := CLEARED]) == Table(cs) - {i}
  {}

  // Changing a free slot, other than its permissions, changes nothing that counts.
  lemma TableAfterScribble(cs: seq<Ctrl>, i: nat, c: Ctrl)
    requires TableOk(cs) && i < |cs| && !cs[i].valid && !c.valid && c.info.perms == 0
    ensures TableOk(cs[i := c]) && Table(cs[i := c]) == Table(cs)
    ensures SomeValid(cs[i := c]) == SomeValid(cs) && SomeAdmin(cs[i := c]) == SomeAdmin(cs)
  {
    var after := cs[i := c];
    assert forall j :: 0 <= j < |cs| ==> after[j].valid == cs[j].valid && (cs[j].valid ==> after[j] == cs[j]);
  }

  lemma EmptyTable(cs: seq<Ctrl>)
    ensures Table(cs) == map[] <==> !SomeValid(cs)
  {
    if SomeValid(cs) {
      var i: nat :| i < |cs| && cs[i].valid;
      assert i in Table(cs);
    }
  }

  // ----- progress of pair setup -----

  /** What pair setup has accepted and done, by context. */
  datatype Event =
    | StartAccepted(ctx: nat)      // M1
    | ProofAccepted(ctx: nat)      // M3: the client proof of SRP
    | SignatureAccepted(ctx: nat)  // M5
    | ControllerSaved(ctx: nat)

  /** Progress p of a context after one more event. */
  function Advance(p: nat, e: Event, ctx: nat): nat {
    if e == StartAccepted(ctx) && p == 0 then 1
    else if e == ProofAccepted(ctx) && p == 1 then 2
    else if e == SignatureAccepted(ctx) && p == 2 then 3
    else p
  }

  /** How many steps a context has completed, in order and each after the one before it. */
  function Progress(log: seq<Event>, ctx: nat): nat {
    if log == [] then 0 else Advance(Progress(log[..|log| - 1], ctx), log[|log| - 1], ctx)
  }

  /** Every controller saved by setup was saved for a context that had completed all three steps. */
  predicate Disciplined(log: seq<Event>) {
    forall k :: 0 <= k < |log| && log[k].ControllerSaved? ==> Progress(log[..k], log[k].ctx) == 3
  }

  lemma ProgressAppend(log: seq<Event>, e: Event, ctx: nat)
    ensures Progress(log + [e], ctx) == Advance(Progress(log, ctx), e, ctx)
  {
    assert (log + [e])[..|log|] == log;
  }

  lemma DisciplinedAppend(log: seq<Event>, e: Event)
    requires Disciplined(log) && (e.ControllerSaved? ==> Progress(log, e.ctx) == 3)
    ensures Disciplined(log + [e])
  {
    forall k | 0 <= k < |log + [e]| && (log + [e])[k].ControllerSaved?
      ensures Progress((log + [e])[..k], (log + [e])[k].ctx) == 3
    {
      assert (log + [e])[..k] == log[..k];
      if k == |log| { assert log[..k] == log; }
    }
  }

  // Event e, or steps up to it, among the first k entries.
  ghost predicate StartedBefore(log: seq<Event>, ctx: nat, k: nat)
    requires k <= |log|
  {
    exists i :: 0 <= i < k && log[i] == StartAccepted(ctx)
  }

  ghost predicate ProvedBefore(log: seq<Event>, ctx: nat, k: nat)
    requires k <= |log|
  {
    exists i :: 0 <= i < k && log[i] == ProofAccepted(ctx) && StartedBefore(log, ctx, i)
  }

  ghost predicate SignedBefore(log: seq<Event>, ctx: nat, k: nat)
    requires k <= |log|
  {
    exists i :: 0 <= i < k && log[i] == SignatureAccepted(ctx) && ProvedBefore(log, ctx, i)
  }

  lemma {:induction false} StepsInOrder(log: seq<Event>, ctx: nat, k: nat)
    requires k <= |log|
    ensures Progress(log[..k], ctx) <= 3
    ensures Progress(log[..k], ctx) >= 1 ==> StartedBefore(log, ctx, k)
    ensures Progress(log[..k], ctx) >= 2 ==> ProvedBefore(log, ctx, k)
    ensures Progress(log[..k], ctx) == 3 ==> SignedBefore(log, ctx, k)
    decreases k
  {
    if k > 0 {
      assert log[..k][..k - 1] == log[..k - 1];
      StepsInOrder(log, ctx, k - 1);
    }
  }

  /** Before setup saves a controller, the same context accepted M1, then an M3 proof, then an M5 signature. */
  lemma SavedOnlyAfterAllSteps(log: seq<Event>, k: nat)
    requires Disciplined(log) && k < |log| && log[k].ControllerSaved?
    ensures SignedBefore(log, log[k].ctx, k)
  {
    StepsInOrder(log, log[k].ctx, k);
  }
}
