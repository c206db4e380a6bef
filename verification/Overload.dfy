// What overload protection makes of a history of sums: which reports take the sum over the limit, and which of them
// the check of 16 bits and its latch answer with a turn-off (CommandHandler.cpp, CoreBridge.cpp).

module Overload {
  const MAX_CURRENT := 1500

  /** Modules are removed, to be linked again; or a report leaves this sum of currents. */
  datatype Event = Cleared | Reported(sum: nat)

  function Init(h: seq<Event>): seq<Event>
    requires h != []
  {
    h[..|h| - 1]
  }

  function Last(h: seq<Event>): Event
    requires h != []
  {
    h[|h| - 1]
  }

  function SumAfter(h: seq<Event>): nat {
    if h == [] || Last(h).Cleared? then 0 else Last(h).sum
  }

  /** The check looks at the low 16 bits of a sum. */
  predicate Seen(sum: nat) {
    sum % 0x1_0000 > MAX_CURRENT
  }

  /** The latch says how the last check went. Removing modules leaves it. */
  predicate Latched(h: seq<Event>) {
    if h == [] then false else if Last(h).Cleared? then Latched(Init(h)) else Seen(Last(h).sum)
  }

  /** The last event queued a turn-off. */
  predicate Fires(h: seq<Event>) {
    h != [] && Last(h).Reported? && Seen(Last(h).sum) && !Latched(Init(h))
  }

  /** The last event took the sum over the limit: an overload begins. */
  predicate Crosses(h: seq<Event>) {
    h != [] && Last(h).Reported? && SumAfter(Init(h)) <= MAX_CURRENT < Last(h).sum
  }

  function Fired(h: seq<Event>): nat {
    if h == [] then 0 else Fired(Init(h)) + if Fires(h) then 1 else 0
  }

  function Crossed(h: seq<Event>): nat {
    if h == [] then 0 else Crossed(Init(h)) + if Crosses(h) then 1 else 0
  }

  /** A report changes one current, of 16 bits. */
  predicate Plausible(h: seq<Event>) {
    h == [] || (Plausible(Init(h)) && (Last(h).Reported? ==> Last(h).sum <= SumAfter(Init(h)) + 0xffff))
  }

  lemma Append(h: seq<Event>, e: Event)
    ensures Init(h + [e]) == h && Last(h + [e]) == e
  {}

  // ----- when a crossing is answered -----

  /** Event j removed modules during an overload that had been seen, and nothing has been reported since. */
  predicate ClearedAt(h: seq<Event>, j: nat) {
    && j < |h| && SumAfter(h[..j]) > MAX_CURRENT && Seen(SumAfter(h[..j]))
    && forall i :: j <= i < |h| ==> h[i].Cleared?
  }

  ghost predicate ClearedInOverload(h: seq<Event>) {
    exists j: nat :: ClearedAt(h, j)
  }

  /** Within the limit the latch is set only for that reason. */
  lemma {:induction false} LatchedWithinLimit(h: seq<Event>)
    requires SumAfter(h) <= MAX_CURRENT
    ensures Latched(h) <==> ClearedInOverload(h)
  {
    if h != [] && Last(h).Cleared? {
      var g := Init(h);
      assert h == g + [Cleared];
      if SumAfter(g) <= MAX_CURRENT {
        LatchedWithinLimit(g);
        forall j: nat ensures ClearedAt(g, j) <==> ClearedAt(h, j) {
          assert j < |g| ==> h[..j] == g[..j];
          assert forall i :: 0 <= i < |g| ==> h[i] == g[i];
          assert h[..|g|] == g;
        }
      } else {
        assert h[..|g|] == g && h[|g| - 1] == Last(g);
        assert ClearedAt(h, |g|) <==> Seen(SumAfter(g));
      }
    }
  }

  /** A crossing queues a turn-off exactly when the new sum is below 65536 and no modules were removed during an
      overload with nothing reported since. */
  lemma CrossingAnswered(h: seq<Event>)
    requires Plausible(h) && Crosses(h)
    ensures Fires(h) <==> Last(h).sum < 0x1_0000 && !Latched(Init(h))
    ensures Fires(h) <==> Last(h).sum < 0x1_0000 && !ClearedInOverload(Init(h))
  {
    LatchedWithinLimit(Init(h));
  }

  // ----- when there is one turn-off for each overload -----

  /** The latch is set exactly while the sum is over the limit. */
  predicate InStep(h: seq<Event>) {
    Latched(h) <==> SumAfter(h) > MAX_CURRENT
  }

  /** What keeps the latch in step: to remove modules only within the limit, and sums that 16 bits show rightly. */
  lemma StepKept(h: seq<Event>, sum: nat)
    ensures InStep(h) ==> (InStep(h + [Cleared]) <==> SumAfter(h) <= MAX_CURRENT)
    ensures InStep(h + [Reported(sum)]) <==> sum <= MAX_CURRENT || Seen(sum)
  {
    Append(h, Cleared);
    Append(h, Reported(sum));
  }

  ghost predicate NextIsRight(h: seq<Event>) {
    forall sum: nat :: sum < 0x1_0000 ==> (Fires(h + [Reported(sum)]) <==> Crosses(h + [Reported(sum)]))
  }

  /** Only in step, every next report below 65536 queues a turn-off exactly when it crosses the limit. */
  lemma InStepExactly(h: seq<Event>)
    ensures InStep(h) <==> NextIsRight(h)
  {
    forall sum: nat ensures Init(h + [Reported(sum)]) == h && Last(h + [Reported(sum)]) == Reported(sum) {
      Append(h, Reported(sum));
    }
    if !InStep(h) {
      assert Fires(h + [Reported(1501)]) != Crosses(h + [Reported(1501)]);
    }
  }

  /** Modules are removed only while the sum is within the limit, and no sum reaches 65536. */
  predicate Orderly(h: seq<Event>) {
    forall k :: 0 <= k < |h| ==> if h[k].Cleared? then SumAfter(h[..k]) <= MAX_CURRENT else h[k].sum < 0x1_0000
  }

  /** Then every report queues a turn-off exactly when it takes the sum over the limit. */
  lemma {:induction false} OneTurnOffEach(h: seq<Event>)
    requires Orderly(h)
    ensures InStep(h) && (Fires(h) <==> Crosses(h)) && Fired(h) == Crossed(h)
  {
    if h != [] {
      var g := Init(h);
      assert Orderly(g) by {
        assert forall k :: 0 <= k < |g| ==> g[k] == h[k] && g[..k] == h[..k];
      }
      OneTurnOffEach(g);
      assert h[..|h| - 1] == g && h[|h| - 1] == Last(h);
    }
  }

  /** Event k queued a turn-off exactly if it took the sum over the limit. */
  predicate RightAt(h: seq<Event>, k: nat)
    requires k < |h|
  {
    Fires(h[..k + 1]) <==> Crosses(h[..k + 1])
  }

  predicate OneForEach(h: seq<Event>) {
    forall k: nat :: k < |h| ==> RightAt(h, k)
  }

  /** What decides for a report that leaves the given sum: a crossing needs a sum below 65536 and no removal during an
      overload just before; and an overload that was not seen must not come to be seen late. */
  ghost predicate Decides(h: seq<Event>, sum: nat) {
    && (SumAfter(h) <= MAX_CURRENT < sum ==> sum < 0x1_0000 && !ClearedInOverload(h))
    && (SumAfter(h) > MAX_CURRENT && !Seen(SumAfter(h)) ==> !Seen(sum))
  }

  lemma DecidesExactly(h: seq<Event>, sum: nat)
    requires Plausible(h + [Reported(sum)])
    ensures (Fires(h + [Reported(sum)]) <==> Crosses(h + [Reported(sum)])) <==> Decides(h, sum)
  {
    Append(h, Reported(sum));
    if SumAfter(h) <= MAX_CURRENT {
      LatchedWithinLimit(h);
    }
  }

  lemma {:induction false} PlausiblePrefix(h: seq<Event>, k: nat)
    requires Plausible(h) && k <= |h|
    ensures Plausible(h[..k])
    decreases |h|
  {
    if k < |h| {
      assert Init(h)[..k] == h[..k];
      PlausiblePrefix(Init(h), k);
    } else {
      assert h[..k] == h;
    }
  }

  ghost predicate DecidesAt(h: seq<Event>, k: nat)
    requires k < |h|
  {
    h[k].Reported? ==> Decides(h[..k], h[k].sum)
  }

  lemma RightAtExactly(h: seq<Event>, k: nat)
    requires Plausible(h) && k < |h|
    ensures RightAt(h, k) <==> DecidesAt(h, k)
  {
    var g := h[..k];
    assert h[..k + 1] == g + [h[k]];
    PlausiblePrefix(h, k + 1);
    if h[k].Reported? {
      DecidesExactly(g, h[k].sum);
    } else {
      Append(g, h[k]);
    }
  }

  /** In a run each overload has one turn-off, and each turn-off an overload, exactly when every report decides so. */
  lemma OneForEachExactly(h: seq<Event>)
    requires Plausible(h)
    ensures OneForEach(h) <==> forall k: nat :: k < |h| ==> DecidesAt(h, k)
  {
    hide RightAt, DecidesAt, Plausible;
    forall k: nat | k < |h| ensures RightAt(h, k) <==> DecidesAt(h, k) {
      RightAtExactly(h, k);
    }
  }

  /** Then there are as many turn-offs as overloads. */
  lemma {:induction false} OneForEachCounts(h: seq<Event>)
    requires OneForEach(h)
    ensures Fired(h) == Crossed(h)
  {
    if h != [] {
      var g := Init(h);
      forall k: nat | k < |g| ensures RightAt(g, k) {
        assert RightAt(h, k) && h[..k + 1] == g[..k + 1];
      }
      OneForEachCounts(g);
      assert RightAt(h, |h| - 1) && h[..|h|] == h;
    }
  }
}
