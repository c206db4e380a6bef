// Stream::findMulti and Stream::findUntil (arduino/cores/esp32/Stream.cpp).
//
// `findMulti` searches a stream for several targets at once, one byte at a time and without a
// failure table: on a mismatch it looks for the longest border of the matched part by comparing
// the target with itself.

module StreamSearch {
  import opened Bytes

  type text = seq<byte>

  /** The C struct: the string searched for, whose `len` bytes are `str`, and the search index. */
  datatype MultiTarget = MultiTarget(str: text, index: nat)

  predicate EndsWith(s: text, p: text) {
    |p| <= |s| && s[|s| - |p|..] == p
  }

  // The first k bytes of p are the last k bytes of s.
  predicate Overlaps(s: text, p: text, k: nat) {
    k <= |p| && EndsWith(s, p[..k])
  }

  /** k is the length of the longest prefix of p that ends s. */
  ghost predicate LongestOverlap(s: text, p: text, k: nat) {
    Overlaps(s, p, k) && forall j :: k < j <= |p| ==> !Overlaps(s, p, j)
  }

  predicate SomeTargetEnds(s: text, strs: seq<text>) {
    exists t :: 0 <= t < |strs| && EndsWith(s, strs[t])
  }

  /** r is the lowest-numbered target that ends s. */
  predicate FirstTargetEnding(s: text, strs: seq<text>, r: int) {
    0 <= r < |strs| && EndsWith(s, strs[r]) && forall t :: 0 <= t < r ==> !EndsWith(s, strs[t])
  }

  /** After n bytes of the stream some target has ended, and none had ended before. */
  ghost predicate FirstHit(stream: text, strs: seq<text>, n: nat, r: int) {
    && n <= |stream|
    && FirstTargetEnding(stream[..n], strs, r)
    && forall k :: 0 <= k < n ==> !SomeTargetEnds(stream[..k], strs)
  }

  ghost predicate NoHit(stream: text, strs: seq<text>) {
    forall k :: 0 <= k <= |stream| ==> !SomeTargetEnds(stream[..k], strs)
  }

  /** The search outcome is unique: the first hit fixes both the position and the target. */
  lemma FirstHitIsUnique(stream: text, strs: seq<text>, n: nat, r: int, n': nat, r': int)
    requires FirstHit(stream, strs, n, r) && FirstHit(stream, strs, n', r')
    ensures n == n' && r == r'
  {
    assert SomeTargetEnds(stream[..n], strs) && SomeTargetEnds(stream[..n'], strs);
  }

  // ----- the border argument -----

  lemma OverlapStep(s: text, p: text, c: byte, k: nat)
    requires k < |p|
    ensures Overlaps(s + [c], p, k + 1) <==> p[k] == c && Overlaps(s, p, k)
  {
    var s' := s + [c];
    if k <= |s| {
      assert s'[|s'| - (k + 1)..] == s[|s| - k..] + [c];
      assert p[..k + 1] == p[..k] + [p[k]];
    }
  }

  /** Below a known overlap q, the overlaps of the stream are exactly the borders of p[..q]. */
  lemma OverlapIsBorder(s: text, p: text, q: nat, i: nat)
    requires i <= q && Overlaps(s, p, q)
    ensures Overlaps(s, p, i) <==> p[..i] == p[q - i..q]
  {
    assert s[|s| - i..] == s[|s| - q..][q - i..];
    assert p[..q][q - i..] == p[q - i..q];
  }

  lemma NoOverlapAfterMismatch(s: text, p: text, c: byte, q: nat)
    requires LongestOverlap(s, p, q) && q < |p| && c != p[q]
    ensures forall j :: q < j <= |p| ==> !Overlaps(s + [c], p, j)
  {
    forall j | q < j <= |p|
      ensures !Overlaps(s + [c], p, j)
    {
      OverlapStep(s, p, c, j - 1);
    }
  }

  lemma LongestOverlapAfterMatch(s: text, p: text, c: byte, q: nat)
    requires LongestOverlap(s, p, q) && q < |p| && c == p[q]
    ensures LongestOverlap(s + [c], p, q + 1)
    ensures EndsWith(s + [c], p) <==> q + 1 == |p|
  {
    OverlapStep(s, p, c, q);
    forall j | q + 1 < j <= |p|
      ensures !Overlaps(s + [c], p, j)
    {
      OverlapStep(s, p, c, j - 1);
    }
    assert p[..|p|] == p;
    assert EndsWith(s + [c], p) == Overlaps(s + [c], p, |p|);
  }

  // The inner loop of findMulti: is the prefix of length `index` a border of p[..q]?
  method CompareWithSelf(p: text, q: nat, index: nat) returns (matches: bool)
    requires index <= q <= |p|
    ensures matches <==> p[..index] == p[q - index..q]
  {
    var diff := q - index;
    var i := 0;
    while i < index && p[i] == p[i + diff]
      invariant 0 <= i <= index
      invariant forall k :: 0 <= k < i ==> p[..index][k] == p[diff..q][k]
    {
      i := i + 1;
    }
    assert i < index ==> p[..index][i] != p[diff..q][i];
    return i == index;
  }

  /** The do-while loop of findMulti. `q` is the index at the mismatch; the result is the length of the
      longest prefix of `p` that ends the stream with `c` added. */
  method FallBack(p: text, q: nat, c: byte, ghost s: text) returns (index: nat, ghost decrements: nat)
    requires 0 < q < |p| && c != p[q]
    requires LongestOverlap(s, p, q)
    ensures LongestOverlap(s + [c], p, index)
    ensures decrements + index <= q + 1 && index <= q
  {
    index := q;
    decrements := 0;
    NoOverlapAfterMismatch(s, p, c, q);
    while true
      invariant 0 < index <= q && decrements == q - index
      invariant forall j :: index < j <= |p| ==> !Overlaps(s + [c], p, j)
      decreases index
    {
      index := index - 1;
      decrements := decrements + 1;
      OverlapStep(s, p, c, index);
      OverlapIsBorder(s, p, q, index);
      if c == p[index] {
        if index == 0 {
          index := 1;
          return;
        }
        var matches := CompareWithSelf(p, q, index);
        if matches {
          index := index + 1;
          return;
        }
      }
      if index == 0 {
        return;
      }
    }
  }

  function Strs(ts: seq<MultiTarget>): (r: seq<text>)
    ensures |r| == |ts|
    ensures forall t :: 0 <= t < |ts| ==> r[t] == ts[t].str
  {
    seq(|ts|, t requires 0 <= t < |ts| => ts[t].str)
  }

  ghost predicate IndexedAfter(t: MultiTarget, s: text) {
    t.index < |t.str| && LongestOverlap(s, t.str, t.index) && !EndsWith(s, t.str)
  }

  ghost predicate AllIndexedAfter(ts: seq<MultiTarget>, s: text) {
    forall t :: 0 <= t < |ts| ==> IndexedAfter(ts[t], s)
  }

  lemma NoTargetEnds(ts: seq<MultiTarget>, s: text)
    requires AllIndexedAfter(ts, s)
    ensures !SomeTargetEnds(s, Strs(ts))
  {
    forall t | 0 <= t < |ts|
      ensures !EndsWith(s, Strs(ts)[t])
    {
      assert IndexedAfter(ts[t], s);
    }
  }

  // What each target has fallen back so far, plus its index, is at most the number of bytes read.
  ghost predicate WithinBudget(ts: seq<MultiTarget>, decrements: seq<nat>, n: nat)
    requires |decrements| == |ts|
  {
    forall t :: 0 <= t < |ts| ==> decrements[t] + ts[t].index <= n
  }

  /** The target ends somewhere in the stream, and no later than the terminator does. */
  ghost predicate EndsBeforeTerminator(stream: text, target: text, terminator: Option<text>) {
    exists n :: 0 <= n <= |stream| && EndsWith(stream[..n], target) && NotYet(stream, terminator, n)
  }

  function UntilTargets(target: text, terminator: Option<text>): seq<text> {
    [target] + (if terminator.Some? then [terminator.value] else [])
  }

  /** The search consumes n bytes: up to the first hit, or the whole stream if there is none. */
  ghost predicate StopsAt(stream: text, strs: seq<text>, n: nat) {
    (exists r :: FirstHit(stream, strs, n, r)) || (n == |stream| && NoHit(stream, strs))
  }

  ghost predicate ConsumedBySearch(before: text, strs: seq<text>, after: text) {
    exists n: nat :: n <= |before| && StopsAt(before, strs, n) && after == before[n..]
  }

  // The terminator ends no proper prefix of the first n bytes.
  ghost predicate NotYet(stream: text, terminator: Option<text>, n: nat)
    requires n <= |stream|
  {
    terminator.Some? ==> forall k :: 0 <= k < n ==> !EndsWith(stream[..k], terminator.value)
  }

  /** One byte against one target: the body of the for loop inside findMulti. */
  method AdvanceOne(target: MultiTarget, c: byte, ghost s: text) returns (index: nat, hit: bool, ghost d: nat)
    requires IndexedAfter(target, s)
    ensures hit <==> EndsWith(s + [c], target.str)
    ensures !hit ==> IndexedAfter(target.(index := index), s + [c])
    ensures d + index <= target.index + 1
  {
    var p := target.str;
    index, hit, d := target.index, false, 0;
    if c == p[index] {
      LongestOverlapAfterMatch(s, p, c, index);
      index := index + 1;
      hit := index == |p|;
    } else {
      if index != 0 {
        index, d := FallBack(p, index, c, s);
      } else {
        NoOverlapAfterMismatch(s, p, c, 0);
        assert Overlaps(s + [c], p, 0);
      }
      assert p[..|p|] == p;
      assert EndsWith(s + [c], p) == Overlaps(s + [c], p, |p|);
    }
  }

  class Stream {
    /** The bytes that arrive before the next timeout. */
    var pending: text

    constructor (bytes: text)
      ensures pending == bytes
    {
      pending := bytes;
    }

    method TimedRead() returns (c: int)
      modifies this
      ensures old(pending) == [] ==> c == -1 && pending == []
      ensures old(pending) != [] ==> c == old(pending)[0] && pending == old(pending)[1..]
    {
      if pending == [] {
        return -1;
      }
      c := pending[0];
      pending := pending[1..];
    }

    method FindMulti(targets: array<MultiTarget>) returns (r: int, ghost n: nat, ghost decrements: seq<nat>)
      requires forall t :: 0 <= t < targets.Length ==> targets[t].index == 0
      modifies this, targets
      ensures Strs(targets[..]) == old(Strs(targets[..]))
      ensures n <= |old(pending)| && pending == old(pending)[n..]
      ensures r >= 0 ==> FirstHit(old(pending), old(Strs(targets[..])), n, r)
      ensures r < 0 ==> r == -1 && n == |old(pending)| && NoHit(old(pending), old(Strs(targets[..])))
      // On a timeout every index is left at the longest overlap with everything that was read.
      ensures r < 0 ==> AllIndexedAfter(targets[..], old(pending))
      // The fallback loop costs each target at most one decrement per byte read.
      ensures |decrements| == targets.Length && WithinBudget(targets[..], decrements, n)
    {
      ghost var stream, strs := pending, Strs(targets[..]);
      n := 0;
      decrements := seq(targets.Length, _ => 0);
      for t := 0 to targets.Length
        invariant forall u :: 0 <= u < t ==> targets[u].str != []
      {
        if |targets[t].str| <= 0 {
          assert strs[t] == targets[t].str && EndsWith(stream[..0], strs[t]);
          assert forall u :: 0 <= u < t ==> strs[u] == targets[u].str;
          return t, n, decrements;
        }
      }
      forall t | 0 <= t < targets.Length
        ensures IndexedAfter(targets[..][t], stream[..0]) && !EndsWith(stream[..0], strs[t])
      {
        assert Overlaps(stream[..0], targets[t].str, 0);
        assert strs[t] == targets[t].str;
      }
      while true
        invariant n <= |stream| && pending == stream[n..]
        invariant Strs(targets[..]) == strs
        invariant AllIndexedAfter(targets[..], stream[..n])
        invariant forall k :: 0 <= k <= n ==> !SomeTargetEnds(stream[..k], strs)
        invariant |decrements| == targets.Length && WithinBudget(targets[..], decrements, n)
        decreases |pending|
      {
        var c := TimedRead();
        if c < 0 {
          assert stream[..n] == stream;
          return -1, n, decrements;
        }
        ghost var s := stream[..n];
        n := n + 1;
        assert stream[..n] == s + [c];
        r, decrements := Advance(targets, c, s, decrements);
        if r >= 0 {
          return r, n, decrements;
        }
        NoTargetEnds(targets[..], s + [c]);
      }
    }

    /** One byte against every target, in order: the for loop inside findMulti. */
    method Advance(targets: array<MultiTarget>, c: byte, ghost s: text, ghost spent: seq<nat>)
      returns (r: int, ghost decrements: seq<nat>)
      requires AllIndexedAfter(targets[..], s)
      requires |spent| == targets.Length && WithinBudget(targets[..], spent, |s|)
      modifies targets
      ensures Strs(targets[..]) == old(Strs(targets[..]))
      ensures r >= 0 ==> FirstTargetEnding(s + [c], Strs(targets[..]), r)
      ensures r < 0 ==> r == -1 && AllIndexedAfter(targets[..], s + [c])
      ensures |decrements| == |spent| && WithinBudget(targets[..], decrements, |s| + 1)
    {
      decrements := spent;
      for t := 0 to targets.Length
        invariant Strs(targets[..]) == old(Strs(targets[..]))
        invariant AllIndexedAfter(targets[..t], s + [c])
        invariant forall u :: t <= u < targets.Length ==> targets[u] == old(targets[u])
        invariant |decrements| == |spent| && WithinBudget(targets[..], decrements, |s| + 1)
        invariant decrements[t..] == spent[t..]
      {
        ghost var before := targets[..];
        var target := targets[t];
        assert IndexedAfter(target, s) && decrements[t] == spent[t] by {
          assert old(targets[..])[t] == target;
          assert decrements[t..][0] == spent[t..][0];
        }
        assert spent[t] + target.index <= |s| by { assert old(targets[..])[t] == target; }
        var index, hit, d := AdvanceOne(target, c, s);
        targets[t] := target.(index := index);
        decrements := decrements[t := decrements[t] + d];
        assert targets[..] == before[t := target.(index := index)];
        if hit {
          forall u | 0 <= u < t
            ensures !EndsWith(s + [c], Strs(targets[..])[u])
          {
            assert before[..t][u] == targets[u];
          }
          return t, decrements;
        }
        assert targets[..t + 1] == before[..t] + [targets[t]];
      }
      assert targets[..targets.Length] == targets[..];
      r := -1;
    }

    /** `terminator` is None for the C null pointer. */
    method FindUntil(target: text, terminator: Option<text>) returns (found: bool)
      modifies this
      ensures found <==> EndsBeforeTerminator(old(pending), target, terminator)
      ensures ConsumedBySearch(old(pending), UntilTargets(target, terminator), pending)
    {
      ghost var stream := pending;
      var t: array<MultiTarget>;
      if terminator.None? {
        t := new MultiTarget[1](_ => MultiTarget(target, 0));
      } else {
        t := new MultiTarget[2](i => if i == 0 then MultiTarget(target, 0) else MultiTarget(terminator.value, 0));
      }
      ghost var strs := Strs(t[..]);
      assert strs == UntilTargets(target, terminator);
      var r, n, _ := FindMulti(t);
      found := r == 0;
      assert StopsAt(stream, strs, n);
      FindUntilMeansTargetFirst(stream, target, terminator, n, r);
    }
  }

  lemma FindUntilMeansTargetFirst(stream: text, target: text, term: Option<text>, n: nat, r: int)
    requires r >= 0 ==> FirstHit(stream, UntilTargets(target, term), n, r)
    requires r < 0 ==> NoHit(stream, UntilTargets(target, term))
    ensures r == 0 <==> EndsBeforeTerminator(stream, target, term)
  {
    var strs := UntilTargets(target, term);
    assert strs[0] == target;
    assert term.Some? ==> strs[1] == term.value;
    if r == 0 {
      forall k | 0 <= k < n && term.Some?
        ensures !EndsWith(stream[..k], term.value)
      {
        assert !SomeTargetEnds(stream[..k], strs);
      }
      assert EndsWith(stream[..n], target) && NotYet(stream, term, n);
    } else {
      forall m | 0 <= m <= |stream| && EndsWith(stream[..m], target)
        ensures !NotYet(stream, term, m)
      {
        assert SomeTargetEnds(stream[..m], strs);
        assert r == 1 && n <= m;
        assert EndsWith(stream[..n], strs[1]) && !EndsWith(stream[..n], strs[0]);
      }
    }
  }
}
