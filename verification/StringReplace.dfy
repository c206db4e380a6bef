// String::replace and String::lastIndexOf (arduino/cores/esp32/WString.cpp).

module StringReplace {
  import opened Bytes

  const NUL := '\0'

  predicate CString(s: string) {
    NUL !in s
  }

  // ----- searching -----

  predicate OccursAt(s: string, find: string, i: int) {
    0 <= i && i + |find| <= |s| && s[i..i + |find|] == find
  }

  /** strstr: the first occurrence at or after `from`, or -1. */
  function StrStr(s: string, find: string, from: nat): (i: int)
    requires from <= |s|
    ensures i == -1 || (from <= i && OccursAt(s, find, i))
    ensures forall j :: from <= j < (if i < 0 then |s| + 1 else i) ==> !OccursAt(s, find, j)
    decreases |s| - from
  {
    if OccursAt(s, find, from) then from
    else if from == |s| then -1
    else StrStr(s, find, from + 1)
  }

  /** The last occurrence that starts at or before `from`, or -1. */
  function LastOccurrence(s: string, find: string, from: int): (i: int)
    ensures i == -1 || (0 <= i <= from && OccursAt(s, find, i))
    ensures forall j :: i < j <= from ==> !OccursAt(s, find, j)
    decreases from + 1
  {
    if from < 0 then -1
    else if OccursAt(s, find, from) then from
    else LastOccurrence(s, find, from - 1)
  }

  // ----- the specification -----

  /** Left-to-right, non-overlapping replacement. */
  function ReplaceAll(s: string, find: string, rep: string): string
    requires find != ""
    decreases |s|
  {
    var i := StrStr(s, find, 0);
    if i < 0 then s else s[..i] + rep + ReplaceAll(s[i + |find|..], find, rep)
  }

  lemma {:induction false} ReplaceAllCString(s: string, find: string, rep: string)
    requires find != "" && CString(s) && CString(rep)
    ensures CString(ReplaceAll(s, find, rep))
    decreases |s|
  {
    var i := StrStr(s, find, 0);
    if i >= 0 {
      ReplaceAllCString(s[i + |find|..], find, rep);
    }
  }

  // ----- the growing strategy: right to left, searching the text already rewritten -----

  /** The loop of the growing branch, from `index` down. */
  function Grow(s: string, find: string, rep: string, index: int): (r: string)
    requires 0 < |find| < |rep|
    ensures |r| >= |s|
    decreases index + 1
  {
    var j := LastOccurrence(s, find, index);
    if j < 0 then s else Grow(s[..j] + rep + s[j + |find|..], find, rep, j - 1)
  }

  /** What `replace` leaves in the string. */
  function Result(s: string, find: string, rep: string): string {
    if s == "" || find == "" then s
    else if |rep| <= |find| then ReplaceAll(s, find, rep)
    else Grow(s, find, rep, |s| - 1)
  }

  /** The size of the buffer after one of this size was found too small for that many characters, or not. */
  function Room(size: nat, needed: nat): nat {
    if needed >= size then needed + 1 else size
  }

  /** `find` has no border, and no proper suffix of it starts `rep`. */
  predicate SafeToGrow(find: string, rep: string) {
    forall l :: 0 < l < |find| ==> !IsBorder(find, l) && !StartsRep(find, rep, l)
  }

  predicate IsBorder(find: string, l: nat)
    requires l <= |find|
  {
    find[|find| - l..] == find[..l]
  }

  predicate StartsRep(find: string, rep: string, l: nat)
    requires l <= |find|
  {
    find[|find| - l..] <= rep
  }

  lemma NoOccurrence(s: string, find: string, rep: string)
    requires find != "" && |s| < |find|
    ensures StrStr(s, find, 0) == -1 && ReplaceAll(s, find, rep) == s
  {}

  // Two occurrences that overlap leave a border.
  lemma OverlapLeavesBorder(s: string, find: string, i: int, j: int)
    requires OccursAt(s, find, i) && OccursAt(s, find, j) && i < j < i + |find|
    ensures IsBorder(find, i + |find| - j)
  {
    var n, l := |find|, i + |find| - j;
    assert find[n - l..] == find[n - l..n] == s[j..i + n] by { SliceOfSlice(s, i, i + n, n - l, n); }
    assert find[..l] == find[0..l] == s[j..i + n] by { SliceOfSlice(s, j, j + n, 0, l); }
  }

  lemma NoneToReplace(s: string, find: string, rep: string)
    requires find != "" && forall k :: 0 <= k <= |s| ==> !OccursAt(s, find, k)
    ensures ReplaceAll(s, find, rep) == s
  {}

  lemma FirstIs(s: string, find: string, i: int)
    requires OccursAt(s, find, i) && forall k :: 0 <= k < i ==> !OccursAt(s, find, k)
    ensures StrStr(s, find, 0) == i
  {
    var r := StrStr(s, find, 0);
    assert r == -1 ==> !OccursAt(s, find, i);
  }

  // An occurrence in a slice is one in the string.
  lemma OccursInSlice(s: string, find: string, lo: int, hi: int, k: int)
    requires 0 <= lo <= hi <= |s| && 0 <= k
    ensures OccursAt(s[lo..hi], find, k) <==> lo + k + |find| <= hi && OccursAt(s, find, lo + k)
  {
    if lo + k + |find| <= hi {
      SliceOfSlice(s, lo, hi, k, k + |find|);
    }
  }

  lemma ReplaceAllStep(s: string, find: string, rep: string)
    requires find != "" && StrStr(s, find, 0) >= 0
    ensures var i := StrStr(s, find, 0);
      ReplaceAll(s, find, rep) == s[..i] + rep + ReplaceAll(s[i + |find|..], find, rep)
  {}

  // Left-to-right replacement in a prefix, when its first occurrence is known.
  lemma ReplaceFirst(s: string, find: string, rep: string, i: int, hi: int)
    requires find != "" && i == StrStr(s, find, 0) && 0 <= i && i + |find| <= hi <= |s|
    ensures ReplaceAll(s[0..hi], find, rep) == s[..i] + rep + ReplaceAll(s[i + |find|..hi], find, rep)
  {
    hide OccursAt, ReplaceAll, StrStr;
    var t := s[0..hi];
    forall k | 0 <= k <= i
      ensures OccursAt(t, find, k) <==> k == i
    {
      OccursInSlice(s, find, 0, hi, k);
    }
    FirstIs(t, find, i);
    ReplaceAllStep(t, find, rep);
    assert t[i + |find|..] == s[i + |find|..hi] by { SliceOfSlice(s, 0, hi, i + |find|, hi); }
    assert t[..i] == s[..i];
  }

  lemma SplitAtOnly(s: string, find: string, rep: string, j: int)
    requires find != "" && OccursAt(s, find, j)
    requires forall k :: 0 <= k <= |s| && k != j ==> !OccursAt(s, find, k)
    ensures ReplaceAll(s, find, rep) == ReplaceAll(s[..j], find, rep) + rep + s[j + |find|..]
  {
    var n := |find|;
    FirstIs(s, find, j);
    var head, tail := s[0..j], s[j + n..|s|];
    forall k | 0 <= k <= |tail| ensures !OccursAt(tail, find, k) { OccursInSlice(s, find, j + n, |s|, k); }
    forall k | 0 <= k <= |head| ensures !OccursAt(head, find, k) { OccursInSlice(s, find, 0, j, k); }
    NoneToReplace(tail, find, rep);
    NoneToReplace(head, find, rep);
    hide ReplaceAll, OccursAt;
    assert head == s[..j] && tail == s[j + n..];
  }

  /** Left-to-right replacement can take the last occurrence apart. */
  lemma {:induction false} SplitAtLast(s: string, find: string, rep: string, j: int)
    requires find != "" && SafeToGrow(find, rep)
    requires OccursAt(s, find, j) && forall k :: j < k <= |s| ==> !OccursAt(s, find, k)
    ensures ReplaceAll(s, find, rep) == ReplaceAll(s[..j], find, rep) + rep + s[j + |find|..]
    decreases |s|
  {
    hide OccursAt, ReplaceAll, SafeToGrow;
    var n, i := |find|, StrStr(s, find, 0);
    InBounds(s, find, j);
    InBounds(s, find, i);
    if i == j {
      SplitAtOnly(s, find, rep, j);
    } else {
      if j < i + n {
        OverlapLeavesBorder(s, find, i, j);
        Unbordered(find, rep, i + n - j);
      }
      var q := s[i + n..|s|];
      forall k | 0 <= k <= |q|
        ensures OccursAt(q, find, k) <==> OccursAt(s, find, i + n + k)
      {
        OccursInSlice(s, find, i + n, |s|, k);
        if OccursAt(s, find, i + n + k) { InBounds(s, find, i + n + k); }
      }
      SplitAtLast(q, find, rep, j - i - n);
      ReplaceFirst(s, find, rep, i, j);
      ReplaceFirst(s, find, rep, i, |s|);
      SliceOfSlice(s, i + n, |s|, 0, j - i - n);
      SliceOfSlice(s, i + n, |s|, j - i, |q|);
      var mid := ReplaceAll(s[i + n..j], find, rep);
      assert q[..j - i - n] == q[0..j - i - n] && q[j - i..] == q[j - i..|q|];
      assert s[0..j] == s[..j] && s[0..|s|] == s;
      assert s[..i] + rep + (mid + rep + s[j + n..]) == (s[..i] + rep + mid) + rep + s[j + n..];
    }
  }

  lemma InBounds(s: string, find: string, i: int)
    requires OccursAt(s, find, i)
    ensures 0 <= i && i + |find| <= |s|
  {}

  lemma Unbordered(find: string, rep: string, l: int)
    requires 0 < l < |find| && IsBorder(find, l)
    ensures !SafeToGrow(find, rep)
  {}

  // An occurrence that runs into the rewritten part would end in a prefix of `rep`.
  lemma OverlapIntoRewritten(p: string, r: string, find: string, rep: string, k: int)
    requires 0 < |find| < |rep| && (r == "" || rep <= r)
    requires 0 <= k < |p| && OccursAt(p + r, find, k) && k + |find| > |p|
    ensures !SafeToGrow(find, rep)
  {
    var n, l, s := |find|, k + |find| - |p|, p + r;
    assert 0 < l < n && rep <= r;
    SliceOfSlice(s, k, k + n, n - l, n);
    assert s[|p|..|p| + l] == r[..l] == rep[..l];
    assert find[n - l..] == find[n - l..n] == rep[..l];
    assert StartsRep(find, rep, l);
  }

  lemma GrowStep(s: string, find: string, rep: string, index: int)
    requires 0 < |find| < |rep|
    ensures var j := LastOccurrence(s, find, index);
      Grow(s, find, rep, index) == if j < 0 then s else Grow(s[..j] + rep + s[j + |find|..], find, rep, j - 1)
  {}

  /** Right to left is the same as left to right: `r` is what was rewritten already. */
  lemma {:induction false} GrowIsReplaceAll(p: string, r: string, find: string, rep: string)
    requires 0 < |find| < |rep| && SafeToGrow(find, rep)
    requires r == "" || rep <= r
    ensures Grow(p + r, find, rep, |p| - 1) == ReplaceAll(p, find, rep) + r
    decreases |p|
  {
    hide OccursAt, ReplaceAll, SafeToGrow, Grow, LastOccurrence;
    var s, n := p + r, |find|;
    GrowStep(s, find, rep, |p| - 1);
    forall k | 0 <= k <= |p|
      ensures OccursAt(p, find, k) <==> k < |p| && OccursAt(s, find, k)
    {
      OccursInSlice(s, find, 0, |p|, k);
      assert s[0..|p|] == p;
      if k < |p| && OccursAt(s, find, k) && k + n > |p| {
        OverlapIntoRewritten(p, r, find, rep, k);
      }
    }
    var j := LastOccurrence(s, find, |p| - 1);
    if j < 0 {
      NoneToReplace(p, find, rep);
    } else {
      assert j + n <= |p| by { InBounds(p, find, j); }
      SplitAtLast(p, find, rep, j);
      var r' := rep + (p[j + n..] + r);
      assert s[..j] + rep + s[j + n..] == p[..j] + r';
      GrowIsReplaceAll(p[..j], r', find, rep);
      assert ReplaceAll(p[..j], find, rep) + r' == (ReplaceAll(p[..j], find, rep) + rep + p[j + n..]) + r;
    }
  }

  // ----- when the condition fails -----

  lemma {:induction false} FewReplacements(s: string, find: string, rep: string)
    requires 0 < |find| < |rep| && |s| < 2 * |find|
    ensures |ReplaceAll(s, find, rep)| <= |s| + |rep| - |find|
  {
    var i := StrStr(s, find, 0);
    if i >= 0 {
      NoOccurrence(s[i + |find|..], find, rep);
    }
  }

  // The only occurrence of `find` that can start at or after |x| in x + find is at |x|.
  lemma LastInSuffix(x: string, find: string)
    requires find != ""
    ensures LastOccurrence(x + find, find, |x + find| - 1) == |x|
  {
    var s := x + find;
    assert OccursAt(s, find, |x|) by { assert s[|x|..|x| + |find|] == find; }
  }

  // find without its last l characters, and then a string that starts with those l characters.
  lemma AtFront(find: string, rep: string, l: nat)
    requires 0 < l < |find| && |find| <= |rep| && StartsRep(find, rep, l)
    ensures OccursAt(find[..|find| - l] + rep, find, 0)
  {
    var n, s := |find|, find[..|find| - l] + rep;
    assert rep[..l] == find[n - l..];
    assert s[0..n] == find[..n - l] + rep[..l] == find;
  }

  /** A suffix of `find` that starts `rep`: the text just written completes another occurrence. */
  lemma RewrittenTwice(find: string, rep: string, l: nat)
    requires 0 < l < |find| < |rep| && StartsRep(find, rep, l)
    ensures var s := find[..|find| - l] + find;
      |Result(s, find, rep)| >= |s| + 2 * (|rep| - |find|) && |ReplaceAll(s, find, rep)| < |Result(s, find, rep)|
  {
    hide ReplaceAll, Grow, LastOccurrence, StrStr;
    var x, n := find[..|find| - l], |find|;
    var s := x + find;
    LastInSuffix(x, find);
    GrowStep(s, find, rep, |s| - 1);
    var s1 := x + rep;
    assert s[..|x|] + rep + s[|x| + n..] == s1;
    AtFront(find, rep, l);
    var j := LastOccurrence(s1, find, |x| - 1);
    assert j >= 0;
    GrowStep(s1, find, rep, |x| - 1);
    FewReplacements(s, find, rep);
  }

  /** A border of `find`, and no such suffix: the two directions replace different occurrences. */
  lemma DifferentOccurrence(find: string, rep: string, b: nat)
    requires 0 < b < |find| < |rep| && IsBorder(find, b)
    requires forall l :: 0 < l < |find| ==> !StartsRep(find, rep, l)
    ensures var s := find[..|find| - b] + find;
      Result(s, find, rep) != ReplaceAll(s, find, rep)
  {
    var v, w := find[..|find| - b], find[b..];
    LeftToRightOnBorder(find, rep, b);
    RightToLeftOnBorder(find, rep, b);
    if v + rep == rep + w {
      PeriodicReplacement(find, rep, b);
    }
  }

  lemma LeftToRightOnBorder(find: string, rep: string, b: nat)
    requires 0 < b < |find| < |rep| && IsBorder(find, b)
    ensures ReplaceAll(find[..|find| - b] + find, find, rep) == rep + find[b..]
  {
    hide ReplaceAll, OccursAt;
    var v, w := find[..|find| - b], find[b..];
    AtFront(find, find, b);
    OnlyAtFront(v + find, find, rep);
    assert (v + find)[|find|..] == w;
  }

  lemma OnlyAtFront(s: string, find: string, rep: string)
    requires find != "" && OccursAt(s, find, 0) && |s| < 2 * |find|
    ensures ReplaceAll(s, find, rep) == rep + s[|find|..]
  {
    FirstIs(s, find, 0);
    NoOccurrence(s[|find|..], find, rep);
    assert s[..0] + rep == rep;
  }

  lemma RightToLeftOnBorder(find: string, rep: string, b: nat)
    requires 0 < b < |find| < |rep|
    requires forall l :: 0 < l < |find| ==> !StartsRep(find, rep, l)
    ensures Result(find[..|find| - b] + find, find, rep) == find[..|find| - b] + rep
  {
    var n, v := |find|, find[..|find| - b];
    var s, s1 := v + find, v + rep;
    LastInSuffix(v, find);
    GrowStep(s, find, rep, |s| - 1);
    assert s[..|v|] + rep + s[|v| + n..] == s1;
    var j := LastOccurrence(s1, find, |v| - 1);
    if j >= 0 {
      EndsInRep(v, rep, find, j);
      assert false;
    }
    GrowStep(s1, find, rep, |v| - 1);
  }

  lemma EndsInRep(p: string, rep: string, find: string, k: int)
    requires 0 < |find| < |rep| && 0 <= k < |p| < |find| && OccursAt(p + rep, find, k)
    ensures StartsRep(find, rep, k + |find| - |p|) && 0 < k + |find| - |p| < |find|
  {
    var n, l, s := |find|, k + |find| - |p|, p + rep;
    SliceOfSlice(s, k, k + n, n - l, n);
    assert s[|p|..|p| + l] == rep[..l];
    assert find[n - l..] == find[n - l..n] == rep[..l];
  }

  // If v + rep == rep + w then rep repeats v, and so does find: rep starts with find, and with its border.
  lemma PeriodicReplacement(find: string, rep: string, b: nat)
    requires 0 < b < |find| < |rep| && IsBorder(find, b)
    requires find[..|find| - b] + rep == rep + find[b..]
    ensures StartsRep(find, rep, b)
  {
    var n := |find| - b;
    var lhs, rhs := find[..n] + rep, rep + find[b..];
    for i := 0 to b
      invariant forall k :: 0 <= k < i ==> rep[k] == find[k]
    {
      assert lhs[i] == rhs[i];
      if i < n {
        assert lhs[i] == find[i];
      } else {
        assert lhs[i] == rep[i - n] == find[i - n];
        assert find[n..][i - n] == find[..b][i - n];
      }
    }
    assert rep[..b] == find[..b] == find[|find| - b..];
  }

  ghost predicate AlwaysAgrees(find: string, rep: string)
    requires find != ""
  {
    forall s :: CString(s) ==> Result(s, find, rep) == ReplaceAll(s, find, rep)
  }

  /** The growing branch is left-to-right replacement on every string, exactly under SafeToGrow. */
  lemma GrowExactly(find: string, rep: string)
    requires CString(find) && 0 < |find| < |rep|
    ensures AlwaysAgrees(find, rep) <==> SafeToGrow(find, rep)
  {
    hide Result, ReplaceAll, StartsRep, IsBorder;
    if SafeToGrow(find, rep) {
      forall s | CString(s)
        ensures Result(s, find, rep) == ReplaceAll(s, find, rep)
      {
        AgreesWhenSafe(s, find, rep);
      }
    } else if l :| 0 < l < |find| && StartsRep(find, rep, l) {
      RewrittenTwice(find, rep, l);
      assert CString(find[..|find| - l] + find);
    } else {
      var b :| 0 < b < |find| && IsBorder(find, b);
      DifferentOccurrence(find, rep, b);
      assert CString(find[..|find| - b] + find);
    }
  }

  lemma AgreesWhenSafe(s: string, find: string, rep: string)
    requires 0 < |find| < |rep| && SafeToGrow(find, rep)
    ensures Result(s, find, rep) == ReplaceAll(s, find, rep)
  {
    hide ReplaceAll, Grow, SafeToGrow;
    if s == "" {
      NoOccurrence(s, find, rep);
    } else {
      assert s + "" == s && ReplaceAll(s, find, rep) + "" == ReplaceAll(s, find, rep);
      GrowIsReplaceAll(s, "", find, rep);
    }
  }

  // ----- the String object -----

  /** The index of the first NUL at or after `from`. */
  function Nul(mem: string, from: nat): (r: nat)
    requires from <= |mem|
    ensures from <= r <= |mem| && (r < |mem| ==> mem[r] == NUL)
    ensures forall k :: from <= k < r ==> mem[k] != NUL
    decreases |mem| - from
  {
    if from == |mem| || mem[from] == NUL then from else Nul(mem, from + 1)
  }

  /** strstr on memory: what it finds in the C string that starts at `from`, as an index. */
  function CStrStr(mem: string, from: nat, find: string): int
    requires from <= |mem|
  {
    StrStr(mem[..Nul(mem, from)], find, from)
  }

  lemma {:induction false} StrStrShift(s: string, find: string, from: nat, k: nat)
    requires from + k <= |s|
    ensures var r := StrStr(s[from..], find, k);
      StrStr(s, find, from + k) == if r < 0 then -1 else from + r
    decreases |s| - from - k
  {
    assert OccursAt(s[from..], find, k) <==> OccursAt(s, find, from + k) by {
      OccursInSlice(s, find, from, |s|, k);
      assert s[from..|s|] == s[from..];
    }
    if !OccursAt(s, find, from + k) && from + k < |s| {
      StrStrShift(s, find, from, k + 1);
    }
  }

  lemma FoundInRest(mem: string, from: nat, rest: string, find: string)
    requires from + |rest| < |mem| && mem[from..from + |rest|] == rest && mem[from + |rest|] == NUL && CString(rest)
    ensures Nul(mem, from) == from + |rest|
    ensures var i := StrStr(rest, find, 0); CStrStr(mem, from, find) == if i < 0 then -1 else from + i
  {
    var end := from + |rest|;
    assert forall k :: from <= k < end ==> mem[k] == rest[k - from];
    assert Nul(mem, from) == end;
    assert mem[..end][from..] == rest;
    StrStrShift(mem[..end], find, from, 0);
  }

  lemma SplitSlice(s: string, lo: int, hi: int, i: int)
    requires 0 <= lo <= hi <= |s| && 0 <= i <= hi - lo
    ensures s[lo..hi][..i] == s[lo..lo + i] && s[lo..hi][i..] == s[lo + i..hi]
  {
    SliceOfSlice(s, lo, hi, 0, i);
    SliceOfSlice(s, lo, hi, i, hi - lo);
  }

  /** The C string at `from` in memory is `rest`. */
  ghost predicate RestAt(mem: string, from: nat, rest: string) {
    from + |rest| < |mem| && mem[from + |rest|] == NUL && mem[from..from + |rest|] == rest && CString(rest)
  }

  lemma AroundFound(mem: string, from: nat, rest: string, find: string)
    requires find != "" && RestAt(mem, from, rest) && StrStr(rest, find, 0) >= 0
    ensures
      var k := StrStr(rest, find, 0) + |find|;
      k <= |rest| && RestAt(mem, from + k, rest[k..])
  {
    hide StrStr, OccursAt, RestAt;
    var i := StrStr(rest, find, 0);
    InBounds(rest, find, i);
    RestLater(mem, from, rest, i + |find|);
  }

  lemma SliceOfRest(mem: string, from: nat, rest: string, i: nat)
    requires RestAt(mem, from, rest) && i <= |rest|
    ensures from + |rest| < |mem| && mem[from..from + i] == rest[..i]
  {
    SplitSlice(mem, from, from + |rest|, i);
  }

  lemma PrefixOfRest(mem: string, from: nat, rest: string, i: nat)
    requires RestAt(mem, from, rest) && i <= |rest|
    ensures from + |rest| < |mem| && mem[..from + i] == mem[..from] + rest[..i]
  {
    SplitSlice(mem, from, from + |rest|, i);
    assert mem[..from + i] == mem[..from] + mem[from..from + i];
  }

  lemma RestLater(mem: string, from: nat, rest: string, k: nat)
    requires RestAt(mem, from, rest) && k <= |rest|
    ensures RestAt(mem, from + k, rest[k..])
  {
    SplitSlice(mem, from, from + |rest|, k);
    assert forall c :: c in rest[k..] ==> c in rest;
  }

  lemma RestOfWhole(mem: string, len: nat)
    requires len < |mem| && mem[len] == NUL && CString(mem[..len])
    ensures RestAt(mem, 0, mem[..len])
  {}

  lemma WholeFromRest(mem: string, from: nat, rest: string)
    requires RestAt(mem, from, rest)
    ensures from + |rest| < |mem| && mem[from + |rest|] == NUL && mem[..from + |rest|] == mem[..from] + rest
  {
    assert mem[..from + |rest|] == mem[..from] + mem[from..from + |rest|];
  }

  lemma TailKept(mem: string, mem': string, a: nat, b: nat)
    requires a <= b <= |mem| == |mem'| && mem[a..] == mem'[a..]
    ensures mem[b..] == mem'[b..]
  {
    assert mem[b..] == mem[a..][b - a..] == mem'[a..][b - a..] == mem'[b..];
  }

  // Writing below a C string leaves it there.
  lemma RestKept(mem: string, mem': string, from: nat, rest: string)
    requires RestAt(mem, from, rest) && |mem| == |mem'| && mem[from..] == mem'[from..]
    ensures RestAt(mem', from, rest)
  {
    var end := from + |rest|;
    assert mem'[from..end] == mem'[from..][..|rest|] == mem[from..][..|rest|] == mem[from..end];
    assert mem'[end] == mem'[from..][|rest|] == mem[from..][|rest|];
  }

  class String {
    var buffer: array<char>
    var len: nat

    /** `capacity` in the source is one less than the size of the buffer. */
    ghost predicate Valid()
      reads this, buffer
    {
      len < buffer.Length && buffer[len] == NUL && CString(buffer[..len])
    }

    ghost function Text(): string
      reads this, buffer
      requires Valid()
    {
      buffer[..len]
    }

    constructor (text: string)
      requires CString(text)
      ensures Valid() && Text() == text && fresh(buffer)
    {
      buffer := new char[|text| + 1](i requires 0 <= i <= |text| => if i < |text| then text[i] else NUL);
      len := |text|;
      new;
      assert buffer[..len] == text;
    }

    /** memcpy into the buffer */
    method Copy(at: nat, chunk: string)
      requires at + |chunk| <= buffer.Length
      modifies buffer
      ensures buffer[..] == old(buffer[..at]) + chunk + old(buffer[at + |chunk|..])
    {
      forall i | 0 <= i < |chunk| {
        buffer[at + i] := chunk[i];
      }
    }

    /** The three branches in turn. False: the C code would write past its buffer at this point. */
    method Replace(find: string, rep: string) returns (inBounds: bool)
      requires Valid() && CString(find) && CString(rep)
      modifies this, buffer
      ensures inBounds ==> Valid() && Text() == Result(old(Text()), find, rep)
      // it stays in the buffer exactly if the result fits the buffer there was, or the one made for the size counted
      ensures find != "" ==>
        (inBounds <==>
           |Result(old(Text()), find, rep)| < Room(old(buffer.Length), |ReplaceAll(old(Text()), find, rep)|))
      ensures find != "" && (|rep| <= |find| || SafeToGrow(find, rep)) ==>
        inBounds && Valid() && Text() == ReplaceAll(old(Text()), find, rep)
    {
      if len == 0 || |find| == 0 {
        if find != "" { NoOccurrence(Text(), find, rep); }
        return true;
      }
      if |rep| == |find| {
        ReplaceSameSize(find, rep);
        return true;
      } else if |rep| < |find| {
        ReplaceShrinking(find, rep);
        return true;
      }
      ghost var s := Text();
      inBounds := ReplaceGrowing(find, rep);
      if SafeToGrow(find, rep) { AgreesWhenSafe(s, find, rep); }
    }

    method StrStrFrom(from: nat, find: string, ghost rest: string) returns (foundAt: int)
      requires RestAt(buffer[..], from, rest)
      ensures foundAt == FoundAt(from, rest, find)
    {
      hide Nul, StrStr;
      FoundInRest(buffer[..], from, rest, find);
      foundAt := CStrStr(buffer[..], from, find);
    }

    // One replacement of the shrinking branch: `count` characters move down, then `rep` follows them.
    method MoveAndWrite(writeTo: nat, readFrom: nat, count: nat, rep: string)
      requires writeTo <= readFrom && readFrom + count <= buffer.Length && writeTo + count + |rep| <= buffer.Length
      modifies buffer
      ensures buffer[..writeTo + count + |rep|]
        == old(buffer[..writeTo]) + old(buffer[readFrom..readFrom + count]) + rep
      ensures buffer[writeTo + count + |rep|..] == old(buffer[writeTo + count + |rep|..])
    {
      Copy(writeTo, buffer[readFrom..readFrom + count]);
      Copy(writeTo + count, rep);
    }

    method ReplaceSameSize(find: string, rep: string)
      requires Valid() && CString(rep) && 0 < |find| == |rep|
      modifies buffer
      ensures Valid() && Text() == ReplaceAll(old(Text()), find, rep)
    {
      hide StrStr, ReplaceAll, RestAt;
      ghost var s, rest := Text(), Text();
      var readFrom := 0;
      RestOfWhole(buffer[..], len);
      var foundAt := StrStrFrom(readFrom, find, rest);
      assert buffer[..0] + ReplaceAll(s, find, rep) == ReplaceAll(s, find, rep);
      while foundAt >= 0
        invariant readFrom + |rest| == len && RestAt(buffer[..], readFrom, rest)
        invariant buffer[..readFrom] + ReplaceAll(rest, find, rep) == ReplaceAll(s, find, rep)
        invariant foundAt == FoundAt(readFrom, rest, find)
        decreases |rest|
      {
        ghost var mem, done, i := buffer[..], buffer[..readFrom], foundAt - readFrom;
        ghost var after := rest[i + |find|..];
        Progress(done, rest, find, rep);
        AroundFound(mem, readFrom, rest, find);
        PrefixOfRest(mem, readFrom, rest, i);
        Copy(foundAt, rep);
        readFrom := foundAt + |rep|;
        assert buffer[..readFrom] == done + rest[..i] + rep;
        RestKept(mem, buffer[..], readFrom, after);
        rest := after;
        foundAt := StrStrFrom(readFrom, find, rest);
      }
      NotFound(rest, find, rep);
      WholeFromRest(buffer[..], readFrom, rest);
      ReplaceAllCString(s, find, rep);
    }

    method ReplaceShrinking(find: string, rep: string)
      requires Valid() && CString(rep) && |rep| < |find|
      modifies this`len, buffer
      ensures Valid() && Text() == ReplaceAll(old(Text()), find, rep)
    {
      hide StrStr, ReplaceAll, RestAt;
      ghost var s, n, rest := Text(), len, Text();
      var diff := |rep| - |find|;
      var readFrom, writeTo := 0, 0;
      RestOfWhole(buffer[..], len);
      var foundAt := StrStrFrom(readFrom, find, rest);
      assert buffer[..0] + ReplaceAll(s, find, rep) == ReplaceAll(s, find, rep);
      while foundAt >= 0
        invariant 0 <= writeTo <= readFrom && len - writeTo == n - readFrom
        invariant readFrom + |rest| == n < buffer.Length && RestAt(buffer[..], readFrom, rest)
        invariant buffer[..writeTo] + ReplaceAll(rest, find, rep) == ReplaceAll(s, find, rep)
        invariant foundAt == FoundAt(readFrom, rest, find)
        decreases |rest|
      {
        ghost var mem, done, i := buffer[..], buffer[..writeTo], foundAt - readFrom;
        ghost var after := rest[i + |find|..];
        Progress(done, rest, find, rep);
        AroundFound(mem, readFrom, rest, find);
        SliceOfRest(mem, readFrom, rest, i);
        var count := foundAt - readFrom;
        assert buffer[readFrom..readFrom + count] == mem[readFrom..foundAt];
        MoveAndWrite(writeTo, readFrom, count, rep);
        writeTo := writeTo + count + |rep|;
        assert buffer[..writeTo] == done + rest[..i] + rep;
        readFrom := foundAt + |find|;
        len := len + diff;
        TailKept(mem, buffer[..], writeTo, readFrom);
        RestKept(mem, buffer[..], readFrom, after);
        rest := after;
        foundAt := StrStrFrom(readFrom, find, rest);
      }
      NotFound(rest, find, rep);
      ReplaceAllCString(s, find, rep);
      FinishShrinking(writeTo, readFrom, rest);
    }

    /** Greatest index at or before `fromIndex` where `find` occurs, or -1. */
    method LastIndexOf(find: string, fromIndex: nat) returns (found: int)
      requires Valid() && CString(find)
      ensures find == "" ==> found == -1
      ensures find != "" ==> found == LastOccurrence(Text(), find, fromIndex)
    {
      hide Nul, StrStr, LastOccurrence, OccursAt;
      if |find| == 0 {
        return -1;
      }
      var last := fromIndex;
      NoneLate(Text(), find, fromIndex);
      if len == 0 || |find| > len {
        return -1;
      }
      if last >= len {
        last := len - 1;
      }
      found := -1;
      var p := 0;
      while p <= last
        invariant 0 <= p <= len && -1 <= found < p && found <= last
        invariant found >= 0 ==> OccursAt(Text(), find, found)
        invariant forall j :: found < j < p && j <= last ==> !OccursAt(Text(), find, j)
      {
        RestOfWhole(buffer[..], len);
        RestLater(buffer[..], 0, Text(), p);
        FoundInRest(buffer[..], p, Text()[p..], find);
        assert buffer[..][..len] == Text();
        var q := CStrStr(buffer[..], p, find);
        if q < 0 {
          LastIs(Text(), find, found, last);
          return;
        }
        InBounds(Text(), find, q);
        if q <= last {
          found := q;
        }
        p := q + 1;
      }
      LastIs(Text(), find, found, last);
    }

    /** Right to left: each round moves what follows the last occurrence up and writes `rep` over it. */
    method ReplaceGrowing(find: string, rep: string) returns (inBounds: bool)
      requires Valid() && CString(find) && CString(rep) && 0 < |find| < |rep| && len > 0
      modifies this, buffer
      ensures inBounds ==> Valid() && Text() == Result(old(Text()), find, rep)
      ensures inBounds <==>
        |Result(old(Text()), find, rep)| < Room(old(buffer.Length), |ReplaceAll(old(Text()), find, rep)|)
    {
      hide StrStr, ReplaceAll, Grow, LastOccurrence;
      var diff := |rep| - |find|;
      ghost var s := Text();
      var size := CountSize(find, rep);
      if size == len {
        NoGrowth(s, find, rep);
        return true;
      }
      if size >= buffer.Length {
        ChangeBuffer(size);
      }
      var index := len - 1;
      while index >= 0
        invariant Valid() && index < len
        invariant Grow(Text(), find, rep, index) == Grow(s, find, rep, |s| - 1)
        invariant buffer.Length == Room(old(buffer.Length), |ReplaceAll(s, find, rep)|)
        invariant buffer == old(buffer) || fresh(buffer)
        decreases index
      {
        ghost var t := Text();
        var i := index;
        index := LastIndexOf(find, index);
        GrowStep(t, find, rep, i);
        if index < 0 {
          return true;
        }
        if len + diff >= buffer.Length {
          return false;
        }
        MakeRoom(index, |find|, rep);
        index := index - 1;
      }
      GrowStep(Text(), find, rep, index);
      return true;
    }

    // The size the result of left-to-right replacement has.
    method CountSize(find: string, rep: string) returns (size: nat)
      requires Valid() && 0 < |find| < |rep|
      ensures size == |ReplaceAll(Text(), find, rep)|
    {
      hide StrStr, ReplaceAll, RestAt;
      var diff := |rep| - |find|;
      size := len;
      ghost var rest := Text();
      var readFrom := 0;
      RestOfWhole(buffer[..], len);
      var foundAt := StrStrFrom(readFrom, find, rest);
      while foundAt >= 0
        invariant readFrom + |rest| == len && RestAt(buffer[..], readFrom, rest)
        invariant size - |rest| + |ReplaceAll(rest, find, rep)| == |ReplaceAll(Text(), find, rep)|
        invariant foundAt == FoundAt(readFrom, rest, find)
        decreases |rest|
      {
        Progress("", rest, find, rep);
        AroundFound(buffer[..], readFrom, rest, find);
        SliceOfRest(buffer[..], readFrom, rest, 0);
        ghost var after := rest[foundAt - readFrom + |find|..];
        readFrom := foundAt + |find|;
        size := size + diff;
        rest := after;
        foundAt := StrStrFrom(readFrom, find, rest);
      }
      NotFound(rest, find, rep);
    }

    // realloc: a larger buffer with the same contents
    method ChangeBuffer(maxStrLen: nat)
      requires Valid() && maxStrLen >= buffer.Length
      modifies this`buffer
      ensures Valid() && Text() == old(Text()) && buffer.Length == maxStrLen + 1 && fresh(buffer)
    {
      var newbuffer := new char[maxStrLen + 1](_ => NUL);
      forall i | 0 <= i < buffer.Length {
        newbuffer[i] := buffer[i];
      }
      ghost var before := Text();
      buffer := newbuffer;
      assert buffer[..len] == before;
    }

    // memmove of the tail, the new NUL, and memcpy of `rep`
    method MakeRoom(index: nat, n: nat, rep: string)
      requires Valid() && CString(rep) && index + n <= len && n < |rep| && len + |rep| - n < buffer.Length
      modifies this`len, buffer
      ensures Valid() && len == old(len) + |rep| - n
      ensures Text() == old(Text())[..index] + rep + old(Text())[index + n..]
    {
      ghost var mem, t := buffer[..], Text();
      var diff, readFrom := |rep| - n, index + n;
      Copy(readFrom + diff, buffer[readFrom..len]);
      ghost var mem1 := buffer[..];
      len := len + diff;
      buffer[len] := NUL;
      ghost var mem2 := buffer[..];
      Copy(index, rep);
      RoomMade(mem, mem1, mem2, buffer[..], t, index, n, rep);
      assert buffer[..len] == buffer[..][..len];
    }

    // strcpy of the rest, with its NUL
    method FinishShrinking(writeTo: nat, readFrom: nat, ghost rest: string)
      requires RestAt(buffer[..], readFrom, rest) && writeTo <= readFrom && writeTo + |rest| == len
      requires CString(buffer[..writeTo] + rest)
      modifies buffer
      ensures Valid() && Text() == old(buffer[..writeTo]) + rest
    {
      FoundInRest(buffer[..], readFrom, rest, "");
      var end := Nul(buffer[..], readFrom);
      Copy(writeTo, buffer[readFrom..end + 1]);
      assert buffer[..len] == old(buffer[..writeTo]) + rest;
    }
  }

  /** Where strstr finds `find` when it starts at `from` on a string `rest`. */
  function FoundAt(from: nat, rest: string, find: string): int {
    var i := StrStr(rest, find, 0);
    if i < 0 then -1 else from + i
  }

  lemma Progress(done: string, rest: string, find: string, rep: string)
    requires find != "" && StrStr(rest, find, 0) >= 0
    ensures
      var i := StrStr(rest, find, 0);
      done + ReplaceAll(rest, find, rep) == done + rest[..i] + rep + ReplaceAll(rest[i + |find|..], find, rep)
  {
    ReplaceAllStep(rest, find, rep);
  }

  lemma RoomMade(m0: string, m1: string, m2: string, m3: string, t: string, index: nat, n: nat, rep: string)
    requires index + n <= |t| && n < |rep| && |t| + |rep| - n < |m0| && m0[..|t|] == t
    requires var at := index + |rep|; var tail := m0[index + n..|t|];
      m1 == m0[..at] + tail + m0[at + |tail|..]
    requires m2 == m1[|t| + |rep| - n := NUL]
    requires m3 == m2[..index] + rep + m2[index + |rep|..]
    ensures |m3| == |m0| && m3[..|t| + |rep| - n] == t[..index] + rep + t[index + n..]
    ensures m3[|t| + |rep| - n] == NUL
  {
    var l, r := m3[..|t| + |rep| - n], t[..index] + rep + t[index + n..];
    forall k | 0 <= k < |l|
      ensures l[k] == r[k]
    {
      if k < index {
        assert l[k] == m2[k] == m1[k] == m0[k] == m0[..|t|][k];
      } else if k >= index + |rep| {
        assert l[k] == m2[k] == m1[k] == m0[index + n..|t|][k - index - |rep|] == m0[..|t|][k - |rep| + n];
      }
    }
  }

  lemma LastIs(s: string, find: string, found: int, last: int)
    requires -1 <= found <= last && (found >= 0 ==> OccursAt(s, find, found))
    requires forall j :: found < j <= last ==> !OccursAt(s, find, j)
    ensures LastOccurrence(s, find, last) == found
  {
    var r := LastOccurrence(s, find, last);
    assert r < found ==> !OccursAt(s, find, found);
  }

  // No occurrence starts where the string has ended, and none where it is too short.
  lemma NoneLate(s: string, find: string, fromIndex: nat)
    requires find != ""
    ensures |find| > |s| ==> LastOccurrence(s, find, fromIndex) == -1
    ensures fromIndex >= |s| > 0 ==> LastOccurrence(s, find, fromIndex) == LastOccurrence(s, find, |s| - 1)
  {
    if fromIndex >= |s| > 0 {
      var r := LastOccurrence(s, find, |s| - 1);
      LastIs(s, find, r, fromIndex);
    }
  }

  lemma NoGrowth(s: string, find: string, rep: string)
    requires 0 < |find| < |rep| && s != "" && |ReplaceAll(s, find, rep)| == |s|
    ensures Result(s, find, rep) == s
  {
    ReplaceAllGrows(s, find, rep);
    GrowStep(s, find, rep, |s| - 1);
  }

  lemma {:induction false} ReplaceAllGrows(s: string, find: string, rep: string)
    requires 0 < |find| < |rep|
    ensures |ReplaceAll(s, find, rep)| >= |s|
    ensures |ReplaceAll(s, find, rep)| == |s| ==> StrStr(s, find, 0) == -1
    decreases |s|
  {
    hide ReplaceAll, OccursAt;
    var i := StrStr(s, find, 0);
    if i >= 0 {
      InBounds(s, find, i);
      ReplaceAllGrows(s[i + |find|..], find, rep);
      ReplaceAllStep(s, find, rep);
    } else {
      NotFound(s, find, rep);
    }
  }

  lemma NotFound(s: string, find: string, rep: string)
    requires find != "" && StrStr(s, find, 0) < 0
    ensures ReplaceAll(s, find, rep) == s
  {}
}
