/** Choosing the latest or earliest of several times, and the difference between two. */
module Comparer {
  import opened Results
  import opened GoInt
  import opened GoTime
  import opened Types
  import opened Difference

  /** `getTime`: the instant a value holds; a nil pointer stands for the zero time. */
  function GetTime(v: MixedTime): Instant {
    match v
    case Value(t) => t
    case Pointer(p) => if p.None? then Zero else p.value
  }

  /** A nil pointer and a pointer to the zero time are alike to every operation. */
  lemma NilIsZero()
    ensures GetTime(Pointer(None)) == GetTime(Value(Zero)) == Zero
    ensures IsZero(GetTime(Pointer(None)))
  {
  }

  /**
   * `Max`: the argument holding the latest instant; among arguments that
   * hold the same latest instant, the first one.
   */
  method Max(v1: MixedTime, v2: MixedTime, others: seq<MixedTime>) returns (m: MixedTime)
    ensures var args := [v1, v2] + others;
      exists k :: 0 <= k < |args| && m == args[k]
        && (forall j :: 0 <= j < k ==> Before(GetTime(args[j]), GetTime(m)))
    ensures var args := [v1, v2] + others;
      forall j :: 0 <= j < |args| ==> !After(GetTime(args[j]), GetTime(m))
  {
    var args := [v1, v2] + others;
    var times := [v2] + others;
    assert args == [v1] + times;
    m := v1;
    ghost var k := 0;
    for i := 0 to |times|
      invariant 0 <= k <= i && m == args[k]
      invariant forall j :: 0 <= j < k ==> Before(GetTime(args[j]), GetTime(m))
      invariant forall j :: 0 <= j <= i ==> !After(GetTime(args[j]), GetTime(m))
    {
      if After(GetTime(times[i]), GetTime(m)) {
        m := times[i];
        k := i + 1;
      }
    }
  }

  /**
   * `Min`: the argument holding the earliest instant; among arguments that
   * hold the same earliest instant, the first one.
   */
  method Min(v1: MixedTime, v2: MixedTime, others: seq<MixedTime>) returns (m: MixedTime)
    ensures var args := [v1, v2] + others;
      exists k :: 0 <= k < |args| && m == args[k]
        && (forall j :: 0 <= j < k ==> After(GetTime(args[j]), GetTime(m)))
    ensures var args := [v1, v2] + others;
      forall j :: 0 <= j < |args| ==> !Before(GetTime(args[j]), GetTime(m))
  {
    var args := [v1, v2] + others;
    var times := [v2] + others;
    assert args == [v1] + times;
    m := v1;
    ghost var k := 0;
    for i := 0 to |times|
      invariant 0 <= k <= i && m == args[k]
      invariant forall j :: 0 <= j < k ==> After(GetTime(args[j]), GetTime(m))
      invariant forall j :: 0 <= j <= i ==> !Before(GetTime(args[j]), GetTime(m))
    {
      if Before(GetTime(times[i]), GetTime(m)) {
        m := times[i];
        k := i + 1;
      }
    }
  }

  /**
   * `Diff`: `v1 - v2` in nanoseconds, clamped to 64 bits, or no difference
   * at all when either side is the zero time (or a nil pointer).
   */
  function Diff(v1: MixedTime, v2: MixedTime): (r: DiffValue)
    ensures IsZero(GetTime(v1)) || IsZero(GetTime(v2)) ==> r.ns == 0
    ensures !IsZero(GetTime(v1)) && !IsZero(GetTime(v2)) ==>
      && (r.ns > 0 <==> After(GetTime(v1), GetTime(v2)))
      && (r.ns < 0 <==> Before(GetTime(v1), GetTime(v2)))
  {
    var t1 := GetTime(v1);
    var t2 := GetTime(v2);
    if IsZero(t1) || IsZero(t2) then DiffValue(0) else DiffValue(Sub(t1, t2))
  }

  /** Away from the zero time and from overflow, `Diff` is the exact elapsed time. */
  lemma DiffExact(t: Instant, u: Instant)
    requires !IsZero(t) && !IsZero(u)
    requires InRange(t.unixNano - u.unixNano)
    ensures Diff(Value(t), Value(u)).ns == t.unixNano - u.unixNano
  {
  }

  /** Differences too large for 64 bits stop at the largest or smallest value. */
  lemma DiffClamps(t: Instant, u: Instant)
    requires !IsZero(t) && !IsZero(u)
    ensures t.unixNano - u.unixNano > MaxInt64 ==> Diff(Value(t), Value(u)).ns == MaxInt64
    ensures t.unixNano - u.unixNano < MinInt64 ==> Diff(Value(t), Value(u)).ns == MinInt64
  {
  }

  /** Swapping the arguments negates the difference, unless it was clamped. */
  lemma DiffAntisymmetric(v1: MixedTime, v2: MixedTime)
    requires InRange(GetTime(v1).unixNano - GetTime(v2).unixNano)
    requires InRange(GetTime(v2).unixNano - GetTime(v1).unixNano)
    ensures Diff(v1, v2).ns == -Diff(v2, v1).ns
  {
  }

  /** The zones the two times are shown in do not matter. */
  lemma DiffIgnoresZones(t: Instant, u: Instant, l1: Location, l2: Location)
    ensures Diff(Value(In(t, l1)), Value(In(u, l2))) == Diff(Value(t), Value(u))
  {
  }

  /** Adding `d` to a time and diffing against the original gives `d` back. */
  lemma DiffAdd(t: Instant, d: int)
    requires !IsZero(t) && !IsZero(Add(t, d)) && InRange(d)
    ensures Diff(Value(Add(t, d)), Value(t)).ns == d
  {
  }

  /** A difference against the zero time prints as nothing. */
  lemma DiffZeroString(v: MixedTime)
    ensures String(Diff(v, Pointer(None))) == ""
    ensures String(Diff(Pointer(None), v)) == ""
  {
    StringEmpty(Diff(v, Pointer(None)));
    StringEmpty(Diff(Pointer(None), v));
  }
}
