/** Counting clear bits of a bitmap, and adding up per-group counters. */
module Counting {
  import opened Arith

  /** The number of clear (free) bits. */
  ghost function Clear(bits: seq<bool>): nat {
    if bits == [] then 0 else (if bits[0] then 0 else 1) + Clear(bits[1..])
  }

  ghost function Sum(s: seq<nat>): nat {
    if s == [] then 0 else s[0] + Sum(s[1..])
  }

  /** Flipping one bit moves the count by exactly one. */
  lemma {:induction false} ClearUpdate(bits: seq<bool>, i: nat, v: bool)
    requires i < |bits|
    ensures Clear(bits[i := v]) == Clear(bits) + (if bits[i] then 1 else 0) - (if v then 1 else 0)
  {
    if i == 0 {
      assert bits[0 := v][1..] == bits[1..];
    } else {
      assert bits[i := v][1..] == bits[1..][i - 1 := v];
      ClearUpdate(bits[1..], i - 1, v);
    }
  }

  /** The count is positive exactly when some bit is clear. */
  lemma {:induction false} ClearPositive(bits: seq<bool>)
    ensures Clear(bits) <= |bits|
    ensures Clear(bits) > 0 <==> exists i :: 0 <= i < |bits| && !bits[i]
  {
    if bits != [] {
      ClearPositive(bits[1..]);
      if Clear(bits[1..]) > 0 {
        var j :| 0 <= j < |bits[1..]| && !bits[1..][j];
        assert !bits[j + 1];
      }
      if i :| 0 <= i < |bits| && !bits[i] {
        if i > 0 { assert !bits[1..][i - 1]; }
      }
    }
  }

  /** A bitmap with every bit set has no clear bit. */
  lemma {:induction false} ClearNone(bits: seq<bool>)
    requires forall i :: 0 <= i < |bits| ==> bits[i]
    ensures Clear(bits) == 0
  {
    ClearPositive(bits);
  }

  lemma {:induction false} SumUpdate(s: seq<nat>, i: nat, v: nat)
    requires i < |s|
    ensures Sum(s[i := v]) == Sum(s) - s[i] + v
    ensures s[i] <= Sum(s)
  {
    if i == 0 {
      assert s[0 := v][1..] == s[1..];
    } else {
      assert s[i := v][1..] == s[1..][i - 1 := v];
      SumUpdate(s[1..], i - 1, v);
    }
  }

  lemma {:induction false} SumZero(s: seq<nat>)
    ensures Sum(s) == 0 <==> forall i :: 0 <= i < |s| ==> s[i] == 0
  {
    if s != [] {
      SumZero(s[1..]);
      if Sum(s) == 0 {
        forall i | 0 <= i < |s| ensures s[i] == 0 {
          if i > 0 { assert s[i] == s[1..][i - 1]; }
        }
      }
    }
  }

  lemma {:induction false} SumBound(s: seq<nat>, m: nat)
    requires forall i :: 0 <= i < |s| ==> s[i] <= m
    ensures Sum(s) <= Times(m, |s|)
  {
    if s != [] { SumBound(s[1..], m); }
  }
}
