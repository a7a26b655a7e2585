/** Sequences in order of last use, as both image caches keep them. */
module LastUsed {

  /** The first position that is wanted, or the length. */
  function Index<T>(s: seq<T>, wanted: T -> bool): (k: nat)
    ensures k <= |s| && (k < |s| ==> wanted(s[k]))
    ensures forall j | 0 <= j < k :: !wanted(s[j])
  {
    if s == [] || wanted(s[0]) then 0 else 1 + Index(s[1..], wanted)
  }

  function Remove<T>(s: seq<T>, k: nat): seq<T>
    requires k < |s|
  {
    s[..k] + s[k + 1..]
  }

  /** `names` without `n`. */
  function Without<T(==)>(names: seq<T>, n: T): seq<T> {
    if names == [] then []
    else (if names[0] == n then [] else [names[0]]) + Without(names[1..], n)
  }

  function LastOf<T>(s: seq<T>, n: nat): seq<T> {
    if |s| <= n then s else s[|s| - n..]
  }

  ghost predicate NoRepeats<T>(names: seq<T>) {
    forall i, j | 0 <= i < j < |names| :: names[i] != names[j]
  }

  lemma {:induction false} WithoutAbsent<T>(names: seq<T>, n: T)
    requires n !in names
    ensures Without(names, n) == names
  {
    if names != [] {
      WithoutAbsent(names[1..], n);
    }
  }

  lemma {:induction false} WithoutAt<T>(names: seq<T>, k: nat)
    requires NoRepeats(names) && k < |names|
    ensures Without(names, names[k]) == Remove(names, k)
  {
    if k == 0 {
      WithoutAbsent(names[1..], names[0]);
      assert Remove(names, 0) == names[1..];
    } else {
      WithoutAt(names[1..], k - 1);
      assert Remove(names, k) == [names[0]] + Remove(names[1..], k - 1);
    }
  }

  /** Moving a kept name to the end, before or after cutting off the front. */
  lemma TouchKept<T>(all: seq<T>, d: nat, k: nat)
    requires d + k < |all|
    ensures (Remove(all, d + k) + [all[d + k]])[d..] == Remove(all[d..], k) + [all[d + k]]
  {
  }

  /** Moving a cut-off name to the end pushes the oldest kept name out. */
  lemma TouchCut<T>(all: seq<T>, d: nat, k: nat)
    requires k < d < |all|
    ensures (Remove(all, k) + [all[k]])[d..] == all[d..][1..] + [all[k]]
  {
  }

  lemma LastOfIs<T>(s: seq<T>, c: nat, d: nat)
    requires d == if |s| <= c then 0 else |s| - c
    ensures LastOf(s, c) == s[d..]
  {
  }

  lemma TouchedNew<T>(all: seq<T>, n: T, c: nat)
    requires c > 0 && n !in all
    ensures var kept := LastOf(all, c);
            LastOf(all + [n], c) == (if |kept| >= c then kept[1..] else kept) + [n]
  {
    if |all| >= c {
      var d := |all| - c;
      LastOfIs(all, c, d);
      assert (all + [n])[d + 1..] == all[d..][1..] + [n];
    }
  }

  lemma TouchedKept<T>(all: seq<T>, k: nat, c: nat, d: nat)
    requires NoRepeats(all) && d == (if |all| <= c then 0 else |all| - c) <= k < |all|
    ensures LastOf(Remove(all, k) + [all[k]], c) == Without(all[d..], all[k]) + [all[k]]
  {
    LastOfIs(Remove(all, k) + [all[k]], c, d);
    assert all[d..][k - d] == all[k];
    WithoutAt(all[d..], k - d);
    TouchKept(all, d, k - d);
  }

  lemma TouchedCut<T>(all: seq<T>, k: nat, c: nat, d: nat)
    requires NoRepeats(all) && k < d == |all| - c && c > 0
    ensures LastOf(Remove(all, k) + [all[k]], c) == all[d..][1..] + [all[k]] && all[k] !in all[d..]
  {
    LastOfIs(Remove(all, k) + [all[k]], c, d);
    TouchCut(all, d, k);
  }

  /** What moving `n` to the end does to the last `c` names. */
  function Touched<T(==)>(kept: seq<T>, n: T, c: nat): seq<T> {
    if n in kept then Without(kept, n) + [n]
    else if |kept| >= c > 0 then kept[1..] + [n]
    else kept + [n]
  }

  lemma TouchedOld<T>(all: seq<T>, k: nat, c: nat)
    requires NoRepeats(all) && c > 0 && k < |all|
    ensures LastOf(Remove(all, k) + [all[k]], c) == Touched(LastOf(all, c), all[k], c)
  {
    var d := if |all| <= c then 0 else |all| - c;
    LastOfIs(all, c, d);
    if k >= d {
      assert all[d..][k - d] == all[k];
      TouchedKept(all, k, c, d);
    } else {
      TouchedCut(all, k, c, d);
    }
  }

  /** Moving a name to the end and keeping the last `c` names commute. */
  lemma LastOfTouched<T>(all: seq<T>, n: T, c: nat)
    requires NoRepeats(all) && c > 0
    ensures LastOf(Without(all, n) + [n], c) == Touched(LastOf(all, c), n, c)
  {
    if n !in all {
      WithoutAbsent(all, n);
      TouchedNew(all, n, c);
    } else {
      var k :| 0 <= k < |all| && all[k] == n;
      WithoutAt(all, k);
      TouchedOld(all, k, c);
    }
  }

  /** Using `n` keeps an order free of repetitions. */
  lemma UseDistinct<T>(names: seq<T>, n: T)
    requires NoRepeats(names)
    ensures NoRepeats(Without(names, n) + [n])
  {
    if n in names {
      var k :| 0 <= k < |names| && names[k] == n;
      WithoutAt(names, k);
    } else {
      WithoutAbsent(names, n);
    }
  }
}
