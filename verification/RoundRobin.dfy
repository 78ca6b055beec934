/** The scheduler's choice: the next ready slot in cyclic order, for a table of any size. */
module RoundRobin {

  /** The slot after `i` in a table of `n`. */
  function Succ(i: nat, n: nat): nat
    requires i < n
  {
    if i + 1 == n then 0 else i + 1
  }

  lemma SuccIsMod(i: nat, n: nat)
    requires i < n
    ensures (i + 1) % n == Succ(i, n)
  {
  }

  /** Steps forward from slot `i` to reach slot `j`, at least one. */
  function Distance(i: nat, j: nat, n: nat): nat
    requires i < n && j < n
  {
    if j > i then j - i else j + n - i
  }

  /** The slot that the search picks: the first ready one after `current`, or `current` itself. */
  ghost predicate IsNext(ready: seq<bool>, current: nat, next: nat)
    requires current < |ready|
  {
    && next < |ready|
    && (ready[next] || next == current)
    && forall j :: 0 <= j < |ready| && ready[j] ==> Distance(current, next, |ready|) <= Distance(current, j, |ready|)
  }

  /** There is one such slot. */
  lemma NextIsUnique(ready: seq<bool>, current: nat, a: nat, b: nat)
    requires current < |ready| && IsNext(ready, current, a) && IsNext(ready, current, b)
    ensures a == b
  {
  }

  /** Counting up from the current slot and around, every slot before the one picked is not ready. */
  lemma NextInOrder(ready: seq<bool>, current: nat, next: nat, k: nat)
    requires current < |ready| && IsNext(ready, current, next)
    requires 1 <= k < if next > current then next - current else next + |ready| - current
    ensures !ready[(current + k) % |ready|] && (ready[next] || next == current)
  {
    var n := |ready|;
    WrapsOnce(current + k, n);
    assert Distance(current, (current + k) % n, n) == k;
  }

  lemma WrapsOnce(a: nat, n: nat)
    requires 0 < n && a < 2 * n
    ensures a % n == if a < n then a else a - n
  {
  }

  /** A run of calls: `currents[k + 1]` is what call `k` picks when the ready slots are `readys[k]`. */
  ghost predicate IsRun(readys: seq<seq<bool>>, currents: seq<nat>, n: nat)
  {
    && |currents| == |readys| + 1
    && currents[0] < n
    && (forall k :: 0 <= k < |readys| ==> |readys[k]| == n)
    && forall k :: 0 <= k < |readys| ==> currents[k] < n && IsNext(readys[k], currents[k], currents[k + 1])
  }

  /** A call either picks the ready slot `t` or brings the current slot nearer to it. */
  lemma CallApproaches(ready: seq<bool>, current: nat, next: nat, t: nat)
    requires current < |ready| && IsNext(ready, current, next) && t < |ready| && ready[t] && next != t
    ensures Distance(next, t, |ready|) < Distance(current, t, |ready|)
  {
  }

  /** A slot that stays ready becomes current within as many calls as the table has slots. */
  lemma {:induction false} Fair(readys: seq<seq<bool>>, currents: seq<nat>, n: nat, t: nat)
    requires IsRun(readys, currents, n) && t < n && (forall k :: 0 <= k < |readys| ==> readys[k][t])
    requires |readys| >= Distance(currents[0], t, n)
    ensures exists k :: 1 <= k <= Distance(currents[0], t, n) && currents[k] == t
  {
    if currents[1] != t {
      CallApproaches(readys[0], currents[0], currents[1], t);
      Fair(readys[1..], currents[1..], n, t);
      var k :| 1 <= k <= Distance(currents[1], t, n) && currents[1..][k] == t;
      assert currents[k + 1] == t;
    }
  }

  lemma FairWithinTable(readys: seq<seq<bool>>, currents: seq<nat>, n: nat, t: nat)
    requires IsRun(readys, currents, n) && t < n && |readys| == n && (forall k :: 0 <= k < n ==> readys[k][t])
    ensures exists k :: 1 <= k <= n && currents[k] == t
  {
    Fair(readys, currents, n, t);
  }
}
