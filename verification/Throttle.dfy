/** Bandwidth limiting: the credit account of a throttled stream and its conservation law. */
module Throttle {
  import opened Wrappers

  const ISIZE_MAX: nat := 0x7FFF_FFFF_FFFF_FFFF
  const ISIZE_MIN: int := -0x8000_0000_0000_0000
  const U32_MAX: nat := 0xFFFF_FFFF

  datatype Poll<+T> = Pending | Ready(value: T)

  /** What an underlying stream says of a buffer: how many of its bytes were moved, or an error. */
  type Io = Poll<Result<nat, ()>>

  function Min(a: int, b: int): int {
    if a <= b then a else b
  }

  function Max(a: int, b: int): int {
    if a >= b then a else b
  }

  /** Whether the limiter ends up granting: `answers` are those of the delay and of the governor, in turn. */
  predicate Grants(delayed: bool, answers: seq<bool>)
    decreases answers
  {
    if answers == [] then false
    else if delayed then answers[0] && Grants(false, answers[1..])
    else answers[0] || Grants(true, answers[1..])
  }

  /** The most the limiter hands out at once to cover `amount`. */
  function Credit(balance: int, amount: nat, bps: nat): (credit: int)
    requires balance < amount
    ensures bps > 0 ==> 0 < credit <= amount - balance
  {
    Min(Min(amount - balance, U32_MAX), bps)
  }

  /** How many bytes may be moved once the limiter has granted what it will. */
  function Allowance(balance: int, amount: nat, bps: nat): (n: nat)
    ensures n <= amount
  {
    if bps == 0 || amount <= balance then amount else Max(0, balance + Credit(balance, amount, bps))
  }

  /** The poll has to wait for the limiter. */
  predicate Blocked(balance: int, amount: nat, bps: nat, delayed: bool, answers: seq<bool>) {
    bps > 0 && balance < amount && !Grants(delayed, answers)
  }

  function Credits(balance: int, amount: nat, bps: nat, delayed: bool, answers: seq<bool>): nat {
    if bps > 0 && balance < amount && Grants(delayed, answers) then Credit(balance, amount, bps) else 0
  }

  class Throttled {
    /** Bytes per second; 0 when limiting is off. */
    var bps: nat
    var delayed: bool
    var balance: int

    ghost predicate Valid()
      reads this
    {
      bps <= U32_MAX && ISIZE_MIN <= balance <= ISIZE_MAX
    }

    constructor (bps: nat)
      requires bps <= U32_MAX
      ensures Valid() && this.bps == bps && balance == 0 && !delayed
    {
      this.bps := bps;
      delayed := false;
      balance := 0;
    }

    /**
     Tries to reserve `amount` bytes. `credits` is what the limiter granted on
     the way, `reserved` how many bytes the caller may move.
     */
    method PollReserve(amount: nat, answers: seq<bool>) returns (reserved: Poll<nat>, credits: nat)
      requires Valid() && amount <= ISIZE_MAX
      modifies `balance, `delayed
      ensures Valid() && balance == old(balance) + credits
      ensures credits == Credits(old(balance), amount, bps, old(delayed), answers)
      ensures reserved == if Blocked(old(balance), amount, bps, old(delayed), answers) then Pending
                          else Ready(Allowance(old(balance), amount, bps))
      ensures delayed == if bps == 0 || amount <= old(balance) then old(delayed) else reserved.Pending?
    {
      credits := 0;
      if bps == 0 || balance >= amount {
        return Ready(amount), 0;
      }
      var deficit: nat := Min(amount - balance, U32_MAX);
      var i := 0;
      while true
        invariant 0 <= i <= |answers|
        invariant 0 < deficit && Min(deficit, bps) == Credit(old(balance), amount, bps)
        invariant balance == old(balance) && credits == 0
        invariant Grants(old(delayed), answers) == Grants(delayed, answers[i..])
        decreases |answers| - i, if delayed then 1 else 0, deficit
      {
        if delayed {
          if i == |answers| || !answers[i] {
            return Pending, 0;
          }
          delayed := false;
          i := i + 1;
        } else if deficit > bps {
          deficit := bps;
        } else if i < |answers| && answers[i] {
          credits := deficit;
          balance := balance + credits;
          return Ready(Max(0, balance)), credits;
        } else {
          delayed := true;
          if i == |answers| {
            return Pending, 0;
          }
          i := i + 1;
        }
      }
    }

    method Spend(amount: nat)
      requires Valid() && amount <= ISIZE_MAX
      modifies `balance
      ensures Valid() && balance == Max(old(balance) - amount, ISIZE_MIN)
    {
      balance := Max(balance - amount, ISIZE_MIN);
    }

    /** Writes a buffer of `n` bytes; `inner` is what the underlying stream says of any prefix of it. */
    method PollWrite(n: nat, inner: nat -> Io, answers: seq<bool>) returns (r: Io, step: Step)
      requires Valid() && n <= ISIZE_MAX
      requires forall len: nat :: inner(len).Ready? && inner(len).value.Ok? ==> inner(len).value.value <= len
      modifies `balance, `delayed
      ensures Valid() && step.before == old(balance) && step.after == balance
      ensures step.moved == if r.Ready? && r.value.Ok? then r.value.value else 0
      ensures r == if Blocked(old(balance), n, bps, old(delayed), answers) then Pending
                   else inner(Allowance(old(balance), n, bps))
      ensures step.credits == Credits(old(balance), n, bps, old(delayed), answers)
      ensures IsWrite(step, bps, n, r.Ready? && r.value.Err?)
    {
      var before := balance;
      var reserved, credits := PollReserve(n, answers);
      if reserved.Pending? {
        return Pending, Step(before, credits, 0, balance);
      }
      assert reserved.value <= n;
      r := inner(reserved.value);
      if r.Pending? {
        return Pending, Step(before, credits, 0, balance);
      }
      var written := if r.value.Ok? then r.value.value else n;
      Spend(written);
      step := Step(before, credits, if r.value.Ok? then r.value.value else 0, balance);
    }

    /** Reads into a buffer with room for `remaining` bytes. */
    method PollRead(remaining: nat, inner: nat -> Io, answers: seq<bool>) returns (r: Io, step: Step)
      requires Valid() && remaining <= ISIZE_MAX
      requires forall len: nat :: inner(len).Ready? && inner(len).value.Ok? ==> inner(len).value.value <= len
      modifies `balance, `delayed
      ensures Valid() && step.before == old(balance) && step.after == balance
      ensures step.moved == if r.Ready? && r.value.Ok? then r.value.value else 0
      ensures r == if Blocked(old(balance), 0, bps, old(delayed), answers) then Pending
                   else inner(if bps > 0 then Min(remaining, bps) else remaining)
      ensures step.credits == Credits(old(balance), 0, bps, old(delayed), answers)
      ensures IsRead(step, bps)
    {
      var before := balance;
      if bps == 0 {
        r := inner(remaining);
        return r, Step(before, 0, if r.Ready? && r.value.Ok? then r.value.value else 0, balance);
      }
      var reserved, credits := PollReserve(0, answers);
      if reserved.Pending? {
        return Pending, Step(before, credits, 0, balance);
      }
      r := inner(if remaining >= bps then bps else remaining);
      if r.Pending? || r.value.Err? {
        return r, Step(before, credits, 0, balance);
      }
      Spend(r.value.value);
      step := Step(before, credits, r.value.value, balance);
    }
  }

  /** The effect of one poll on the account: credits granted and bytes moved. */
  datatype Step = Step(before: int, credits: nat, moved: nat, after: int)

  /** Everything a poll for `n` bytes may do to the account of a writer. */
  predicate IsWrite(s: Step, bps: nat, n: nat, failed: bool) {
    && (s.credits > 0 ==> bps > 0 && s.before < n && s.credits == Credit(s.before, n, bps))
    && (bps > 0 ==> s.moved <= Max(0, s.before + s.credits))
    && s.moved <= n
    && (failed ==> s.moved == 0)
    && s.after == Max(s.before + s.credits - (if failed then n else s.moved), ISIZE_MIN)
  }

  /** Everything a poll may do to the account of a reader. */
  predicate IsRead(s: Step, bps: nat) {
    if bps == 0 then s.credits == 0 && s.after == s.before
    else
      && (s.credits > 0 ==> s.before < 0 && s.credits == Credit(s.before, 0, bps))
      && (s.moved > 0 ==> s.moved <= bps && (s.before < 0 ==> s.credits > 0))
      && s.after == Max(s.before + s.credits - s.moved, ISIZE_MIN)
  }

  // ---------------------------------------------------------------------
  // Conservation over whole runs
  // ---------------------------------------------------------------------

  /** Consecutive polls of one stream: each starts from the balance the one before it left. */
  predicate Chained(balance: int, steps: seq<Step>)
    decreases steps
  {
    steps == [] || (steps[0].before == balance && Chained(steps[0].after, steps[1..]))
  }

  function FinalBalance(balance: int, steps: seq<Step>): int
    decreases steps
  {
    if steps == [] then balance else FinalBalance(steps[0].after, steps[1..])
  }

  function Granted(steps: seq<Step>): nat {
    if steps == [] then 0 else steps[0].credits + Granted(steps[1..])
  }

  function Moved(steps: seq<Step>): nat {
    if steps == [] then 0 else steps[0].moved + Moved(steps[1..])
  }

  ghost predicate Writes(steps: seq<Step>, bps: nat) {
    forall s :: s in steps ==> exists n: nat :: IsWrite(s, bps, n, false)
  }

  /** Bytes written plus balance is credits granted, and the balance never goes below zero. */
  lemma {:induction false} WritesConserve(balance: nat, steps: seq<Step>, bps: nat)
    requires bps > 0 && Chained(balance, steps) && Writes(steps, bps)
    ensures FinalBalance(balance, steps) >= 0
    ensures Moved(steps) + FinalBalance(balance, steps) == balance + Granted(steps)
    decreases steps
  {
    if steps != [] {
      assert steps[0] in steps;
      var n: nat :| IsWrite(steps[0], bps, n, false);
      assert forall s :: s in steps[1..] ==> s in steps;
      WritesConserve(steps[0].after, steps[1..], bps);
    }
  }

  /** With the limiter on, only a failed write larger than what was reserved leaves a debt. */
  lemma WriteDebtExactly(s: Step, bps: nat, n: nat, failed: bool)
    requires IsWrite(s, bps, n, failed) && s.before >= 0
    ensures bps > 0 ==> (s.after < 0 <==> failed && n > s.before + s.credits)
    ensures bps == 0 ==> (s.after < 0 <==> (if failed then n else s.moved) > s.before)
  {
  }

  ghost predicate Reads(steps: seq<Step>, bps: nat) {
    forall s :: s in steps ==> IsRead(s, bps)
  }

  /** A reader's debt stays within one second of bandwidth, so it never reads more than that ahead of its credits. */
  lemma {:induction false} ReadsConserve(balance: int, steps: seq<Step>, bps: nat)
    requires 0 < bps <= U32_MAX && 0 - bps <= balance <= 0 && Chained(balance, steps) && Reads(steps, bps)
    ensures 0 - bps <= FinalBalance(balance, steps) <= 0
    ensures Moved(steps) == balance - FinalBalance(balance, steps) + Granted(steps)
    ensures Moved(steps) <= Granted(steps) + bps
    decreases steps
  {
    if steps != [] {
      assert steps[0] in steps;
      assert IsRead(steps[0], bps);
      ReadsConserve(steps[0].after, steps[1..], bps);
    }
  }
}
