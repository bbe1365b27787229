/** The loop device attach loop with its two retry budgets (ssamd/src/mount.rs, attach_with_retry). */
module AttachRetry {
  import opened Wrappers

  /** What one round of the loop meets: no free device, or the outcome of attaching device dev. */
  datatype Attempt = NoFree | Attached(dev: nat) | Busy | WouldBlock | Hard

  /** CounterOverflow is the panic of a u32 counter that would pass its maximum. */
  datatype AttachError = NoFreeDevice | BusyExhausted | WouldBlockExhausted | HardError | CounterOverflow

  /** The outcome of every round, should it be reached. */
  type Rounds = nat -> Attempt

  const U32_MAX := 0xFFFF_FFFF

  function BusyBefore(rounds: Rounds, n: nat): (k: nat)
    ensures k <= n
  {
    if n == 0 then 0 else BusyBefore(rounds, n - 1) + if rounds(n - 1) == Busy then 1 else 0
  }

  function BlockedBefore(rounds: Rounds, n: nat): (k: nat)
    ensures k <= n
  {
    if n == 0 then 0 else BlockedBefore(rounds, n - 1) + if rounds(n - 1) == WouldBlock then 1 else 0
  }

  /** Round n ends the loop, each kind of retry being counted against its own budget only. */
  predicate Stops(rounds: Rounds, busyMax: nat, blockMax: nat, n: nat) {
    match rounds(n)
    case Busy => BusyBefore(rounds, n + 1) > busyMax
    case WouldBlock => BlockedBefore(rounds, n + 1) > blockMax
    case _ => true
  }

  predicate FirstStop(rounds: Rounds, busyMax: nat, blockMax: nat, n: nat) {
    Stops(rounds, busyMax, blockMax, n) && forall k :: 0 <= k < n ==> !Stops(rounds, busyMax, blockMax, k)
  }

  /** Rounds that did not stop were all retries, so both counters together count the rounds. */
  lemma {:induction false} RetriesCount(rounds: Rounds, busyMax: nat, blockMax: nat, n: nat)
    requires forall k :: 0 <= k < n ==> !Stops(rounds, busyMax, blockMax, k)
    ensures BusyBefore(rounds, n) + BlockedBefore(rounds, n) == n
    ensures BusyBefore(rounds, n) <= busyMax && BlockedBefore(rounds, n) <= blockMax
  {
    if n > 0 {
      RetriesCount(rounds, busyMax, blockMax, n - 1);
      assert !Stops(rounds, busyMax, blockMax, n - 1);
    }
  }

  /** attach_with_retry, for all u32 budgets; only a budget at the u32 maximum lets its counter overflow. */
  method AttachWithRetry(rounds: Rounds, busyMax: nat, blockMax: nat)
    returns (r: Result<nat, AttachError>, attempts: nat)
    requires busyMax <= U32_MAX && blockMax <= U32_MAX
    ensures 1 <= attempts <= busyMax + blockMax + 1
    ensures FirstStop(rounds, busyMax, blockMax, attempts - 1)
    ensures forall dev: nat :: r == Ok(dev) <==> rounds(attempts - 1) == Attached(dev)
    ensures r == Err(NoFreeDevice) <==> rounds(attempts - 1) == NoFree
    ensures r == Err(HardError) <==> rounds(attempts - 1) == Hard
    ensures r == Err(BusyExhausted) <==> rounds(attempts - 1) == Busy && busyMax < U32_MAX
    ensures r == Err(WouldBlockExhausted) <==> rounds(attempts - 1) == WouldBlock && blockMax < U32_MAX
    ensures r == Err(CounterOverflow) <==>
            (rounds(attempts - 1) == Busy && busyMax == U32_MAX) ||
            (rounds(attempts - 1) == WouldBlock && blockMax == U32_MAX)
  {
    var busyCount, blockCount := 0, 0;
    attempts := 0;
    while true
      invariant busyCount == BusyBefore(rounds, attempts) && blockCount == BlockedBefore(rounds, attempts)
      invariant forall k :: 0 <= k < attempts ==> !Stops(rounds, busyMax, blockMax, k)
      invariant attempts == busyCount + blockCount && busyCount <= busyMax && blockCount <= blockMax
      decreases busyMax + blockMax - attempts
    {
      var attempt := rounds(attempts);
      attempts := attempts + 1;
      match attempt
      case NoFree => return Err(NoFreeDevice), attempts;
      case Attached(dev) => return Ok(dev), attempts;
      case Hard => return Err(HardError), attempts;
      case WouldBlock =>
        if blockCount == U32_MAX {
          return Err(CounterOverflow), attempts;
        }
        blockCount := blockCount + 1;
        if blockCount > blockMax {
          return Err(WouldBlockExhausted), attempts;
        }
      case Busy =>
        if busyCount == U32_MAX {
          return Err(CounterOverflow), attempts;
        }
        busyCount := busyCount + 1;
        if busyCount > busyMax {
          return Err(BusyExhausted), attempts;
        }
    }
  }

  /** The stopping round is unique, and comes within both budgets plus one. */
  lemma FirstStopUnique(rounds: Rounds, busyMax: nat, blockMax: nat, m: nat, n: nat)
    requires FirstStop(rounds, busyMax, blockMax, m) && FirstStop(rounds, busyMax, blockMax, n)
    ensures m == n && n <= busyMax + blockMax
  {
    RetriesCount(rounds, busyMax, blockMax, n);
  }

  /** Rounds 0 to n - 1 that meet attempt a. */
  function Met(rounds: Rounds, a: Attempt, n: nat): set<nat> {
    set k: nat | k < n && rounds(k) == a
  }

  lemma {:induction false} CountsMean(rounds: Rounds, n: nat)
    ensures BusyBefore(rounds, n) == |Met(rounds, Busy, n)|
    ensures BlockedBefore(rounds, n) == |Met(rounds, WouldBlock, n)|
  {
    if n > 0 {
      CountsMean(rounds, n - 1);
      OneMoreMet(rounds, Busy, n - 1);
      OneMoreMet(rounds, WouldBlock, n - 1);
    }
  }

  lemma OneMoreMet(rounds: Rounds, a: Attempt, n: nat)
    ensures |Met(rounds, a, n + 1)| == |Met(rounds, a, n)| + if rounds(n) == a then 1 else 0
  {
    assert Met(rounds, a, n + 1) == Met(rounds, a, n) + if rounds(n) == a then {n} else {};
  }

  /** All rounds before n are retries, each kind within its own budget. */
  predicate OnlyRetries(rounds: Rounds, busyMax: nat, blockMax: nat, n: nat) {
    && (forall k :: 0 <= k < n ==> rounds(k) in {Busy, WouldBlock})
    && |Met(rounds, Busy, n)| <= busyMax && |Met(rounds, WouldBlock, n)| <= blockMax
  }

  /**
   * The loop ends in round n exactly when all earlier rounds are retries within their own budgets and this
   * one is no retry or finds its own budget used up: busy rounds never use up the would-block budget, nor
   * the reverse.
   */
  lemma FirstStopIff(rounds: Rounds, busyMax: nat, blockMax: nat, n: nat)
    ensures FirstStop(rounds, busyMax, blockMax, n) <==>
            && OnlyRetries(rounds, busyMax, blockMax, n)
            && (rounds(n) == Busy ==> |Met(rounds, Busy, n)| == busyMax)
            && (rounds(n) == WouldBlock ==> |Met(rounds, WouldBlock, n)| == blockMax)
  {
    CountsMean(rounds, n);
    if forall k :: 0 <= k < n ==> !Stops(rounds, busyMax, blockMax, k) {
      RetriesCount(rounds, busyMax, blockMax, n);
      forall k | 0 <= k < n ensures rounds(k) in {Busy, WouldBlock} {
        assert !Stops(rounds, busyMax, blockMax, k);
      }
    }
    if OnlyRetries(rounds, busyMax, blockMax, n) {
      forall k | 0 <= k < n ensures !Stops(rounds, busyMax, blockMax, k) {
        CountsGrow(rounds, k + 1, n);
      }
    }
  }

  /** A device is returned exactly when some round attaches one and every earlier round is such a retry. */
  lemma SucceedsIff(rounds: Rounds, busyMax: nat, blockMax: nat, n: nat)
    ensures FirstStop(rounds, busyMax, blockMax, n) && rounds(n).Attached? <==>
            rounds(n).Attached? && OnlyRetries(rounds, busyMax, blockMax, n)
  {
    FirstStopIff(rounds, busyMax, blockMax, n);
  }

  lemma {:induction false} CountsGrow(rounds: Rounds, m: nat, n: nat)
    requires m <= n
    ensures BusyBefore(rounds, m) <= BusyBefore(rounds, n) && BlockedBefore(rounds, m) <= BlockedBefore(rounds, n)
    decreases n
  {
    if m < n {
      CountsGrow(rounds, m, n - 1);
    }
  }
}
