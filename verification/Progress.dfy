/** The progress callback, asked once every 100000 messages; a refusal ends the run before that message. */
module Progress {
  import opened Bytes

  const INTERVAL: nat := 100000

  /** Answer of the callback when it is asked at message number k, counted from 1. */
  type Callback = Option<nat -> bool>

  /** The callback is asked at message k and wants the run to end. */
  predicate Refuses(prog: Callback, k: nat)
  {
    prog.Some? && k % INTERVAL == 0 && !prog.value(k)
  }

  /** The callback let the first n messages through. */
  ghost predicate Agreed(prog: Callback, n: nat)
  {
    forall k | 1 <= k <= n :: !Refuses(prog, k)
  }

  lemma NothingRefused(prog: Callback)
    ensures Agreed(prog, 0)
  {
  }

  lemma OneMoreAgreed(prog: Callback, n: nat)
    requires Agreed(prog, n)
    ensures !Refuses(prog, n + 1) ==> Agreed(prog, n + 1)
    ensures prog.None? ==> !Refuses(prog, n + 1)
  {
  }

  /** n of the total messages are processed. */
  ghost predicate StopsAfter(prog: Callback, total: nat, n: nat)
  {
    n <= total && Agreed(prog, n) && (n < total ==> Refuses(prog, n + 1))
  }

  /** The same for a loop that counts from 0, where the callback is asked before the very first message too. */
  ghost predicate StopsAt(prog: Callback, total: nat, n: nat)
  {
    n <= total && AgreedBefore(prog, n) && (n < total ==> Refuses(prog, n))
  }

  ghost predicate AgreedBefore(prog: Callback, n: nat)
  {
    forall k | 0 <= k < n :: !Refuses(prog, k)
  }

  /** The counter runs along only when there is a callback. */
  ghost predicate Counting(prog: Callback, counter: nat, n: nat)
  {
    (prog.Some? ==> counter == n) && AgreedBefore(prog, n)
  }

  lemma CountingStarts(prog: Callback)
    ensures Counting(prog, 0, 0)
  {
  }

  lemma CountingStep(prog: Callback, counter: nat, n: nat)
    requires Counting(prog, counter, n)
    ensures AgreedBefore(prog, n)
    ensures prog.None? ==> Counting(prog, counter, n + 1)
    ensures prog.Some? && !Refuses(prog, counter) ==> Counting(prog, counter + 1, n + 1)
    ensures Refuses(prog, counter) ==> Refuses(prog, n)
  {
  }
}
