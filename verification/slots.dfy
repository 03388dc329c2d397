/** The enumerator's `limiter`, a buffered channel of empty structs used
    as a counting semaphore, seen as a counter of held slots. */
module Slots {

  /** `held` of the channel's `capacity` buffer places are filled. */
  datatype Limiter = Limiter(capacity: nat, held: nat)

  predicate Valid(l: Limiter) {
    l.held <= l.capacity
  }

  /** A send on the channel can proceed without blocking. */
  predicate CanAcquire(l: Limiter) {
    l.held < l.capacity
  }

  /** `make(chan struct{}, concurrencyLimit)`: an empty buffer. A channel
      of capacity zero never accepts a send while no one receives, so
      the first acquisition would block forever. */
  function NewLimiter(capacity: nat): (l: Limiter)
    ensures Valid(l) && l.capacity == capacity && l.held == 0
    ensures CanAcquire(l) <==> capacity >= 1
  {
    Limiter(capacity, 0)
  }

  /** `e.limiter <- struct{}{}`: fills one free place. */
  function Acquire(l: Limiter): (l': Limiter)
    requires Valid(l) && CanAcquire(l)
    ensures Valid(l') && l'.capacity == l.capacity
    ensures l'.held == l.held + 1 && l'.held <= l.capacity
  {
    l.(held := l.held + 1)
  }

  /** `<-e.limiter`, deferred in every task: frees one place, which lets a
      blocked acquisition proceed. */
  function Release(l: Limiter): (l': Limiter)
    requires Valid(l) && l.held > 0
    ensures Valid(l') && l'.capacity == l.capacity && CanAcquire(l')
    ensures l'.held == l.held - 1
  {
    l.(held := l.held - 1)
  }

  /** A task that takes a slot and gives it back leaves the limiter as it
      found it. */
  lemma ReleaseUndoesAcquire(l: Limiter)
    requires Valid(l) && CanAcquire(l)
    ensures Release(Acquire(l)) == l
  {
  }
}
