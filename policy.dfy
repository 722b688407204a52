/**
 * Full-queue policies (taskq/policy.py). A policy is called by `push` when the
 * queue is at capacity and either raises `QueueFullException` or returns a
 * number; a truthy number makes `push` return without inserting, zero lets it
 * go on. The random-eviction policy needs the queue itself and is the method
 * `Queue.DiscardRandom` of module TaskQueue.
 */
module Policy {
  /** The three policies a queue can be built with: policy.exception, policy.discard, policy.discard_random. */
  datatype FullPolicy = RaiseFull | DropIncoming | EvictRandom

  /** What a policy call does: return a code, or raise QueueFullException. */
  datatype Outcome = Returned(code: int) | Raised

  /** `push` goes no further when the policy raises or returns a truthy code. */
  predicate StopsPush(o: Outcome) {
    o.Raised? || o.code != 0
  }

  /** policy.exception: the push fails with QueueFullException. */
  function Exception(): (o: Outcome)
    ensures StopsPush(o) && o.Raised?
  {
    Raised
  }

  /** policy.discard: the push silently drops the incoming item. */
  function Discard(): (o: Outcome)
    ensures StopsPush(o) && !o.Raised?
  {
    Returned(1)
  }

  /** The code policy.discard_random returns after it has evicted an item: the push goes on. */
  function Continue(): (o: Outcome)
    ensures !StopsPush(o)
  {
    Returned(0)
  }
}
