/**
 * Heap entries of the task queue (taskq/queue.py:49).
 *
 * The source stores each entry as a mutable list `[priority, count, category, item]`
 * that is shared between a category heap and the lookup dictionary; `discard`
 * overwrites its last slot with a tombstone. Here an entry is the immutable key
 * (priority, sequence, category) — the sequence number alone already identifies
 * it — and the mutable last slot is a `Payload` the queue keeps per entry.
 */
module Entries {
  type Category = string

  /** The item slot of an entry: the caller's item, or the tombstone left by `discard`. */
  datatype Payload<Item> = Live(item: Item) | Tombstone

  /** The ordering part of an entry; `sequence` is the tie-breaker drawn from the queue's counter. */
  datatype Entry = Entry(priority: int, sequence: nat, category: Category)

  /** Entries compare as the pairs (priority, sequence): `a` comes no later than `b`. */
  predicate Le(a: Entry, b: Entry) {
    a.priority < b.priority || (a.priority == b.priority && a.sequence <= b.sequence)
  }

  /** `a` comes strictly before `b`. */
  predicate Lt(a: Entry, b: Entry) {
    a.priority < b.priority || (a.priority == b.priority && a.sequence < b.sequence)
  }
}
