/** The bounded blocking queue: what its methods do while they hold the mutex. */
module BoundedQueue {

  datatype Queue<T> = Queue(capacity: nat, items: seq<T>, down: bool)

  datatype PushOutcome = Pushed | Refused | MustWait
  datatype PopOutcome<T> = Popped(value: T) | Drained | MustWait

  function Capacity(requested: nat): nat {
    if requested == 0 then 1 else requested
  }

  /** One look at the queue by `push`: from taking the mutex to returning, or to waiting for a free slot. */
  function PushSection<T>(q: Queue<T>, value: T): (Queue<T>, PushOutcome) {
    if q.down then (q, Refused)
    else if |q.items| >= q.capacity then (q, PushOutcome.MustWait)
    else (q.(items := q.items + [value]), Pushed)
  }

  /** One look at the queue by `pop`. Items that are left are handed out even after a shutdown. */
  function PopSection<T>(q: Queue<T>): (Queue<T>, PopOutcome<T>) {
    if q.items != [] then (q.(items := q.items[1..]), Popped(q.items[0]))
    else if q.down then (q, Drained)
    else (q, PopOutcome.MustWait)
  }

  class BoundedQueue<T> {
    const capacity: nat
    var queue: seq<T>
    var down: bool

    function Contents(): Queue<T>
      reads this
    {
      Queue(capacity, queue, down)
    }

    predicate Valid()
      reads this
    {
      1 <= capacity && |queue| <= capacity
    }

    constructor (capacity: nat)
      ensures Valid() && Contents() == Queue(Capacity(capacity), [], false)
    {
      this.capacity := if capacity == 0 then 1 else capacity;
      queue := [];
      down := false;
    }

    /** The body of `push` under the mutex, up to where it would sleep on `not_full_`. */
    method PushLocked(value: T) returns (outcome: PushOutcome)
      requires Valid()
      modifies this
      ensures Valid() && (Contents(), outcome) == PushSection(old(Contents()), value)
    {
      if !(down || |queue| < capacity) {
        return PushOutcome.MustWait;
      }
      if down {
        return Refused;
      }
      queue := queue + [value];
      return Pushed;
    }

    /** The body of `pop` under the mutex, up to where it would sleep on `not_empty_`. */
    method PopLocked() returns (outcome: PopOutcome<T>)
      requires Valid()
      modifies this
      ensures Valid() && (Contents(), outcome) == PopSection(old(Contents()))
    {
      if !(down || queue != []) {
        return PopOutcome.MustWait;
      }
      if queue == [] {
        return Drained;
      }
      var value := queue[0];
      queue := queue[1..];
      return Popped(value);
    }

    method SetShutdown()
      requires Valid()
      modifies this`down
      ensures Valid() && Contents() == old(Contents()).(down := true)
    {
      down := true;
    }

    method Size() returns (n: nat)
      ensures n == |Contents().items|
    {
      return |queue|;
    }
  }
}
