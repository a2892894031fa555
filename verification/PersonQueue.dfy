/** A first-in first-out queue of people backed by a list: enqueue appends,
    dequeue takes the front. */
module PersonQueues {
  import opened Exceptions

  /** A person waiting for turns; the turn count is changed in place by the
      turn-taking queue. A count of zero or less means unlimited turns. */
  class Person {
    var name: string
    var turns: int

    constructor (name: string, turns: int)
      ensures this.name == name && this.turns == turns
    {
      this.name := name;
      this.turns := turns;
    }
  }

  class PersonQueue {
    /** The people from front to back. */
    var queue: seq<Person>

    constructor ()
      ensures queue == []
    {
      queue := [];
    }

    /** The number of people in the queue. */
    function Length(): nat
      reads this
    {
      |queue|
    }

    /** Adds `person` at the back. */
    method Enqueue(person: Person)
      modifies this
      ensures queue == old(queue) + [person]
      ensures Length() == old(Length()) + 1
    {
      queue := queue + [person];
    }

    /** Removes and returns the person at the front; fails with "Cannot
        dequeue from an empty queue." and changes nothing when there is none. */
    method Dequeue() returns (r: Result<Person>)
      modifies this
      ensures old(queue) == [] ==>
        r == Failure(InvalidOperation("Cannot dequeue from an empty queue.")) && queue == old(queue)
      ensures old(queue) != [] ==>
        r == Success(old(queue)[0]) && queue == old(queue)[1..] && Length() == old(Length()) - 1
    {
      if IsEmpty() {
        return Failure(InvalidOperation("Cannot dequeue from an empty queue."));
      }
      var person := queue[0];
      queue := queue[1..];
      return Success(person);
    }

    /** Whether nobody is waiting. */
    predicate IsEmpty(): (b: bool)
      reads this
      ensures b <==> Length() == 0
      ensures b <==> queue == []
    {
      |queue| == 0
    }
  }

  /** People come out in the order they went in: whatever was queued in
      front of a newcomer is dequeued before them. */
  method FifoExample(first: Person, second: Person) returns (a: Result<Person>, b: Result<Person>, c: Result<Person>)
    ensures a == Success(first) && b == Success(second)
    ensures c == Failure(InvalidOperation("Cannot dequeue from an empty queue."))
  {
    var q := new PersonQueue();
    q.Enqueue(first);
    q.Enqueue(second);
    a := q.Dequeue();
    b := q.Dequeue();
    c := q.Dequeue();
  }
}
