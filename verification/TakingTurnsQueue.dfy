/** A circular turn-taking queue built on the person queue: the person at
    the front takes a turn and goes to the back while they have turns
    left; a turn count of zero or less means unlimited turns. */
module TakingTurns {
  import opened Exceptions
  import opened PersonQueues

  /** What a waiting person looks like from outside: a name and a count. */
  datatype Turn = Turn(name: string, turns: int)

  /** The people of `ps` as values, front to back. */
  ghost function Turns(ps: seq<Person>): (r: seq<Turn>)
    reads ps
    ensures |r| == |ps|
    ensures forall i :: 0 <= i < |ps| ==> r[i] == Turn(ps[i].name, ps[i].turns)
  {
    if ps == [] then [] else [Turn(ps[0].name, ps[0].turns)] + Turns(ps[1..])
  }

  /** The rule of one turn on a line of values: the front takes a turn and
      is returned with its count after the turn; a finite count drops by
      one and the person goes to the back only while it stays above zero;
      an unlimited one goes to the back unchanged. */
  function NextTurn(line: seq<Turn>): (r: (Turn, seq<Turn>))
    requires line != []
    ensures r.0.name == line[0].name
    ensures line[0].turns > 1 ==>
      r.0.turns == line[0].turns - 1 && r.1 == line[1..] + [r.0] && |r.1| == |line|
    ensures line[0].turns == 1 ==> r.0.turns == 0 && r.1 == line[1..] && |r.1| == |line| - 1
    ensures line[0].turns <= 0 ==> r.0 == line[0] && r.1 == line[1..] + [line[0]]
  {
    var front := line[0];
    if front.turns > 0 then
      var after := Turn(front.name, front.turns - 1);
      (after, if after.turns > 0 then line[1..] + [after] else line[1..])
    else
      (front, line[1..] + [front])
  }

  /** No person object appears twice in `ps`. */
  predicate Distinct(ps: seq<Person>) {
    forall i, j :: 0 <= i < j < |ps| ==> ps[i] != ps[j]
  }

  /** Sending the front of a line of distinct people to the back, or taking
      it out, keeps the people distinct, and the front is not among the
      others. */
  lemma DistinctRotate(ps: seq<Person>)
    requires ps != [] && Distinct(ps)
    ensures ps[0] !in ps[1..]
    ensures Distinct(ps[1..]) && Distinct(ps[1..] + [ps[0]])
  {
    var rotated := ps[1..] + [ps[0]];
    forall i, j | 0 <= i < j < |rotated|
      ensures rotated[i] != rotated[j]
    {
      assert rotated[i] == ps[i + 1];
      if j < |rotated| - 1 {
        assert rotated[j] == ps[j + 1];
      }
    }
  }

  /** The values of a line with one more person at the back. */
  lemma TurnsAppend(ps: seq<Person>, p: Person)
    ensures Turns(ps + [p]) == Turns(ps) + [Turn(p.name, p.turns)]
  {
  }

  class TakingTurnsQueue {
    const people: PersonQueue

    /** No person object is queued twice, so changing one person's count
        changes one place in the line. */
    ghost predicate Valid()
      reads this, people
    {
      Distinct(people.queue)
    }

    /** The line as values. */
    ghost function Line(): seq<Turn>
      reads this, people, people.queue
    {
      Turns(people.queue)
    }

    constructor ()
      ensures Valid() && Line() == [] && fresh(people)
    {
      people := new PersonQueue();
    }

    /** The number of people waiting. */
    function Length(): nat
      reads this, people
    {
      people.Length()
    }

    /** Queues a new person with `name` and `turns` at the back. */
    method AddPerson(name: string, turns: int)
      requires Valid()
      modifies people
      ensures Valid()
      ensures Line() == old(Line()) + [Turn(name, turns)]
      ensures Length() == old(Length()) + 1
      ensures people.queue[..|old(people.queue)|] == old(people.queue)
      ensures fresh(people.queue[|people.queue| - 1])
    {
      var person := new Person(name, turns);
      people.Enqueue(person);
    }

    /** The second half of a turn, once `person` has left the front: a
        finite count drops by one and the person goes back in line while it
        stays above zero; an unlimited one goes back unchanged. */
    method GiveTurn(person: Person)
      requires Valid() && person !in people.queue
      modifies people, person
      ensures Valid() && person.name == old(person.name)
      ensures Turn(person.name, person.turns) == NextTurn([old(Turn(person.name, person.turns))] + old(Line())).0
      ensures Line() == NextTurn([old(Turn(person.name, person.turns))] + old(Line())).1
      ensures old(person.turns) == 1 ==> people.queue == old(people.queue)
      ensures old(person.turns) != 1 ==> people.queue == old(people.queue) + [person]
    {
      ghost var line := Line();
      ghost var front := Turn(person.name, person.turns);
      assert ([front] + line)[1..] == line;
      if person.turns > 0 {
        person.turns := person.turns - 1;
        assert Line() == line;
        if person.turns > 0 {
          people.Enqueue(person);
          TurnsAppend(old(people.queue), person);
        }
      } else {
        people.Enqueue(person);
        TurnsAppend(old(people.queue), person);
      }
    }

    /** Gives the front person a turn and returns them; fails with "No one in
        the queue." when nobody is waiting. */
    method GetNextPerson() returns (r: Result<Person>)
      requires Valid()
      modifies people, people.queue
      ensures Valid()
      ensures old(people.queue) == [] ==>
        r == Failure(InvalidOperation("No one in the queue.")) && people.queue == old(people.queue)
      ensures old(people.queue) != [] ==> r == Success(old(people.queue[0]))
      ensures old(people.queue) != [] ==>
        r.Success? && Turn(r.value.name, r.value.turns) == NextTurn(old(Line())).0
      ensures old(people.queue) != [] ==> Line() == NextTurn(old(Line())).1
      ensures old(people.queue) != [] && old(people.queue[0].turns) == 1 ==>
        people.queue == old(people.queue)[1..]
      ensures old(people.queue) != [] && old(people.queue[0].turns) != 1 ==>
        people.queue == old(people.queue)[1..] + [old(people.queue[0])]
    {
      if people.IsEmpty() {
        return Failure(InvalidOperation("No one in the queue."));
      }
      ghost var queue := people.queue;
      DistinctRotate(queue);
      var dequeued := people.Dequeue();
      var person := dequeued.value;
      assert old(Line()) == [Turn(person.name, person.turns)] + Line();
      GiveTurn(person);
      return Success(person);
    }
  }

  /** The total of the turn counts. */
  function TotalTurns(line: seq<Turn>): int {
    if line == [] then 0 else line[0].turns + TotalTurns(line[1..])
  }

  lemma {:induction false} TotalTurnsAppend(line: seq<Turn>, t: Turn)
    ensures TotalTurns(line + [t]) == TotalTurns(line) + t.turns
  {
    if line == [] {
      assert [] + [t] == [t];
    } else {
      assert (line + [t])[1..] == line[1..] + [t];
      TotalTurnsAppend(line[1..], t);
    }
  }

  predicate AllFinite(line: seq<Turn>) {
    forall i :: 0 <= i < |line| ==> line[i].turns > 0
  }

  lemma {:induction false} TotalTurnsAtLeastLength(line: seq<Turn>)
    requires AllFinite(line)
    ensures TotalTurns(line) >= |line|
  {
    if line != [] {
      TotalTurnsAtLeastLength(line[1..]);
    }
  }

  /** With only finite counts, one turn keeps every count finite and uses
      up exactly one turn. */
  lemma NextTurnUsesOne(line: seq<Turn>)
    requires line != [] && AllFinite(line)
    ensures AllFinite(NextTurn(line).1)
    ensures TotalTurns(NextTurn(line).1) == TotalTurns(line) - 1
  {
    var front := line[0];
    var after := Turn(front.name, front.turns - 1);
    if after.turns > 0 {
      TotalTurnsAppend(line[1..], after);
    }
  }

  /** The names returned by `n` successive turns, and the line they leave. */
  function Run(line: seq<Turn>, n: nat): (r: (seq<string>, seq<Turn>))
    decreases n
  {
    if n == 0 || line == [] then ([], line)
    else
      var next := NextTurn(line);
      var later := Run(next.1, n - 1);
      ([next.0.name] + later.0, later.1)
  }

  /** With only finite counts, the queue empties after exactly as many
      turns as the counts add up to, and gives a name every time. */
  lemma {:induction false} RunEmptiesAfterTotal(line: seq<Turn>)
    requires AllFinite(line)
    ensures TotalTurns(line) >= |line|
    ensures Run(line, TotalTurns(line)).1 == []
    ensures |Run(line, TotalTurns(line)).0| == TotalTurns(line)
    decreases TotalTurns(line)
  {
    TotalTurnsAtLeastLength(line);
    if line != [] {
      NextTurnUsesOne(line);
      var rest := NextTurn(line).1;
      TotalTurnsAtLeastLength(rest);
      RunEmptiesAfterTotal(rest);
    }
  }

  /** `n` turns from `line` return `names` and leave `rest` waiting. */
  predicate Yields(line: seq<Turn>, n: nat, names: seq<string>, rest: seq<Turn>) {
    Run(line, n).0 == names && Run(line, n).1 == rest
  }

  /** `n` turns from `line` return `names` and leave nobody waiting. */
  predicate EmptiesWith(line: seq<Turn>, n: nat, names: seq<string>) {
    Yields(line, n, names, [])
  }

  /** One turn from `line` followed by the turns from what it leaves. */
  lemma YieldsStep(line: seq<Turn>, n: nat, next: seq<Turn>, name: string, names: seq<string>, rest: seq<Turn>)
    requires line != [] && NextTurn(line).1 == next && NextTurn(line).0.name == name
    requires n > 0 && names != [] && names[0] == name && Yields(next, n - 1, names[1..], rest)
    ensures Yields(line, n, names, rest)
  {
    assert names == [name] + names[1..];
  }

  /** A person with unlimited turns who is alone in line takes every turn
      and stays, with the count unchanged. */
  lemma {:induction false} AloneForever(t: Turn, n: nat)
    requires t.turns <= 0
    ensures Yields([t], n, seq(n, _ => t.name), [t])
  {
    if n > 0 {
      assert [t][1..] + [t] == [t];
      AloneForever(t, n - 1);
      assert seq(n, _ => t.name) == [t.name] + seq(n - 1, _ => t.name);
    }
  }

  /** `m` turns and then `k` more are `m + k` turns: the names add up and the
      second run starts from where the first left off. */
  lemma {:induction false} RunCompose(a: seq<Turn>, m: nat, n1: seq<string>, b: seq<Turn>,
                                      k: nat, n2: seq<string>, c: seq<Turn>)
    requires Yields(a, m, n1, b) && Yields(b, k, n2, c)
    ensures Yields(a, m + k, n1 + n2, c)
    decreases m
  {
    if m == 0 {
      assert n1 + n2 == n2;
    } else if a == [] {
      assert n1 + n2 == n2;
    } else {
      var next := NextTurn(a);
      RunCompose(next.1, m - 1, n1[1..], b, k, n2, c);
      assert n1 + n2 == [next.0.name] + (n1[1..] + n2);
    }
  }

  /** The first five turns of the queue Bob (2 turns), Tim (5), Sue (3):
      Bob, Tim, Sue, Bob, Tim, leaving Sue with 2 and Tim with 3. */
  lemma RoundRobinOpening(bob: string, tim: string, sue: string)
    ensures Yields([Turn(bob, 2), Turn(tim, 5), Turn(sue, 3)], 5,
                   [bob, tim, sue, bob, tim], [Turn(sue, 2), Turn(tim, 3)])
  {
    var rest := [Turn(sue, 2), Turn(tim, 3)];
    var b1, b2 := Turn(bob, 1), Turn(bob, 2);
    var t4, t5 := Turn(tim, 4), Turn(tim, 5);
    var s2, s3 := Turn(sue, 2), Turn(sue, 3);
    assert Yields(rest, 0, [], rest);
    YieldsStep([t4, s2], 1, rest, tim, [tim], rest);
    YieldsStep([b1, t4, s2], 2, [t4, s2], bob, [bob, tim], rest);
    YieldsStep([s3, b1, t4], 3, [b1, t4, s2], sue, [sue, bob, tim], rest);
    YieldsStep([t5, s3, b1], 4, [s3, b1, t4], tim, [tim, sue, bob, tim], rest);
    YieldsStep([b2, t5, s3], 5, [t5, s3, b1], bob, [bob, tim, sue, bob, tim], rest);
  }

  /** The last five turns of the queue above: Sue with 2 turns and Tim with
      3 take turns Sue, Tim, Sue, Tim, Tim, and nobody is left. */
  lemma RoundRobinEnding(tim: string, sue: string)
    ensures EmptiesWith([Turn(sue, 2), Turn(tim, 3)], 5, [sue, tim, sue, tim, tim])
  {
    var t1, t2, t3 := Turn(tim, 1), Turn(tim, 2), Turn(tim, 3);
    var s1, s2 := Turn(sue, 1), Turn(sue, 2);
    assert Yields([], 0, [], []);
    YieldsStep([t1], 1, [], tim, [tim], []);
    YieldsStep([t2], 2, [t1], tim, [tim, tim], []);
    YieldsStep([s1, t2], 3, [t2], sue, [sue, tim, tim], []);
    YieldsStep([t3, s1], 4, [s1, t2], tim, [tim, sue, tim, tim], []);
    YieldsStep([s2, t3], 5, [t3, s1], sue, [sue, tim, sue, tim, tim], []);
  }

  /** Bob with 2 turns, Tim with 5 and Sue with 3, queued in that order,
      take turns Bob, Tim, Sue, Bob, Tim, Sue, Tim, Sue, Tim, Tim, and then
      nobody is left. */
  lemma RoundRobinExample(bob: string, tim: string, sue: string)
    ensures EmptiesWith([Turn(bob, 2), Turn(tim, 5), Turn(sue, 3)], 10,
                        [bob, tim, sue, bob, tim, sue, tim, sue, tim, tim])
  {
    RoundRobinOpening(bob, tim, sue);
    RoundRobinEnding(tim, sue);
    RunCompose([Turn(bob, 2), Turn(tim, 5), Turn(sue, 3)], 5, [bob, tim, sue, bob, tim],
               [Turn(sue, 2), Turn(tim, 3)], 5, [sue, tim, sue, tim, tim], []);
  }

  /** The end of the run below: Tim with 2 turns and George with 2 take
      turns Tim, George, Tim, George. */
  lemma MidwayEnding(tim: string, george: string)
    ensures EmptiesWith([Turn(tim, 2), Turn(george, 2)], 4, [tim, george, tim, george])
  {
    var t1, t2 := Turn(tim, 1), Turn(tim, 2);
    var g1, g2 := Turn(george, 1), Turn(george, 2);
    assert Yields([], 0, [], []);
    YieldsStep([g1], 1, [], george, [george], []);
    YieldsStep([t1, g1], 2, [g1], tim, [tim, george], []);
    YieldsStep([g2, t1], 3, [t1, g1], george, [george, tim, george], []);
    YieldsStep([t2, g2], 4, [g2, t1], tim, [tim, george, tim, george], []);
  }

  /** Sue with 2 turns, Tim with 3 and George with 3 take turns Sue, Tim,
      George, Sue, Tim, George, Tim, George, and nobody is left. */
  lemma MidwayAfterJoin(tim: string, sue: string, george: string)
    ensures EmptiesWith([Turn(sue, 2), Turn(tim, 3), Turn(george, 3)], 8,
                        [sue, tim, george, sue, tim, george, tim, george])
  {
    MidwayEnding(tim, george);
    var t2, t3 := Turn(tim, 2), Turn(tim, 3);
    var s1, s2 := Turn(sue, 1), Turn(sue, 2);
    var g2, g3 := Turn(george, 2), Turn(george, 3);
    YieldsStep([s1, t2, g2], 5, [t2, g2], sue, [sue, tim, george, tim, george], []);
    YieldsStep([g3, s1, t2], 6, [s1, t2, g2], george, [george, sue, tim, george, tim, george], []);
    YieldsStep([t3, g3, s1], 7, [g3, s1, t2], tim, [tim, george, sue, tim, george, tim, george], []);
    YieldsStep([s2, t3, g3], 8, [t3, g3, s1], sue, [sue, tim, george, sue, tim, george, tim, george], []);
  }

  /** After the five opening turns above, George joins with 3 turns behind
      Sue (2) and Tim (3); the rest of the run is Sue, Tim, George, Sue, Tim,
      George, Tim, George. */
  lemma AddPlayerMidwayExample(bob: string, tim: string, sue: string, george: string)
    ensures Yields([Turn(bob, 2), Turn(tim, 5), Turn(sue, 3)], 5,
                   [bob, tim, sue, bob, tim], [Turn(sue, 2), Turn(tim, 3)])
    ensures EmptiesWith([Turn(sue, 2), Turn(tim, 3)] + [Turn(george, 3)], 8,
                        [sue, tim, george, sue, tim, george, tim, george])
  {
    RoundRobinOpening(bob, tim, sue);
    MidwayAfterJoin(tim, sue, george);
    assert [Turn(sue, 2), Turn(tim, 3)] + [Turn(george, 3)] == [Turn(sue, 2), Turn(tim, 3), Turn(george, 3)];
  }

  /** A person `t` with unlimited turns and Sue with 2 alternate until Sue
      has had her turns; `t` is left waiting, unchanged. */
  lemma AlternateWithUnlimited(t: Turn, sue: string)
    requires t.turns <= 0
    ensures Yields([t, Turn(sue, 2)], 4, [t.name, sue, t.name, sue], [t])
  {
    var tim := t.name;
    var s1, s2 := Turn(sue, 1), Turn(sue, 2);
    assert Yields([t], 0, [], [t]);
    YieldsStep([s1, t], 1, [t], sue, [sue], [t]);
    YieldsStep([t, s1], 2, [s1, t], tim, [tim, sue], [t]);
    YieldsStep([s2, t], 3, [t, s1], sue, [sue, tim, sue], [t]);
    YieldsStep([t, s2], 4, [s2, t], tim, [tim, sue, tim, sue], [t]);
  }

  /** Tim with unlimited turns (-3) and Sue with 3 take turns Tim, Sue, Tim,
      Sue, Tim, Sue, Tim, Tim, Tim, Tim; Tim is then still waiting, and his
      next turn returns him with his count still -3. */
  lemma ForeverNegativeExample(tim: string, sue: string)
    ensures Yields([Turn(tim, -3), Turn(sue, 3)], 10,
                   [tim, sue, tim, sue, tim, sue, tim, tim, tim, tim], [Turn(tim, -3)])
    ensures NextTurn([Turn(tim, -3)]).0 == Turn(tim, -3)
  {
    var t := Turn(tim, -3);
    var s2, s3 := Turn(sue, 2), Turn(sue, 3);
    AlternateWithUnlimited(t, sue);
    YieldsStep([s3, t], 5, [t, s2], sue, [sue, tim, sue, tim, sue], [t]);
    YieldsStep([t, s3], 6, [s3, t], tim, [tim, sue, tim, sue, tim, sue], [t]);
    AloneForever(t, 4);
    assert seq(4, _ => tim) == [tim, tim, tim, tim];
    RunCompose([t, s3], 6, [tim, sue, tim, sue, tim, sue], [t], 4, [tim, tim, tim, tim], [t]);
  }

  /** Bob with 2 turns, Tim with unlimited turns (0) and Sue with 3 take
      turns Bob, Tim, Sue, Bob, Tim, Sue, Tim, Sue, Tim, Tim; Tim is then
      still waiting with his count still 0. */
  lemma ForeverZeroExample(bob: string, tim: string, sue: string)
    ensures Yields([Turn(bob, 2), Turn(tim, 0), Turn(sue, 3)], 10,
                   [bob, tim, sue, bob, tim, sue, tim, sue, tim, tim], [Turn(tim, 0)])
  {
    var t := Turn(tim, 0);
    var b1, b2 := Turn(bob, 1), Turn(bob, 2);
    var s2, s3 := Turn(sue, 2), Turn(sue, 3);
    AlternateWithUnlimited(t, sue);
    YieldsStep([b1, t, s2], 5, [t, s2], bob, [bob, tim, sue, tim, sue], [t]);
    YieldsStep([s3, b1, t], 6, [b1, t, s2], sue, [sue, bob, tim, sue, tim, sue], [t]);
    YieldsStep([t, s3, b1], 7, [s3, b1, t], tim, [tim, sue, bob, tim, sue, tim, sue], [t]);
    YieldsStep([b2, t, s3], 8, [t, s3, b1], bob, [bob, tim, sue, bob, tim, sue, tim, sue], [t]);
    AloneForever(t, 2);
    assert seq(2, _ => tim) == [tim, tim];
    RunCompose([b2, t, s3], 8, [bob, tim, sue, bob, tim, sue, tim, sue], [t], 2, [tim, tim], [t]);
  }
}
