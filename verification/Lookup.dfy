/** `callback_function_lookup` of src/api/c/cloudi.cpp: round-robin dispatch of the callbacks of a pattern. */
module Lookup {

  // One pattern, as the operations see it

  /** The operations on one pattern. An absent pattern is an empty queue. */
  datatype Op<F> = Insert(f: F) | Remove | Find

  /** What a removal or a dispatch took from the front of the queue. */
  datatype Event<F> = Ran(f: F) | Dropped(f: F)

  function After<F>(q: seq<F>, op: Op<F>): seq<F> {
    match op
    case Insert(f) => q + [f]
    case Remove => if q == [] then [] else q[1..]
    case Find => if q == [] then [] else q[1..] + [q[0]]
  }

  function EventsOf<F>(q: seq<F>, op: Op<F>): seq<Event<F>> {
    match op
    case Insert(_) => []
    case Remove => if q == [] then [] else [Dropped(q[0])]
    case Find => if q == [] then [] else [Ran(q[0])]
  }

  function AfterAll<F>(q: seq<F>, ops: seq<Op<F>>): seq<F>
    decreases |ops|
  {
    if ops == [] then q else AfterAll(After(q, ops[0]), ops[1..])
  }

  function History<F>(q: seq<F>, ops: seq<Op<F>>): seq<Event<F>>
    decreases |ops|
  {
    if ops == [] then [] else EventsOf(q, ops[0]) + History(After(q, ops[0]), ops[1..])
  }

  /** The number of removals and dispatches that were asked for. */
  function Pops<F>(ops: seq<Op<F>>): nat {
    if ops == [] then 0 else (if ops[0].Insert? then 0 else 1) + Pops(ops[1..])
  }

  function Inserts<F>(ops: seq<Op<F>>): nat {
    if ops == [] then 0 else (if ops[0].Insert? then 1 else 0) + Inserts(ops[1..])
  }

  function Drops<F>(events: seq<Event<F>>): nat {
    if events == [] then 0 else (if events[0].Dropped? then 1 else 0) + Drops(events[1..])
  }

  lemma {:induction false} DropsSplit<F>(a: seq<Event<F>>, b: seq<Event<F>>)
    ensures Drops(a + b) == Drops(a) + Drops(b)
  {
    if a == [] {
      assert a + b == b;
    } else {
      assert (a + b)[1..] == a[1..] + b;
      DropsSplit(a[1..], b);
    }
  }

  /** Conservation: the queue holds what was inserted and not successfully removed. */
  lemma {:induction false} QueueLength<F>(q: seq<F>, ops: seq<Op<F>>)
    ensures |AfterAll(q, ops)| == |q| + Inserts(ops) - Drops(History(q, ops))
    decreases |ops|
  {
    if ops != [] {
      QueueLength(After(q, ops[0]), ops[1..]);
      DropsSplit(EventsOf(q, ops[0]), History(After(q, ops[0]), ops[1..]));
    }
  }

  /**
   * Bounded waiting: the first |present| removals and dispatches take the entries that were present,
   * each once and in order, whatever is inserted meanwhile and wherever `later` came from.
   */
  lemma {:induction false} TakenInOrder<F>(present: seq<F>, later: seq<F>, ops: seq<Op<F>>)
    requires Pops(ops) <= |present|
    ensures |History(present + later, ops)| == Pops(ops)
    ensures forall k :: 0 <= k < Pops(ops) ==> History(present + later, ops)[k].f == present[k]
    ensures present[Pops(ops)..] <= AfterAll(present + later, ops)
    decreases |ops|
  {
    if ops != [] {
      var q := present + later;
      match ops[0]
      case Insert(f) =>
        assert q + [f] == present + (later + [f]);
        TakenInOrder(present, later + [f], ops[1..]);
        assert EventsOf(q, ops[0]) + History(After(q, ops[0]), ops[1..]) == History(After(q, ops[0]), ops[1..]);
      case Remove =>
        assert q[1..] == present[1..] + later;
        TakenInOrder(present[1..], later, ops[1..]);
        FirstTaken(Dropped(q[0]), History(After(q, ops[0]), ops[1..]), present);
      case Find =>
        assert q[1..] + [q[0]] == present[1..] + (later + [present[0]]);
        TakenInOrder(present[1..], later + [present[0]], ops[1..]);
        FirstTaken(Ran(q[0]), History(After(q, ops[0]), ops[1..]), present);
    }
  }

  lemma FirstTaken<F>(e: Event<F>, rest: seq<Event<F>>, present: seq<F>)
    requires |rest| < |present| && e.f == present[0]
    requires forall k :: 0 <= k < |rest| ==> rest[k].f == present[1..][k]
    ensures forall k :: 0 <= k <= |rest| ==> ([e] + rest)[k].f == present[k]
  {
  }

  /**
   * Between two dispatches of an entry every other entry that was present at the first one is taken
   * exactly once, in queue order: it runs unless it is removed. The entry itself comes next.
   */
  lemma BetweenDispatches<F>(q: seq<F>, ops: seq<Op<F>>)
    requires q != [] && Pops(ops) == |q| - 1
    ensures var first := After(q, Find);
            && EventsOf(q, Find) == [Ran(q[0])]
            && |History(first, ops)| == |q| - 1
            && (forall k :: 0 <= k < |q| - 1 ==> History(first, ops)[k].f == q[1 + k])
            && EventsOf(AfterAll(first, ops), Find) == [Ran(q[0])]
  {
    TakenInOrder(q[1..] + [q[0]], [], ops);
    assert q[1..] + [q[0]] + [] == After(q, Find);
  }

  function Finds<F>(t: nat): seq<Op<F>> {
    seq(t, _ => Find)
  }

  /** Undisturbed dispatches over n entries return entry t mod n at step t. */
  lemma {:induction false} RoundRobin<F>(q: seq<F>, t: nat)
    requires q != []
    ensures AfterAll(q, Finds(t)) == q[t % |q|..] + q[..t % |q|]
    ensures EventsOf(AfterAll(q, Finds(t)), Find) == [Ran(q[t % |q|])]
    decreases t
  {
    if t > 0 {
      var r := q[1..] + [q[0]];
      assert Finds<F>(t)[1..] == Finds<F>(t - 1);
      RoundRobin(r, t - 1);
      RotateOnce(q, t - 1);
    }
  }

  lemma RotateOnce<F>(q: seq<F>, t: nat)
    requires q != []
    ensures var r := q[1..] + [q[0]];
            r[t % |q|..] + r[..t % |q|] == q[(t + 1) % |q|..] + q[..(t + 1) % |q|]
  {
    var n := |q|;
    var r := q[1..] + [q[0]];
    var k := t % n;
    if k + 1 < n {
      NextRemainder(t, n);
      assert r[k..] == q[k + 1..] + [q[0]];
      assert q[..k + 1] == [q[0]] + r[..k];
    } else {
      NextRemainder(t, n);
      assert r[k..] == [q[0]] && r[..k] == q[1..];
    }
  }

  lemma NextRemainder(t: nat, n: nat)
    requires n > 0
    ensures (t + 1) % n == if t % n + 1 < n then t % n + 1 else 0
  {
    var d, k := t / n, t % n;
    assert t == d * n + k;
    if k + 1 < n {
      RemainderIs(t + 1, n, d, k + 1);
    } else {
      assert t + 1 == d * n + n == (d + 1) * n;
      RemainderIs(t + 1, n, d + 1, 0);
    }
  }

  lemma RemainderIs(t: nat, n: nat, d: nat, k: nat)
    requires n > 0 && t == d * n + k && k < n
    ensures t % n == k
  {
    var e := t / n;
    if e < d {
      Times(n, e + 1, d);
    } else if e > d {
      Times(n, d + 1, e);
    }
  }

  lemma Times(n: nat, a: nat, b: nat)
    requires a <= b
    ensures a * n <= b * n
  {
  }

  // The objects

  /** A queue of callbacks that keeps its own count. */
  class CallbackFunctionQueue<F> {
    var queue: seq<F>
    var size: nat

    ghost predicate Valid()
      reads this
    {
      size == |queue|
    }

    constructor (f: F)
      ensures Valid() && queue == [f]
    {
      queue, size := [f], 1;
    }

    method PushBack(f: F)
      requires Valid()
      modifies this
      ensures Valid() && queue == old(queue) + [f]
    {
      queue := queue + [f];
      size := size + 1;
    }

    method PopFront()
      requires Valid() && queue != []
      modifies this
      ensures Valid() && queue == old(queue)[1..]
    {
      queue := queue[1..];
      size := size - 1;
    }

    method Empty() returns (empty: bool)
      requires Valid()
      ensures empty <==> queue == []
    {
      empty := size == 0;
    }

    method Cycle() returns (f: F)
      requires Valid() && queue != []
      modifies this
      ensures Valid() && queue == After(old(queue), Find) && [Ran(f)] == EventsOf(old(queue), Find)
    {
      if size == 1 {
        return queue[0];
      }
      queue := queue + [queue[0]];
      queue := queue[1..];
      f := queue[|queue| - 1];
    }
  }

  class CallbackFunctionLookup<F> {
    const nullResponse: F
    var lookup: map<string, CallbackFunctionQueue<F>>

    /** Every pattern has a queue of its own, and no stored queue is empty. */
    ghost predicate Valid()
      reads this, Queues()
    {
      && (forall p :: p in lookup ==> lookup[p].Valid() && lookup[p].queue != [])
      && (forall p, q :: p in lookup && q in lookup && p != q ==> lookup[p] != lookup[q])
    }

    ghost function Queues(): set<object>
      reads this
    {
      set p | p in lookup :: lookup[p]
    }

    /** The callbacks of a pattern; none when the pattern is absent. */
    ghost function QueueOf(pattern: string): seq<F>
      reads this, Queues()
    {
      if pattern in lookup then lookup[pattern].queue else []
    }

    constructor (nullResponse: F)
      ensures Valid() && lookup == map[] && this.nullResponse == nullResponse
    {
      this.nullResponse := nullResponse;
      lookup := map[];
    }

    method Insert(pattern: string, f: F)
      requires Valid()
      modifies this, Queues()
      ensures Valid() && fresh(Queues() - old(Queues()))
      ensures QueueOf(pattern) == After(old(QueueOf(pattern)), Op.Insert(f))
      ensures forall p :: p != pattern ==> QueueOf(p) == old(QueueOf(p))
    {
      if pattern !in lookup {
        var queue := new CallbackFunctionQueue(f);
        lookup := lookup[pattern := queue];
      } else {
        lookup[pattern].PushBack(f);
      }
    }

    method Remove(pattern: string) returns (removed: bool)
      requires Valid()
      modifies this, Queues()
      ensures Valid() && Queues() <= old(Queues())
      ensures removed <==> old(QueueOf(pattern)) != []
      ensures QueueOf(pattern) == After(old(QueueOf(pattern)), Op.Remove)
      ensures forall p :: p != pattern ==> QueueOf(p) == old(QueueOf(p))
    {
      if pattern !in lookup {
        return false;
      }
      var queue := lookup[pattern];
      queue.PopFront();
      var empty := queue.Empty();
      if empty {
        lookup := lookup - {pattern};
      }
      removed := true;
    }

    method Find(pattern: string) returns (f: F)
      requires Valid()
      modifies Queues()
      ensures Valid() && lookup == old(lookup)
      ensures QueueOf(pattern) == After(old(QueueOf(pattern)), Op.Find)
      ensures if old(QueueOf(pattern)) == [] then f == nullResponse
              else EventsOf(old(QueueOf(pattern)), Op.Find) == [Ran(f)]
      ensures forall p :: p != pattern ==> QueueOf(p) == old(QueueOf(p))
    {
      if pattern !in lookup {
        return nullResponse;
      }
      f := lookup[pattern].Cycle();
    }
  }
}
