/** The port allocator of the suite matrix, and all runs of allocate and release on it. */
module Ports {
  import opened Machine

  /** `count` consecutive ports from `start` on are free. */
  predicate Free(taken: set<int>, start: int, count: int) {
    forall p :: start <= p < start + count ==> p !in taken
  }

  /** The ports start, ..., start + count - 1; none when count is not positive. */
  function Block(start: int, count: int): (r: seq<int>)
    ensures |r| == Max(0, count) && forall i :: 0 <= i < |r| ==> r[i] == start + i
  {
    seq(Max(0, count), i => start + i)
  }

  ghost function Members(s: seq<int>): (r: set<int>)
    ensures forall p :: p in r <==> p in s
  {
    set p | p in s
  }

  /** The lowest start of a free block, searching [from, last]. */
  function LowestFree(taken: set<int>, from: int, last: int, count: int): (r: Option<int>)
    ensures r.Some? ==> from <= r.value <= last && Free(taken, r.value, count)
    ensures r.Some? ==> forall c :: from <= c < r.value ==> !Free(taken, c, count)
    ensures r.None? ==> forall c :: from <= c <= last ==> !Free(taken, c, count)
    decreases last - from
  {
    if from > last then None
    else if Free(taken, from, count) then Some(from)
    else LowestFree(taken, from + 1, last, count)
  }

  class PortPool {
    const basePort: int
    const maxPort: int
    var taken: set<int>

    constructor (basePort: int, maxPort: int)
      ensures this.basePort == basePort && this.maxPort == maxPort && taken == {}
    {
      this.basePort, this.maxPort, this.taken := basePort, maxPort, {};
    }

    /** `allocate`: None stands for the raised error. */
    method Allocate(count: int) returns (ports: Option<seq<int>>)
      modifies this
      ensures var c := LowestFree(old(taken), basePort, maxPort - count, count);
              match c
              case None => ports == None && taken == old(taken)
              case Some(start) =>
                && ports == Some(Block(start, count))
                && taken == old(taken) + Members(Block(start, count))
    {
      var cand := basePort;
      while cand < maxPort - count + 1
        invariant taken == old(taken)
        invariant LowestFree(taken, basePort, maxPort - count, count) == LowestFree(taken, cand, maxPort - count, count)
      {
        var i := 0;
        while i < count && cand + i !in taken
          invariant 0 <= i && (i <= count || count <= 0)
          invariant forall p :: cand <= p < cand + i ==> p !in taken
        {
          i := i + 1;
        }
        if i >= count {
          var block := Block(cand, count);
          assert Free(taken, cand, count);
          taken := taken + (set p | p in block);
          return Some(block);
        }
        assert !Free(taken, cand, count);
        cand := cand + 1;
      }
      ports := None;
    }

    /** `release`. */
    method Release(ports: seq<int>)
      modifies this
      ensures taken == old(taken) - Members(ports)
    {
      var i := 0;
      while i < |ports|
        invariant 0 <= i <= |ports|
        invariant taken == old(taken) - Members(ports[..i])
      {
        taken := taken - {ports[i]};
        i := i + 1;
        assert ports[..i] == ports[..i - 1] + [ports[i - 1]];
      }
      assert ports[..|ports|] == ports;
    }
  }

  // ----- Runs -----

  /** The pool and the blocks its clients hold. */
  datatype State = State(taken: set<int>, live: seq<seq<int>>)

  /** A client asks for a block, or gives back the k-th block that is held. */
  datatype Action = Ask(count: int) | GiveBack(k: nat)

  ghost function Step(base: int, max: int, s: State, a: Action): State {
    match a
    case Ask(count) =>
      (match LowestFree(s.taken, base, max - count, count)
       case None => s
       case Some(start) =>
         State(s.taken + Members(Block(start, count)), s.live + [Block(start, count)]))
    case GiveBack(k) =>
      if k < |s.live|
      then State(s.taken - Members(s.live[k]), s.live[..k] + s.live[k + 1..])
      else s
  }

  /** The pool does what the step says. */
  method Act(pool: PortPool, live: seq<seq<int>>, a: Action) returns (live': seq<seq<int>>)
    modifies pool
    ensures State(pool.taken, live') == Step(pool.basePort, pool.maxPort, State(old(pool.taken), live), a)
  {
    live' := live;
    match a {
      case Ask(count) =>
        var ports := pool.Allocate(count);
        if ports.Some? { live' := live + [ports.value]; }
      case GiveBack(k) =>
        if k < |live| {
          pool.Release(live[k]);
          live' := live[..k] + live[k + 1..];
        }
    }
  }

  ghost function Run(base: int, max: int, s: State, actions: seq<Action>): State
    decreases |actions|
  {
    if actions == [] then s else Run(base, max, Step(base, max, s, actions[0]), actions[1..])
  }

  /** Held blocks share no port, stay in [base, max), and together are what is marked allocated. */
  ghost predicate Consistent(base: int, max: int, s: State) {
    && (forall i, j :: 0 <= i < j < |s.live| ==> Members(s.live[i]) !! Members(s.live[j]))
    && (forall i, p :: 0 <= i < |s.live| && p in s.live[i] ==> base <= p < max)
    && (forall p :: p in s.taken <==> Held(s, p))
  }

  ghost predicate Held(s: State, p: int) {
    exists i :: 0 <= i < |s.live| && p in s.live[i]
  }

  lemma AskKeeps(base: int, max: int, s: State, start: int, count: int)
    requires Consistent(base, max, s)
    requires base <= start && start + count <= max && Free(s.taken, start, count)
    ensures Consistent(base, max, State(s.taken + Members(Block(start, count)), s.live + [Block(start, count)]))
  {
    var b := Block(start, count);
    var s' := State(s.taken + Members(b), s.live + [b]);
    forall i | 0 <= i < |s.live| ensures Members(s.live[i]) !! Members(b) {
      forall p | p in s.live[i] ensures p !in b { assert Held(s, p); }
    }
    forall p ensures p in s'.taken <==> Held(s', p) {
      if i :| 0 <= i < |s.live| && p in s.live[i] { assert s'.live[i] == s.live[i]; }
      if p in b { assert s'.live[|s.live|] == b; }
    }
  }

  /** Giving back a block frees exactly its ports. */
  lemma GiveBackFrees(base: int, max: int, s: State, k: nat, s': State, p: int)
    requires Consistent(base, max, s) && k < |s.live|
    requires s' == State(s.taken - Members(s.live[k]), s.live[..k] + s.live[k + 1..])
    ensures p in s'.taken <==> Held(s', p)
  {
    if p in s'.taken {
      var i :| 0 <= i < |s.live| && p in s.live[i];
      assert s'.live[if i < k then i else i - 1] == s.live[i];
    }
    if i :| 0 <= i < |s'.live| && p in s'.live[i] {
      var j := if i < k then i else i + 1;
      assert s.live[j] == s'.live[i] && Held(s, p);
      if j < k {
        assert Members(s.live[j]) !! Members(s.live[k]);
      } else {
        assert Members(s.live[k]) !! Members(s.live[j]);
      }
    }
  }

  lemma GiveBackKeeps(base: int, max: int, s: State, k: nat)
    requires Consistent(base, max, s) && k < |s.live|
    ensures Consistent(base, max, State(s.taken - Members(s.live[k]), s.live[..k] + s.live[k + 1..]))
  {
    var s' := State(s.taken - Members(s.live[k]), s.live[..k] + s.live[k + 1..]);
    forall p ensures p in s'.taken <==> Held(s', p) {
      GiveBackFrees(base, max, s, k, s', p);
    }
    forall i, j | 0 <= i < j < |s'.live| ensures Members(s'.live[i]) !! Members(s'.live[j]) {
      var i', j' := if i < k then i else i + 1, if j < k then j else j + 1;
      assert s'.live[i] == s.live[i'] && s'.live[j] == s.live[j'];
    }
  }

  /** Over every run from an empty pool: blocks in use are disjoint, in range, and exactly what is
      marked allocated. */
  lemma {:induction false} RunsConsistent(base: int, max: int, s: State, actions: seq<Action>)
    requires Consistent(base, max, s)
    ensures Consistent(base, max, Run(base, max, s, actions))
    decreases |actions|
  {
    if actions != [] {
      match actions[0]
      case Ask(count) =>
        var c := LowestFree(s.taken, base, max - count, count);
        if c.Some? { AskKeeps(base, max, s, c.value, count); }
        RunsConsistent(base, max, Step(base, max, s, actions[0]), actions[1..]);
      case GiveBack(k) =>
        if k < |s.live| { GiveBackKeeps(base, max, s, k); }
        RunsConsistent(base, max, Step(base, max, s, actions[0]), actions[1..]);
    }
  }

  /** Some port of the block is held. */
  ghost predicate Blocked(s: State, start: int, count: int) {
    exists p :: start <= p < start + count && Held(s, p)
  }

  /** A request after any run is refused if and only if every block of that length in the range has a port that a
      client holds; otherwise it gets the lowest block that has none. */
  lemma RefusedOnlyWhenFull(base: int, max: int, actions: seq<Action>, count: int)
    ensures var s := Run(base, max, State({}, []), actions);
            var s' := Step(base, max, s, Ask(count));
            if forall start :: base <= start <= max - count ==> Blocked(s, start, count) then s' == s
            else exists start :: LowestOpen(base, max, s, start, count) && s'.live == s.live + [Block(start, count)]
  {
    var s := Run(base, max, State({}, []), actions);
    RunsConsistent(base, max, State({}, []), actions);
    forall start ensures Free(s.taken, start, count) <==> !Blocked(s, start, count) {
      if !Free(s.taken, start, count) {
        var p :| start <= p < start + count && p in s.taken;
        assert Held(s, p);
      }
    }
    var c := LowestFree(s.taken, base, max - count, count);
    if c.Some? { assert LowestOpen(base, max, s, c.value, count); }
  }

  /** The lowest start of a block in the range without a held port. */
  ghost predicate LowestOpen(base: int, max: int, s: State, start: int, count: int) {
    && base <= start <= max - count && !Blocked(s, start, count)
    && forall c :: base <= c < start ==> Blocked(s, c, count)
  }
}
