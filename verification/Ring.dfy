/** The round-robin ring of kernel/src/proc/sched.c, seen from the bootstrap thread. */
module Ring {

  // The ids in `next` order from the head of s_thread_list, the position of the current thread,
  // and s_next_id.
  datatype Ring = Ring(ids: seq<nat>, cur: nat, nextId: nat)

  datatype Op = Create | Yield

  // sched_init
  function Init(): Ring {
    Ring([1], 0, 2)
  }

  // thread_create links the new thread in right behind the head.
  function Created(r: Ring): Ring
    requires r.ids != []
  {
    Ring([r.ids[0], r.nextId] + r.ids[1..], if r.cur == 0 then 0 else r.cur + 1, r.nextId + 1)
  }

  // sched_yield
  function Yielded(r: Ring): Ring {
    r.(cur := if r.cur + 1 < |r.ids| then r.cur + 1 else 0)
  }

  function Step(r: Ring, op: Op): (q: Ring)
    requires r.ids != []
    ensures q.ids != []
  {
    match op
    case Create => Created(r)
    case Yield => Yielded(r)
  }

  function Run(r: Ring, ops: seq<Op>): (q: Ring)
    requires r.ids != []
    ensures q.ids != []
  {
    if ops == [] then r else Step(Run(r, ops[..|ops| - 1]), ops[|ops| - 1])
  }

  function Count(ops: seq<Op>, op: Op): nat {
    if ops == [] then 0 else Count(ops[..|ops| - 1], op) + if ops[|ops| - 1] == op then 1 else 0
  }

  predicate Distinct(ids: seq<nat>) {
    forall i, j :: 0 <= i < j < |ids| ==> ids[i] != ids[j]
  }

  // One cycle that holds every id handed out so far exactly once.
  ghost predicate Inv(r: Ring) {
    && r.cur < |r.ids|
    && |r.ids| == r.nextId - 1
    && Distinct(r.ids)
    && forall id :: id in r.ids <==> 1 <= id < r.nextId
  }

  predicate Runs(r: Ring, id: nat) {
    r.cur < |r.ids| && r.ids[r.cur] == id
  }

  lemma CreatedInv(r: Ring)
    requires Inv(r)
    ensures Inv(Created(r))
    ensures forall id :: Runs(Created(r), id) <==> Runs(r, id)
  {
    var ids := Created(r).ids;
    forall id
      ensures id in ids <==> id in r.ids || id == r.nextId
    {
      assert r.ids == [r.ids[0]] + r.ids[1..];
    }
    forall i, j | 0 <= i < j < |ids|
      ensures ids[i] != ids[j]
    {
      assert i == 1 || ids[i] in r.ids;
      assert j == 1 || ids[j] in r.ids;
      assert i != 1 && j != 1 ==> ids[i] == r.ids[if i == 0 then 0 else i - 1] && ids[j] == r.ids[j - 1];
    }
  }

  // After sched_init and any interleaving of thread_create and sched_yield the ring holds the
  // bootstrap thread and every created thread exactly once, with the ids 1 to n.
  lemma {:induction false} RunInv(ops: seq<Op>)
    ensures Inv(Run(Init(), ops))
    ensures |Run(Init(), ops).ids| == 1 + Count(ops, Create)
  {
    if ops != [] {
      var init := ops[..|ops| - 1];
      RunInv(init);
      hide Inv;
      var r := Run(Init(), init);
      if ops[|ops| - 1] == Create {
        CreatedInv(r);
      } else {
        YieldedInv(r);
      }
    }
  }

  lemma YieldedInv(r: Ring)
    requires Inv(r)
    ensures Inv(Yielded(r))
  {
  }

  function Yields(r: Ring, n: nat): Ring {
    if n == 0 then r else Yielded(Yields(r, n - 1))
  }

  lemma {:induction false} YieldsIs(r: Ring, n: nat)
    requires r.cur < |r.ids| && n <= |r.ids|
    ensures Yields(r, n) == r.(cur := if r.cur + n < |r.ids| then r.cur + n else r.cur + n - |r.ids|)
  {
    if n > 0 {
      YieldsIs(r, n - 1);
    }
  }

  // How many yields it takes until thread i of the ring is current.
  function Distance(r: Ring, i: nat): nat
    requires r.cur < |r.ids| && i < |r.ids|
  {
    if r.cur <= i then i - r.cur else |r.ids| - r.cur + i
  }

  // With n threads, n yields come back to the start, and every thread is current exactly once
  // on the way.
  lemma FullTurn(r: Ring, id: nat) returns (k: nat)
    requires Inv(r) && id in r.ids
    ensures Yields(r, |r.ids|) == r
    ensures k < |r.ids|
    ensures forall j: nat :: j < |r.ids| ==> (Runs(Yields(r, j), id) <==> j == k)
  {
    YieldsIs(r, |r.ids|);
    var i :| 0 <= i < |r.ids| && r.ids[i] == id;
    k := Distance(r, i);
    forall j: nat | j < |r.ids|
      ensures Runs(Yields(r, j), id) <==> j == k
    {
      YieldsIs(r, j);
      OnlyAt(r, i, Yields(r, j).cur);
      hide Yields;
    }
  }

  lemma OnlyAt(r: Ring, i: nat, c: nat)
    requires Inv(r) && i < |r.ids| && c < |r.ids|
    ensures r.ids[c] == r.ids[i] <==> c == i
  {
  }

  // ----- waiting -----

  function Position(ids: seq<nat>, id: nat): (i: nat)
    requires id in ids
    ensures i < |ids| && ids[i] == id
  {
    if ids[0] == id then 0 else 1 + Position(ids[1..], id)
  }

  // The turns thread `id` still waits.
  function Wait(r: Ring, id: nat): (n: nat)
    requires r.cur < |r.ids| && id in r.ids
    ensures n < |r.ids|
    ensures n == 0 <==> Position(r.ids, id) == r.cur
  {
    Distance(r, Position(r.ids, id))
  }

  lemma PositionIs(ids: seq<nat>, i: nat)
    requires Distinct(ids) && i < |ids|
    ensures Position(ids, ids[i]) == i
  {
  }

  lemma WaitIsYields(r: Ring, id: nat)
    requires Inv(r) && id in r.ids
    ensures Runs(Yields(r, Wait(r, id)), id)
    ensures forall j: nat :: j < Wait(r, id) ==> !Runs(Yields(r, j), id)
  {
    YieldsIs(r, Wait(r, id));
    forall j: nat | j < Wait(r, id)
      ensures !Runs(Yields(r, j), id)
    {
      YieldsIs(r, j);
      PositionIs(r.ids, Yields(r, j).cur);
    }
  }

  // The current thread's turn passes the place right behind the head before thread `id` is reached.
  predicate PassesHead(r: Ring, id: nat)
    requires r.cur < |r.ids| && id in r.ids
  {
    var i := Position(r.ids, id);
    i > 0 && (r.cur == 0 || i < r.cur)
  }

  // One creation delays a waiting thread by one turn if the new thread comes before it, and
  // not at all otherwise.
  lemma CreateDelays(r: Ring, id: nat)
    requires Inv(r) && id in r.ids
    ensures id in Created(r).ids && Created(r).cur < |Created(r).ids|
    ensures Wait(Created(r), id) == Wait(r, id) + if PassesHead(r, id) then 1 else 0
  {
    CreatedInv(r);
    var q, i := Created(r), Position(r.ids, id);
    var j := if i == 0 then 0 else i + 1;
    assert q.ids[j] == id;
    PositionIs(q.ids, j);
  }

  lemma YieldAdvances(r: Ring, id: nat)
    requires Inv(r) && id in r.ids && Wait(r, id) > 0
    ensures Wait(Yielded(r), id) == Wait(r, id) - 1
  {
  }

  // A thread that has not run yet has gained a turn with every yield and lost at most one with
  // every creation.
  lemma {:induction false} WaitBound(r: Ring, ops: seq<Op>, id: nat)
    requires Inv(r) && id in r.ids
    requires forall k :: 0 <= k <= |ops| ==> !Runs(Run(r, ops[..k]), id)
    ensures Inv(Run(r, ops)) && id in Run(r, ops).ids
    ensures Wait(Run(r, ops), id) + Count(ops, Yield) <= Wait(r, id) + Count(ops, Create)
  {
    if ops != [] {
      var init := ops[..|ops| - 1];
      forall k | 0 <= k <= |init|
        ensures init[..k] == ops[..k]
      {
      }
      WaitBound(r, init, id);
      assert ops[..|ops| - 1] == init;
      WaitStep(Run(r, init), ops[|ops| - 1], id);
    }
  }

  lemma WaitStep(r: Ring, op: Op, id: nat)
    requires Inv(r) && id in r.ids && !Runs(r, id)
    ensures Inv(Step(r, op)) && id in Step(r, op).ids
    ensures op == Create ==> Wait(Step(r, op), id) <= Wait(r, id) + 1
    ensures op == Yield ==> Wait(Step(r, op), id) == Wait(r, id) - 1
  {
    if op == Create {
      CreatedInv(r);
      CreateDelays(r, id);
    } else {
      YieldedInv(r);
      YieldAdvances(r, id);
    }
  }

  // No thread starves: however creations and yields interleave, a thread that waits w turns is
  // current before the yields outnumber the creations by more than w.
  lemma Fairness(r: Ring, ops: seq<Op>, id: nat)
    requires Inv(r) && id in r.ids
    requires Count(ops, Yield) >= Wait(r, id) + Count(ops, Create)
    ensures exists k :: 0 <= k <= |ops| && Runs(Run(r, ops[..k]), id)
  {
    if forall k :: 0 <= k <= |ops| ==> !Runs(Run(r, ops[..k]), id) {
      assert ops[..|ops|] == ops;
      WaitBound(r, ops, id);
    }
  }
}
