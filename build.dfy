/** The build master: a pool of worker processes, one per processor, and a
    registry of submitted jobs. A job is sent to a worker picked at random;
    the worker's reply is routed back to the job's continuation by job id;
    a worker that dies is removed from the pool and, when it crashed, replaced.
    The master reacts to one event at a time. Forking, IPC, uuid() and
    Math.random() are outside the model: fresh process handles and ids come
    from counters, the random number is a parameter, and every send, kill and
    continuation call is appended to a log. */
module Build {
  import opened Js

  /** A uuid(): the counters below never hand out the same one twice. */
  type Uuid = nat

  /** The handle of a forked worker process. */
  type Process = nat

  /** The caller's callback, as an opaque token. */
  type Continuation = nat

  /** A pool entry, `{worker: wrkr, id: id}`. */
  datatype Worker = Worker(process: Process, id: Uuid)

  /** A registry record, `{blog, id, path, options, callback}`. */
  datatype Job = Job(blog: Value, id: Uuid, path: Value, options: Value, callback: Continuation)

  /** A message sent to the worker process `to`. */
  datatype Request = Request(to: Process, blog: Value, path: Value, id: Uuid, options: Value)

  /** A worker's reply, `{id, err, entry}`; `id` names the job. */
  datatype Response = Response(id: Uuid, err: Value, entry: Value)

  /** One call `callback(err, entry)`. */
  datatype Invocation = Invocation(callback: Continuation, err: Value, entry: Value)

  /** How an event handler ends: normally, or with the TypeError that reading
      a property of `undefined` throws. */
  datatype Outcome = Done | TypeError

  /** No two pool entries share an id. */
  ghost predicate DistinctIds(ws: seq<Worker>)
  {
    forall i, j :: 0 <= i < j < |ws| ==> ws[i].id != ws[j].id
  }

  /** Some pool entry has this id. */
  ghost predicate HasId(ws: seq<Worker>, id: Uuid)
  {
    exists w :: w in ws && w.id == id
  }

  /** The processes of the pool, in pool order. */
  function Processes(ws: seq<Worker>): seq<Process>
  {
    seq(|ws|, i requires 0 <= i < |ws| => ws[i].process)
  }

  /** `workers.filter(item => item.id !== id)`. */
  function Without(ws: seq<Worker>, id: Uuid): (rest: seq<Worker>)
    ensures |rest| <= |ws|
  {
    if ws == [] then []
    else (if ws[0].id == id then [] else [ws[0]]) + Without(ws[1..], id)
  }

  /** `Math.floor(random * size)`. Math.random() is in [0, 1), so for a
      non-empty pool the index is a position of the pool, and for an empty one
      it is 0, a position that does not exist. */
  function PoolIndex(random: real, size: nat): (i: int)
    requires 0.0 <= random < 1.0
    ensures size > 0 ==> 0 <= i < size
    ensures size == 0 ==> i == 0
  {
    assert random * (size as real) <= size as real;
    assert size > 0 ==> random * (size as real) < size as real;
    (random * (size as real)).Floor
  }

  /** The filter keeps exactly the entries with another id. */
  lemma {:induction false} WithoutMembers(ws: seq<Worker>, id: Uuid)
    ensures forall w :: w in Without(ws, id) <==> w in ws && w.id != id
  {
    if ws != [] {
      WithoutMembers(ws[1..], id);
      assert ws == [ws[0]] + ws[1..];
    }
  }

  /** One step of the filter, for a pool given as its first entry and the rest. */
  lemma WithoutCons(w: Worker, rest: seq<Worker>, id: Uuid)
    ensures Without([w] + rest, id) == (if w.id == id then [] else [w]) + Without(rest, id)
  {
    assert ([w] + rest)[0] == w && ([w] + rest)[1..] == rest;
  }

  lemma {:induction false} WithoutConcat(a: seq<Worker>, b: seq<Worker>, id: Uuid)
    ensures Without(a + b, id) == Without(a, id) + Without(b, id)
  {
    if a == [] {
      assert a + b == b;
    } else {
      var t := a[1..];
      assert a == [a[0]] + t;
      assert a + b == [a[0]] + (t + b);
      WithoutConcat(t, b, id);
      WithoutCons(a[0], t, id);
      WithoutCons(a[0], t + b, id);
      var head := if a[0].id == id then [] else [a[0]];
      assert head + (Without(t, id) + Without(b, id)) == (head + Without(t, id)) + Without(b, id);
    }
  }

  /** Removing an id that is not in the pool leaves the pool as it was. */
  lemma {:induction false} WithoutAbsent(ws: seq<Worker>, id: Uuid)
    requires !HasId(ws, id)
    ensures Without(ws, id) == ws
  {
    if ws != [] {
      assert ws[0] in ws;
      assert !HasId(ws[1..], id) by {
        forall w | w in ws[1..] ensures w.id != id {
          assert w in ws;
        }
      }
      WithoutAbsent(ws[1..], id);
      assert ws == [ws[0]] + ws[1..];
    }
  }

  /** Removing the same id twice is the same as removing it once. */
  lemma WithoutIdempotent(ws: seq<Worker>, id: Uuid)
    ensures Without(Without(ws, id), id) == Without(ws, id)
  {
    WithoutMembers(ws, id);
    WithoutAbsent(Without(ws, id), id);
  }

  /** In a pool with distinct ids, no entry before or after position `i`
      has the id of the entry at `i`. */
  lemma IdOnlyAt(ws: seq<Worker>, i: int)
    requires DistinctIds(ws)
    requires 0 <= i < |ws|
    ensures !HasId(ws[..i], ws[i].id)
    ensures !HasId(ws[i + 1..], ws[i].id)
  {
    forall w | w in ws[..i] ensures w.id != ws[i].id {
      var j :| 0 <= j < i && ws[..i][j] == w;
      assert ws[j] == w;
    }
    forall w | w in ws[i + 1..] ensures w.id != ws[i].id {
      var j :| 0 <= j < |ws| - i - 1 && ws[i + 1..][j] == w;
      assert ws[i + 1 + j] == w;
    }
  }

  /** In a pool with distinct ids, removing the id of the entry at `i` drops
      that entry and keeps the others in their order. */
  lemma WithoutRemovesOne(ws: seq<Worker>, i: int)
    requires DistinctIds(ws)
    requires 0 <= i < |ws|
    ensures Without(ws, ws[i].id) == ws[..i] + ws[i + 1..]
    ensures |Without(ws, ws[i].id)| == |ws| - 1
  {
    var id, before, after := ws[i].id, ws[..i], ws[i + 1..];
    calc {
      Without(ws, id);
      { assert ws == before + ([ws[i]] + after); }
      Without(before + ([ws[i]] + after), id);
      { WithoutConcat(before, [ws[i]] + after, id); }
      Without(before, id) + Without([ws[i]] + after, id);
      { WithoutCons(ws[i], after, id); }
      Without(before, id) + Without(after, id);
      { IdOnlyAt(ws, i); WithoutAbsent(before, id); WithoutAbsent(after, id); }
      before + after;
    }
  }

  /** A pool given as its first entry and the rest has distinct ids exactly
      when the rest does and does not reuse the first entry's id. */
  lemma DistinctCons(w: Worker, rest: seq<Worker>)
    ensures DistinctIds([w] + rest) <==> !HasId(rest, w.id) && DistinctIds(rest)
  {
    var ws := [w] + rest;
    if DistinctIds(ws) {
      forall v | v in rest ensures v.id != w.id {
        var k :| 0 <= k < |rest| && rest[k] == v;
        assert ws[0] == w && ws[k + 1] == v;
        assert ws[0].id != ws[k + 1].id;
      }
      forall i, j | 0 <= i < j < |rest| ensures rest[i].id != rest[j].id {
        assert ws[i + 1] == rest[i] && ws[j + 1] == rest[j];
      }
    }
    if !HasId(rest, w.id) && DistinctIds(rest) {
      forall i, j | 0 <= i < j < |ws| ensures ws[i].id != ws[j].id {
        assert ws[j] == rest[j - 1] && rest[j - 1] in rest;
        if i > 0 {
          assert ws[i] == rest[i - 1];
        }
      }
    }
  }

  /** The filter keeps the pool's ids distinct. */
  lemma {:induction false} WithoutDistinct(ws: seq<Worker>, id: Uuid)
    requires DistinctIds(ws)
    ensures DistinctIds(Without(ws, id))
  {
    if ws != [] {
      var w, t := ws[0], ws[1..];
      assert ws == [w] + t;
      DistinctCons(w, t);
      WithoutDistinct(t, id);
      WithoutMembers(t, id);
      WithoutCons(w, t, id);
      DistinctCons(w, Without(t, id));
    }
  }

  /** Appending a worker whose id is above every id in the pool keeps the
      ids distinct. */
  lemma AppendFresh(ws: seq<Worker>, w: Worker)
    requires DistinctIds(ws)
    requires forall v :: v in ws ==> v.id < w.id
    ensures DistinctIds(ws + [w])
    ensures !HasId(ws, w.id)
  {
    var ws' := ws + [w];
    forall i, j | 0 <= i < j < |ws'| ensures ws'[i].id != ws'[j].id {
      assert ws'[i] == ws[i] && ws[i] in ws;
      if j < |ws| {
        assert ws'[j] == ws[j];
      }
    }
  }

  /** What removing an id does to a pool with distinct ids: the ids stay
      distinct, exactly the other entries remain, one entry goes when the id
      is present and none when it is absent. */
  lemma WithoutFacts(ws: seq<Worker>, id: Uuid)
    requires DistinctIds(ws)
    ensures DistinctIds(Without(ws, id))
    ensures forall w :: w in Without(ws, id) <==> w in ws && w.id != id
    ensures HasId(ws, id) ==> |Without(ws, id)| == |ws| - 1
    ensures !HasId(ws, id) ==> Without(ws, id) == ws
  {
    WithoutMembers(ws, id);
    WithoutDistinct(ws, id);
    if HasId(ws, id) {
      var w :| w in ws && w.id == id;
      var i :| 0 <= i < |ws| && ws[i] == w;
      WithoutRemovesOne(ws, i);
    } else {
      WithoutAbsent(ws, id);
    }
  }

  /** Whether a worker exit with this code and signal spawns a replacement:
      only an exit with no signal and a code other than 0. */
  predicate Respawns(code: Value, signal: Value)
    ensures Truthy(signal) ==> !Respawns(code, signal)
    ensures code == Num(0) ==> !Respawns(code, signal)
    ensures !Truthy(signal) && code != Num(0) ==> Respawns(code, signal)
  {
    !Truthy(signal) && !StrictEquals(code, Num(0))
  }

  /** The master's state: the pool, the registry, the id and process
      supplies, and the logs of what it has sent, killed and called. */
  class Master {
    var workers: seq<Worker>
    var jobs: map<Uuid, Job>
    /** Every uuid below this one has been handed out. */
    var nextUuid: Uuid
    /** Every process handle below this one has been forked. */
    var nextProcess: Process
    var sent: seq<Request>
    var killed: seq<Process>
    var invoked: seq<Invocation>

    /** Pool ids are distinct, every id and handle in use was handed out by
        the supplies, a job is filed under its own id, and no job shares an
        id with a worker. */
    ghost predicate Valid()
      reads this
    {
      DistinctIds(workers)
      && (forall w :: w in workers ==> w.id < nextUuid && w.process < nextProcess)
      && (forall k :: k in jobs ==> k < nextUuid && jobs[k].id == k)
      && (forall w, k :: w in workers && k in jobs ==> w.id != k)
    }

    /** Start-up: fork `numCPUs` workers. */
    constructor (numCPUs: nat)
      ensures Valid()
      ensures |workers| == numCPUs
      ensures jobs == map[] && sent == [] && killed == [] && invoked == []
    {
      workers, jobs, nextUuid, nextProcess := [], map[], 0, 0;
      sent, killed, invoked := [], [], [];
      new;
      for i := 0 to numCPUs
        invariant Valid()
        invariant |workers| == i
        invariant jobs == map[] && sent == [] && killed == [] && invoked == []
      {
        var w := Spawn();
        workers := workers + [w];
      }
    }

    /** uuid(): an id never handed out before. */
    method NewUuid() returns (id: Uuid)
      modifies this`nextUuid
      ensures id == old(nextUuid) && nextUuid == id + 1
    {
      id := nextUuid;
      nextUuid := nextUuid + 1;
    }

    /** worker(): fork a process and give it a fresh id. The caller adds it
        to the pool. */
    method Spawn() returns (w: Worker)
      modifies this`nextProcess, this`nextUuid
      ensures w == Worker(old(nextProcess), old(nextUuid))
      ensures nextProcess == old(nextProcess) + 1 && nextUuid == old(nextUuid) + 1
    {
      var process := nextProcess;
      nextProcess := nextProcess + 1;
      var id := NewUuid();
      w := Worker(process, id);
    }

    /** The exported function: file the job under a fresh id and send it to
        the worker at `floor(random * |workers|)`. With an empty pool that
        entry is `undefined`, reading its `.worker` throws, and nothing
        changes. */
    method Submit(blog: Value, path: Value, options: Value, callback: Continuation, random: real)
      returns (outcome: Outcome)
      requires Valid()
      requires 0.0 <= random < 1.0
      modifies this`jobs, this`sent, this`nextUuid
      ensures Valid()
      ensures old(workers) == [] ==>
                outcome == TypeError && jobs == old(jobs) && sent == old(sent) && nextUuid == old(nextUuid)
      ensures old(workers) != [] ==>
                var id := old(nextUuid);
                outcome == Done
                && id !in old(jobs)
                && !HasId(workers, id)
                && jobs == old(jobs)[id := Job(blog, id, path, options, callback)]
                && sent == old(sent) + [Request(workers[PoolIndex(random, |workers|)].process, blog, path, id, options)]
    {
      var index := PoolIndex(random, |workers|);
      if index >= |workers| {
        return TypeError;
      }
      var target := workers[index].process;
      var id := NewUuid();
      jobs := jobs[id := Job(blog, id, path, options, callback)];
      sent := sent + [Request(target, blog, path, id, options)];
      outcome := Done;
    }

    /** A worker's "message" event: call the job's continuation with the
        reply's error and entry. The registry entry stays. A reply for an id
        with no entry reads `.callback` of `undefined` and throws. */
    method OnMessage(message: Response) returns (outcome: Outcome)
      requires Valid()
      modifies this`invoked
      ensures Valid()
      ensures message.id !in jobs ==> outcome == TypeError && invoked == old(invoked)
      ensures message.id in jobs ==>
                outcome == Done
                && invoked == old(invoked) + [Invocation(jobs[message.id].callback, message.err, message.entry)]
    {
      if message.id !in jobs {
        return TypeError;
      }
      invoked := invoked + [Invocation(jobs[message.id].callback, message.err, message.entry)];
      outcome := Done;
    }

    /** The "exit" event of the worker with id `id`: drop it from the pool;
        after an exit with a code other than 0 and no signal, fork a
        replacement at the end of the pool. */
    method OnExit(id: Uuid, code: Value, signal: Value)
      requires Valid()
      modifies this`workers, this`nextProcess, this`nextUuid
      ensures Valid()
      ensures !Respawns(code, signal) ==> workers == Without(old(workers), id)
      ensures Respawns(code, signal) ==>
                !HasId(old(workers), old(nextUuid))
                && workers == Without(old(workers), id) + [Worker(old(nextProcess), old(nextUuid))]
      ensures HasId(old(workers), id) ==>
                |workers| == |old(workers)| - (if Respawns(code, signal) then 0 else 1)
      ensures !HasId(old(workers), id) && !Respawns(code, signal) ==> workers == old(workers)
      ensures nextUuid == old(nextUuid) + (if Respawns(code, signal) then 1 else 0)
      ensures nextProcess == old(nextProcess) + (if Respawns(code, signal) then 1 else 0)
    {
      WithoutFacts(workers, id);
      workers := Without(workers, id);
      if Truthy(signal) {
        // killed by a signal: no replacement
      } else if !StrictEquals(code, Num(0)) {
        var w := Spawn();
        AppendFresh(workers, w);
        workers := workers + [w];
      } else {
        // clean exit: no replacement
      }
    }

    /** Kill every worker currently in the pool, in pool order. Entries
        leave the pool only when their exit events arrive. */
    method KillAll()
      modifies this`killed
      ensures killed == old(killed) + Processes(workers)
    {
      for i := 0 to |workers|
        invariant killed == old(killed) + Processes(workers[..i])
      {
        assert Processes(workers[..i + 1]) == Processes(workers[..i]) + [workers[i].process];
        killed := killed + [workers[i].process];
      }
      assert workers[..|workers|] == workers;
    }

    /** The exit hook: the master is shutting down. */
    method OnShutdown()
      modifies this`killed
      ensures killed == old(killed) + Processes(workers)
    {
      KillAll();
    }

    /** The uncaught-exception handler: an exception reached the top of the
        master. */
    method OnUncaughtException(err: Value)
      modifies this`killed
      ensures killed == old(killed) + Processes(workers)
    {
      KillAll();
    }
  }

  /** A run of two jobs on a pool of two: the second job's reply reaches only
      the second continuation, and the first worker's crash is repaired
      without the first continuation being called. Reports the continuation
      calls made and the pool that remains. */
  method TwoJobsAndACrash() returns (calls: seq<Invocation>, survivor: Worker, pool: seq<Worker>)
    ensures calls == [Invocation(2, Null, Str("Page"))]
    ensures |pool| == 2 && pool[0] == survivor && pool[1].id != survivor.id
  {
    var master := new Master(2);
    var w1, w2 := master.workers[0], master.workers[1];
    var job1 := master.nextUuid;
    var o1 := master.Submit(Str("blog1"), Str("/post.md"), Null, 1, 0.0);
    var job2 := master.nextUuid;
    var o2 := master.Submit(Str("blog2"), Str("/page.md"), Null, 2, 0.5);
    assert PoolIndex(0.0, 2) == 0 && PoolIndex(0.5, 2) == 1;
    assert master.sent == [Request(w1.process, Str("blog1"), Str("/post.md"), job1, Null),
                           Request(w2.process, Str("blog2"), Str("/page.md"), job2, Null)];
    var o3 := master.OnMessage(Response(job2, Null, Str("Page")));
    master.OnExit(w1.id, Num(1), Null);
    calls, survivor, pool := master.invoked, w2, master.workers;
  }
}
