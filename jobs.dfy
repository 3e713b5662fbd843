/**
 * The job table of Commands.cpp: `JobEntry` and `JobsList`
 * (`addJob`, `removeFinishedJobs`, `getJobById`, `removeJobById`,
 * `getLastJob`, `getLastStoppedJob`).
 *
 * `JobsList` keeps its jobs in a `std::map` ordered by job id. Every public
 * operation first reaps: it asks `waitpid(pid, WNOHANG)` about each job and
 * drops the ones that have finished. The answers of `waitpid` are the one
 * input the model cannot compute, so every operation takes `finished`, the
 * set of pids for which `waitpid` reports a finished child.
 */
module Jobs {
  import opened Wrappers

  /** `JobEntry`: the process, the command line that started it, whether it is stopped, and `time(nullptr)` at creation. */
  datatype Entry = Entry(pid: int, cmd: string, stopped: bool, startTime: int)

  /** The `std::map<JobID, JobEntry>` of a `JobsList`. */
  type Table = map<int, Entry>

  /** `vector<JobID> to_remove(100, 0)`: one reap can collect at most this many finished jobs. */
  const ReapBufferSize: nat := 100

  /** The jobs whose `waitpid(..., WNOHANG)` returns a positive pid. */
  function FinishedIds(t: Table, finished: set<int>): set<int>
  {
    set id | id in t && t[id].pid in finished
  }

  /** The table after reaping: every job whose process has not finished, unchanged. */
  function Reaped(t: Table, finished: set<int>): Table
  {
    map id | id in t && t[id].pid !in finished :: t[id]
  }

  /** Reaping removes exactly the finished jobs and leaves every other entry as it was. */
  lemma {:induction false} ReapedIsRemoval(t: Table, finished: set<int>)
    ensures Reaped(t, finished) == t - FinishedIds(t, finished)
  {
    var r, d := Reaped(t, finished), t - FinishedIds(t, finished);
    assert r.Keys == d.Keys;
    assert forall id :: id in r ==> r[id] == d[id];
  }

  /** Reaping twice with the same answers reaps nothing more; nothing finished is left. */
  lemma ReapIdempotent(t: Table, finished: set<int>)
    ensures Reaped(Reaped(t, finished), finished) == Reaped(t, finished)
    ensures FinishedIds(Reaped(t, finished), finished) == {}
  {
    var r := Reaped(t, finished);
    assert Reaped(r, finished).Keys == r.Keys;
  }

  /** Reaping and removing one job commute. */
  lemma ReapRemoveCommute(t: Table, finished: set<int>, id: int)
    ensures Reaped(t - {id}, finished) == Reaped(t, finished) - {id}
  {
    assert Reaped(t - {id}, finished).Keys == (Reaped(t, finished) - {id}).Keys;
  }

  /** Some element of a non-empty set. */
  lemma Pick(s: set<int>) returns (x: int)
    requires s != {}
    ensures x in s
  {
    if forall y :: y !in s {
      assert false;
    }
    x :| x in s;
  }

  /** A largest element of a finite non-empty set of ids. */
  lemma {:induction false} LargestOf(s: set<int>) returns (m: int)
    requires s != {}
    ensures m in s && forall k :: k in s ==> k <= m
    decreases |s|
  {
    var x := Pick(s);
    var rest := s - {x};
    assert forall k :: k in s ==> k in rest || k == x;
    if rest == {} {
      m := x;
    } else {
      var restBest := LargestOf(rest);
      m := if restBest < x then x else restBest;
    }
  }

  /** A smallest element of a finite non-empty set of ids. */
  lemma {:induction false} SmallestOf(s: set<int>) returns (m: int)
    requires s != {}
    ensures m in s && forall k :: k in s ==> m <= k
    decreases |s|
  {
    var x := Pick(s);
    var rest := s - {x};
    assert forall k :: k in s ==> k in rest || k == x;
    if rest == {} {
      m := x;
    } else {
      var restBest := SmallestOf(rest);
      m := if x < restBest then x else restBest;
    }
  }

  /** The last key of the map, `rbegin()->first`. */
  function MaxKey(s: set<int>): (m: int)
    requires s != {}
    ensures m in s && forall k :: k in s ==> k <= m
  {
    assert exists m :: m in s && forall k :: k in s ==> k <= m by {
      var m := LargestOf(s);
    }
    var m :| m in s && forall k :: k in s ==> k <= m;
    m
  }

  /** The first key of the map, where an in-order walk starts. */
  function MinKey(s: set<int>): (m: int)
    requires s != {}
    ensures m in s && forall k :: k in s ==> m <= k
  {
    assert exists m :: m in s && forall k :: k in s ==> m <= k by {
      var m := SmallestOf(s);
    }
    var m :| m in s && forall k :: k in s ==> m <= k;
    m
  }

  /**
   * The id `addJob` gives a new job: 1 for an empty table, otherwise one
   * more than the largest id present. An id freed at the top of the table
   * is therefore given out again.
   */
  function NextId(t: Table): (id: int)
    ensures id !in t
    ensures t == map[] ==> id == 1
    ensures t != map[] ==> id - 1 in t && forall k :: k in t ==> k < id
  {
    if t == map[] then 1 else MaxKey(t.Keys) + 1
  }

  /** The table after the new entry is inserted under NextId. */
  function Added(t: Table, e: Entry): Table
  {
    t[NextId(t) := e]
  }

  /** Every id in the table is at least 1 (`JobID` 0 is never used). */
  predicate IdsPositive(t: Table)
  {
    forall id :: id in t ==> id >= 1
  }

  /** Adding keeps every old entry and places the new one above all of them, so ids stay positive. */
  lemma AddedPlacement(t: Table, e: Entry)
    requires IdsPositive(t)
    ensures IdsPositive(Added(t, e))
    ensures Added(t, e).Keys == t.Keys + {NextId(t)} && Added(t, e)[NextId(t)] == e
    ensures forall id :: id in t ==> Added(t, e)[id] == t[id]
  {
    if t != map[] {
      assert NextId(t) - 1 in t;
    }
  }

  /** A job id freed at the top is handed out again: remove job 2 of two, and the next job is job 2. */
  lemma IdReusedAfterTopRemoved(e1: Entry, e2: Entry)
    ensures NextId(map[1 := e1, 2 := e2] - {2}) == 2
  {
    var t := map[1 := e1, 2 := e2] - {2};
    assert t == map[1 := e1];
  }

  /** The ids held in a prefix of the `to_remove` buffer. */
  function Elems(s: seq<int>): set<int>
  {
    set x | x in s
  }

  lemma ElemsAppend(s: seq<int>, x: int)
    ensures Elems(s + [x]) == Elems(s) + {x}
  {
  }

  /** One step of the collecting walk keeps "collected = finished among the visited ids" and stays within the buffer. */
  lemma CollectStep(t: Table, finished: set<int>, pending: set<int>, collected: set<int>, id: int)
    requires pending <= t.Keys && id in pending
    requires collected == FinishedIds(t, finished) - pending
    ensures pending - {id} <= t.Keys
    ensures t[id].pid in finished ==>
      && collected + {id} == FinishedIds(t, finished) - (pending - {id})
      && |collected + {id}| == |collected| + 1 <= |FinishedIds(t, finished)|
    ensures t[id].pid !in finished ==> collected == FinishedIds(t, finished) - (pending - {id})
  {
    if t[id].pid in finished {
      SubsetCardinality(collected + {id}, FinishedIds(t, finished));
    }
  }

  /** Writing slot `n` of a buffer extends its first `n` slots by one. */
  lemma PrefixAfterWrite(before: seq<int>, after: seq<int>, n: nat, x: int)
    requires n < |before| && after == before[n := x]
    ensures after[..n + 1] == before[..n] + [x]
  {
  }

  /** `|a| <= |b|` for `a` a subset of `b`. */
  lemma {:induction false} SubsetCardinality(a: set<int>, b: set<int>)
    requires a <= b
    ensures |a| <= |b|
    decreases |a|
  {
    if a != {} {
      var x := Pick(a);
      SubsetCardinality(a - {x}, b - {x});
    }
  }

  /** `JobsList`: the job table, changed in place by its operations. */
  class JobsList {
    var jobs: Table

    ghost predicate Valid()
      reads this
    {
      IdsPositive(jobs)
    }

    constructor()
      ensures jobs == map[] && Valid()
    {
      jobs := map[];
    }

    /**
     * The first loop of `removeFinishedJobs`: walks the map in key order and
     * writes the id of every finished job into the 100-slot `to_remove`
     * buffer. A job whose `waitpid` failed or reported nothing is skipped.
     */
    method CollectFinished(finished: set<int>) returns (toRemove: array<int>, count: nat)
      requires |FinishedIds(jobs, finished)| <= ReapBufferSize
      ensures fresh(toRemove) && toRemove.Length == ReapBufferSize
      ensures count <= ReapBufferSize
      ensures Elems(toRemove[..count]) == FinishedIds(jobs, finished)
    {
      toRemove := new int[ReapBufferSize](_ => 0);
      count := 0;
      var t := jobs;
      var pending := t.Keys;
      ghost var collected: set<int> := {};
      ghost var order: seq<int> := [];
      while pending != {}
        invariant pending <= t.Keys
        invariant collected == FinishedIds(t, finished) - pending
        invariant count == |collected| == |order| <= ReapBufferSize
        invariant toRemove[..count] == order && Elems(order) == collected
        decreases |pending|
      {
        var id := MinKey(pending);
        CollectStep(t, finished, pending, collected, id);
        if t[id].pid in finished {
          ElemsAppend(order, id);
          ghost var before := toRemove[..];
          toRemove[count] := id;
          PrefixAfterWrite(before, toRemove[..], count, id);
          count := count + 1;
          collected := collected + {id};
          order := order + [id];
        }
        pending := pending - {id};
      }
    }

    /**
     * `removeFinishedJobs`: collects the finished jobs, then erases the
     * collected ids one by one.
     */
    method RemoveFinishedJobs(finished: set<int>)
      requires Valid() && |FinishedIds(jobs, finished)| <= ReapBufferSize
      modifies this
      ensures Valid()
      ensures jobs == Reaped(old(jobs), finished)
    {
      var toRemove, count := CollectFinished(finished);
      ghost var before, ids := jobs, toRemove[..count];
      var i := 0;
      while i < count
        invariant 0 <= i <= count
        invariant toRemove[..count] == ids
        invariant jobs == before - Elems(toRemove[..i])
      {
        ElemsAppend(toRemove[..i], toRemove[i]);
        assert toRemove[..i + 1] == toRemove[..i] + [toRemove[i]];
        jobs := jobs - {toRemove[i]};
        i := i + 1;
      }
      ReapedIsRemoval(before, finished);
    }

    /**
     * `addJob`: reaps, then stores the job under 1 if the table is empty and
     * under the largest remaining id plus one otherwise.
     */
    method AddJob(pid: int, cmd: string, stopped: bool, now: int, finished: set<int>)
      requires Valid() && |FinishedIds(jobs, finished)| <= ReapBufferSize
      modifies this
      ensures Valid()
      ensures jobs == Added(Reaped(old(jobs), finished), Entry(pid, cmd, stopped, now))
    {
      RemoveFinishedJobs(finished);
      var entry := Entry(pid, cmd, stopped, now);
      var newId := 1;
      if jobs != map[] {
        newId := MaxKey(jobs.Keys) + 1;
      }
      AddedPlacement(jobs, entry);
      jobs := jobs[newId := entry];
    }

    /** `getJobById`: reaps, then finds the job, or None (the null pointer) if there is none. */
    method GetJobById(id: int, finished: set<int>) returns (entry: Option<Entry>)
      requires Valid() && |FinishedIds(jobs, finished)| <= ReapBufferSize
      modifies this
      ensures Valid()
      ensures jobs == Reaped(old(jobs), finished)
      ensures entry.None? <==> id !in jobs
      ensures entry.Some? ==> entry.value == jobs[id]
    {
      RemoveFinishedJobs(finished);
      if id !in jobs {
        return None;
      }
      return Some(jobs[id]);
    }

    /** A write to `is_stopped` through the pointer the lookups return. */
    method SetStopped(id: int, stopped: bool)
      requires id in jobs
      modifies this
      ensures jobs == old(jobs)[id := old(jobs)[id].(stopped := stopped)]
      ensures old(Valid()) ==> Valid()
    {
      jobs := jobs[id := jobs[id].(stopped := stopped)];
    }

    /** `removeJobById`: reaps, then erases the job if present. */
    method RemoveJobById(id: int, finished: set<int>)
      requires Valid() && |FinishedIds(jobs, finished)| <= ReapBufferSize
      modifies this
      ensures Valid()
      ensures jobs == Reaped(old(jobs), finished) - {id}
    {
      RemoveFinishedJobs(finished);
      if id in jobs {
        jobs := jobs - {id};
      }
    }

    /** `getLastJob`: reaps, then gives the job with the largest id, or None if the table is empty. */
    method GetLastJob(finished: set<int>) returns (last: Option<int>)
      requires Valid() && |FinishedIds(jobs, finished)| <= ReapBufferSize
      modifies this
      ensures Valid()
      ensures jobs == Reaped(old(jobs), finished)
      ensures last.None? <==> jobs == map[]
      ensures last.Some? ==> last.value in jobs && forall k :: k in jobs ==> k <= last.value
    {
      RemoveFinishedJobs(finished);
      if jobs == map[] {
        return None;
      }
      return Some(MaxKey(jobs.Keys));
    }

    /**
     * `getLastStoppedJob`: reaps, then walks the map from its largest id
     * downwards and gives the first stopped job, or None if none is stopped.
     */
    method GetLastStoppedJob(finished: set<int>) returns (last: Option<int>)
      requires Valid() && |FinishedIds(jobs, finished)| <= ReapBufferSize
      modifies this
      ensures Valid()
      ensures jobs == Reaped(old(jobs), finished)
      ensures last.None? <==> forall k :: k in jobs ==> !jobs[k].stopped
      ensures last.Some? ==> last.value in jobs && jobs[last.value].stopped
      ensures last.Some? ==> forall k :: k in jobs && jobs[k].stopped ==> k <= last.value
    {
      RemoveFinishedJobs(finished);
      var remaining := jobs.Keys;
      while remaining != {}
        invariant remaining <= jobs.Keys
        invariant forall k :: k in jobs && k !in remaining ==> !jobs[k].stopped
        invariant forall k, r :: k in jobs && k !in remaining && r in remaining ==> r < k
      {
        var id := MaxKey(remaining);
        if jobs[id].stopped {
          return Some(id);
        }
        remaining := remaining - {id};
      }
      return None;
    }
  }
}
