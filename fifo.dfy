/** The FIFO policy: a fault with every frame in use evicts the page at the
    head of the admission queue, whatever happened to it since. */
module Fifo {
  import opened Paging

  /** The resident set plus the admission queue. */
  datatype State = State(res: Resident, queue: seq<int>)

  /** The shared invariant, and the queue holds the resident pages in the
      order of `memory`. */
  predicate Valid(s: State, frames: nat) {
    WellFormed(s.res, frames) && s.queue == s.res.memory
  }

  /** One access of the trace: it keeps the invariant and counts a fault
      exactly when its page is not resident, with no counter change on a
      hit. */
  function Step(frames: nat, s: State, a: Access): (s': State)
    requires frames >= 1 && Valid(s, frames)
    ensures Valid(s', frames)
    ensures CountsFollow(s.res, s'.res, a)
  {
    if a.page !in s.res.memory then
      if |s.res.memory| < frames then
        FillFacts(s.res, frames, a);
        State(Fill(s.res, a), s.queue + [a.page])
      else
        SwapFacts(s.res, frames, a, s.queue[0]);
        State(Swap(s.res, a, s.queue[0]), s.queue[1..] + [a.page])
    else
      HitFacts(s.res, frames, a);
      State(Hit(s.res, a), s.queue)
  }

  /** The state after the first `n` accesses of `trace`, from empty memory. */
  function Replay(frames: nat, trace: seq<Access>, n: nat): (s: State)
    requires frames >= 1 && n <= |trace|
    ensures Valid(s, frames)
  {
    if n == 0 then State(Empty, []) else Step(frames, Replay(frames, trace, n - 1), trace[n - 1])
  }

  /** The pages of the accesses among the first `n` that found their page
      not resident, in trace order: the admissions. */
  function Admitted(frames: nat, trace: seq<Access>, n: nat): seq<int>
    requires frames >= 1 && n <= |trace|
  {
    if n == 0 then []
    else
      var a := trace[n - 1];
      Admitted(frames, trace, n - 1) + (if a.page in Replay(frames, trace, n - 1).res.memory then [] else [a.page])
  }

  /** Every fault is an access to a non-resident page and vice versa. */
  lemma {:induction false} FaultsAreMisses(frames: nat, trace: seq<Access>, n: nat)
    requires frames >= 1 && n <= |trace|
    ensures Replay(frames, trace, n).res.stats.faults == |Admitted(frames, trace, n)|
  {
    if n > 0 { FaultsAreMisses(frames, trace, n - 1); }
  }

  /** An access costs a write exactly when it evicts the head of the queue
      and that page is dirty; a hit or a fault with a free frame costs none. */
  lemma WriteBacks(frames: nat, trace: seq<Access>, n: nat)
    requires frames >= 1 && 0 < n <= |trace|
    ensures var s, s', a := Replay(frames, trace, n - 1), Replay(frames, trace, n), trace[n - 1];
            s'.res.stats.writes == s.res.stats.writes +
              (if Evicts(s.res, frames, a) && s.queue[0] in s.res.dirty && s.res.dirty[s.queue[0]] then 1 else 0)
  {
    var s, a := Replay(frames, trace, n - 1), trace[n - 1];
    if Evicts(s.res, frames, a) { SwapFacts(s.res, frames, a, s.queue[0]); }
    else if a.page !in s.res.memory { FillFacts(s.res, frames, a); }
  }

  /** The last `min(frames, |adm|)` entries of `adm`. */
  function Latest(frames: nat, adm: seq<int>): (r: seq<int>)
    ensures |r| == Min(frames, |adm|)
  {
    adm[|adm| - Min(frames, |adm|)..]
  }

  /** Memory always holds the latest `min(frames, admissions)` admitted pages,
      oldest first, so the head of the queue is the earliest admitted page
      that is still resident. */
  lemma {:induction false} MemoryIsLatestAdmissions(frames: nat, trace: seq<Access>, n: nat)
    requires frames >= 1 && n <= |trace|
    ensures var m, adm := Replay(frames, trace, n).res.memory, Admitted(frames, trace, n);
            |m| == Min(frames, |adm|) && m == adm[|adm| - |m|..]
  {
    QueueIsLatest(frames, trace, n);
  }

  lemma {:induction false} QueueIsLatest(frames: nat, trace: seq<Access>, n: nat)
    requires frames >= 1 && n <= |trace|
    ensures Replay(frames, trace, n).queue == Latest(frames, Admitted(frames, trace, n))
  {
    if n > 0 {
      QueueIsLatest(frames, trace, n - 1);
      LatestStep(frames, trace, n);
    }
  }

  lemma LatestStep(frames: nat, trace: seq<Access>, n: nat)
    requires frames >= 1 && 0 < n <= |trace|
    requires Replay(frames, trace, n - 1).queue == Latest(frames, Admitted(frames, trace, n - 1))
    ensures Replay(frames, trace, n).queue == Latest(frames, Admitted(frames, trace, n))
  {
    var s, a, adm := Replay(frames, trace, n - 1), trace[n - 1], Admitted(frames, trace, n - 1);
    assert Replay(frames, trace, n) == Step(frames, s, a);
    assert Admitted(frames, trace, n) == adm + (if a.page in s.res.memory then [] else [a.page]);
    LatestAdmissionsStep(frames, s, a, adm);
  }

  lemma LatestAdmissionsStep(frames: nat, s: State, a: Access, adm: seq<int>)
    requires frames >= 1 && Valid(s, frames)
    requires s.queue == Latest(frames, adm)
    ensures Step(frames, s, a).queue == Latest(frames, adm + (if a.page in s.res.memory then [] else [a.page]))
  {
    if a.page !in s.res.memory {
      var q, adm' := s.queue, adm + [a.page];
      if |s.res.memory| == frames {
        assert q[1..] + [a.page] == adm'[|adm'| - |q|..];
      } else {
        assert q + [a.page] == adm'[|adm'| - |q| - 1..];
      }
    }
  }

  /** The dirty flags across one access: the write flag on admission, or-ed
      with the write flag on a hit, untouched for every other resident page. */
  lemma DirtyFlags(frames: nat, trace: seq<Access>, n: nat)
    requires frames >= 1 && n < |trace|
    ensures DirtyFlagsFollow(Replay(frames, trace, n).res, Replay(frames, trace, n + 1).res, trace[n])
  {
    var s, a := Replay(frames, trace, n), trace[n];
    if a.page in s.res.memory { HitFacts(s.res, frames, a); }
    else if |s.res.memory| < frames { FillFacts(s.res, frames, a); }
    else { SwapFacts(s.res, frames, a, s.queue[0]); }
  }

  /** The queue never changes on a hit; on a fault with full memory the head
      leaves and the new page joins the tail. */
  lemma QueueDiscipline(frames: nat, trace: seq<Access>, n: nat)
    requires frames >= 1 && n < |trace|
    ensures var q, q', a := Replay(frames, trace, n).queue, Replay(frames, trace, n + 1).queue, trace[n];
            && (a.page in q ==> q' == q)
            && (a.page !in q && |q| == frames ==> q' == q[1..] + [a.page])
            && (a.page !in q && |q| < frames ==> q' == q + [a.page])
  {
  }

  /** With one frame, a dirty page evicted by the next fault is written back. */
  lemma OneFrameWriteBack()
    ensures Replay(1, [Access(1, true), Access(2, false)], 2).res.stats == Stats(2, 2, 1)
  {
    var t := [Access(1, true), Access(2, false)];
    assert Replay(1, t, 1).res == Resident([1], map[1 := true], Stats(1, 1, 0));
  }

  /** With two frames, reading 1, 2, 3, 1 faults four times: page 1 is the
      victim of the fault on 3 and is missing when it is read again. */
  lemma TwoFramesFourFaults()
    ensures Replay(2, [Access(1, false), Access(2, false), Access(3, false), Access(1, false)], 4).res.stats
            == Stats(4, 4, 0)
  {
    var t := [Access(1, false), Access(2, false), Access(3, false), Access(1, false)];
    assert Replay(2, t, 2).res.memory == [1, 2];
    assert Replay(2, t, 3).res.memory == [2, 3];
  }

  class Fifo {
    const base: PageReplacementAlgorithm

    constructor (frames: nat)
      ensures fresh(base) && base.frames == frames && base.Counters() == Zero
    {
      base := new PageReplacementAlgorithm(frames);
    }

    /** Replays `trace` from empty memory and zeroed counters and returns
        the counters. */
    method Run(trace: seq<Access>) returns (faults: nat, interrupts: nat, writes: nat)
      requires base.frames >= 1
      modifies base
      ensures Stats(faults, interrupts, writes) == base.Counters()
      ensures base.Counters() == Replay(base.frames, trace, |trace|).res.stats
    {
      base.Reset();
      var memory: seq<int> := [];
      var queue: seq<int> := [];
      var dirty: map<int, bool> := map[];
      for i := 0 to |trace|
        invariant State(Resident(memory, dirty, base.Counters()), queue) == Replay(base.frames, trace, i)
      {
        memory, queue, dirty := Serve(Replay(base.frames, trace, i), trace[i], memory, queue, dirty);
      }
      faults, interrupts, writes := base.faults, base.interrupts, base.writes;
    }

    /** The body of the loop in `Run`: serves access `a` given the state `s`
        held in `memory0`, `queue0`, `dirty0` and the counters. */
    method Serve(ghost s: State, a: Access, memory0: seq<int>, queue0: seq<int>, dirty0: map<int, bool>)
      returns (memory: seq<int>, queue: seq<int>, dirty: map<int, bool>)
      requires base.frames >= 1 && Valid(s, base.frames)
      requires s == State(Resident(memory0, dirty0, base.Counters()), queue0)
      modifies base
      ensures State(Resident(memory, dirty, base.Counters()), queue) == Step(base.frames, s, a)
    {
      memory, queue, dirty := memory0, queue0, dirty0;
      var page, isWrite := a.page, a.isWrite;
      if page !in memory {
        base.faults := base.faults + 1;
        base.interrupts := base.interrupts + 1;
        if |memory| < base.frames {
          memory := memory + [page];
          queue := queue + [page];
          dirty := dirty[page := isWrite];
          ghost var next := State(Fill(s.res, a), s.queue + [page]);
          assert State(Resident(memory, dirty, base.Counters()), queue) == next;
        } else {
          var victim := queue[0];
          queue := queue[1..];
          if victim in dirty && dirty[victim] {
            base.writes := base.writes + 1;
          }
          memory := Remove(memory, victim);
          memory := memory + [page];
          queue := queue + [page];
          if victim in dirty {
            dirty := dirty - {victim};
          }
          dirty := dirty[page := isWrite];
          ghost var next := State(Swap(s.res, a, victim), s.queue[1..] + [page]);
          assert State(Resident(memory, dirty, base.Counters()), queue) == next;
        }
      } else if isWrite {
        dirty := dirty[page := true];
      }
    }
  }

  /** A second run on the same object returns what the first returned. */
  method RunTwice(frames: nat, trace: seq<Access>) returns (first: Stats, second: Stats)
    requires frames >= 1
    ensures first == second
    ensures Balanced(first) && first.faults <= |trace|
  {
    var policy := new Fifo(frames);
    var f, i, w := policy.Run(trace);
    first := Stats(f, i, w);
    f, i, w := policy.Run(trace);
    second := Stats(f, i, w);
    FaultsAreMisses(frames, trace, |trace|);
    AdmittedBound(frames, trace, |trace|);
  }

  lemma {:induction false} AdmittedBound(frames: nat, trace: seq<Access>, n: nat)
    requires frames >= 1 && n <= |trace|
    ensures |Admitted(frames, trace, n)| <= n
  {
    if n > 0 { AdmittedBound(frames, trace, n - 1); }
  }
}
