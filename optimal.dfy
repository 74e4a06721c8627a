/** The clairvoyant policy: a fault with every frame in use evicts the
    resident page whose next use lies farthest ahead in the trace, or a page
    that is never used again. The victim is found by scanning the rest of
    the trace for every resident page; no table of positions is kept. */
module Optimal {
  import opened Paging

  /** The first position at or after `from` where `page` is accessed. */
  function NextUse(trace: seq<Access>, page: int, from: nat): (r: Option<nat>)
    ensures r.Some? ==> from <= r.value < |trace| && trace[r.value].page == page
    ensures forall k :: from <= k < |trace| && (r.None? || k < r.value) ==> trace[k].page != page
    decreases |trace| - from
  {
    if from >= |trace| then None
    else if trace[from].page == page then Some(from)
    else NextUse(trace, page, from + 1)
  }

  /** `page` is not accessed after position `current`. */
  predicate Unused(trace: seq<Access>, current: nat, page: int) {
    NextUse(trace, page, current + 1).None?
  }

  /** The scan over `memory[k..]`, given the farthest next use `maxDist` seen
      so far and the page `victim` it belongs to: the first page never used
      again ends the scan; otherwise a strictly farther next use takes over. */
  function Scan(memory: seq<int>, trace: seq<Access>, current: nat, k: nat, maxDist: int, victim: int): int
    requires k <= |memory|
    decreases |memory| - k
  {
    if k == |memory| then victim
    else match NextUse(trace, memory[k], current + 1)
      case None => memory[k]
      case Some(j) =>
        if j > maxDist then Scan(memory, trace, current, k + 1, j, memory[k])
        else Scan(memory, trace, current, k + 1, maxDist, victim)
  }

  /** The page evicted when the access at position `current` faults. */
  function Victim(memory: seq<int>, trace: seq<Access>, current: nat): int
    requires |memory| > 0
  {
    Scan(memory, trace, current, 0, -1, memory[0])
  }

  /** The victim is resident; if some resident page is never used again, it
      is the first such page in `memory` order; otherwise no resident page is
      used again later than the victim. */
  lemma VictimChoice(memory: seq<int>, trace: seq<Access>, current: nat)
    requires |memory| > 0
    ensures var v := Victim(memory, trace, current);
            && v in memory
            && ((exists k :: 0 <= k < |memory| && Unused(trace, current, memory[k])) ==>
                  && Unused(trace, current, v)
                  && forall k :: 0 <= k < IndexOf(memory, v) ==> !Unused(trace, current, memory[k]))
            && ((forall k :: 0 <= k < |memory| ==> !Unused(trace, current, memory[k])) ==>
                  && !Unused(trace, current, v)
                  && forall k :: 0 <= k < |memory| ==>
                       NextUse(trace, memory[k], current + 1).Some? &&
                       NextUse(trace, memory[k], current + 1).value <= NextUse(trace, v, current + 1).value)
  {
    var v := Victim(memory, trace, current);
    ScanMember(memory, trace, current, 0, -1, memory[0]);
    if exists k :: 0 <= k < |memory| && Unused(trace, current, memory[k]) {
      var i := ScanUnused(memory, trace, current, 0, -1, memory[0]);
      assert IndexOf(memory, v) <= i;
    } else {
      ScanFarthest(memory, trace, current, 0, -1, memory[0]);
    }
  }

  lemma {:induction false} ScanMember(memory: seq<int>, trace: seq<Access>, current: nat, k: nat, maxDist: int, victim: int)
    requires k <= |memory| && victim in memory
    ensures Scan(memory, trace, current, k, maxDist, victim) in memory
    decreases |memory| - k
  {
    if k < |memory| {
      match NextUse(trace, memory[k], current + 1)
      case None =>
      case Some(j) =>
        if j > maxDist {
          ScanMember(memory, trace, current, k + 1, j, memory[k]);
        } else {
          ScanMember(memory, trace, current, k + 1, maxDist, victim);
        }
    }
  }

  /** When some page of `memory[k..]` is never used again and none before
      `k` is, the scan ends at the first such page, at position `i`. */
  lemma {:induction false} ScanUnused(memory: seq<int>, trace: seq<Access>, current: nat, k: nat, maxDist: int, victim: int)
    returns (i: nat)
    requires k <= |memory|
    requires forall j :: 0 <= j < k ==> !Unused(trace, current, memory[j])
    requires exists j :: k <= j < |memory| && Unused(trace, current, memory[j])
    ensures k <= i < |memory| && Scan(memory, trace, current, k, maxDist, victim) == memory[i]
    ensures Unused(trace, current, memory[i])
    ensures forall j :: 0 <= j < i ==> !Unused(trace, current, memory[j])
    decreases |memory| - k
  {
    match NextUse(trace, memory[k], current + 1)
    case None =>
      i := k;
    case Some(d) =>
      if d > maxDist {
        i := ScanUnused(memory, trace, current, k + 1, d, memory[k]);
      } else {
        i := ScanUnused(memory, trace, current, k + 1, maxDist, victim);
      }
  }

  /** When every page of `memory` is used again, the scan returns a page
      whose next use is at least as far as every other page's, given that
      `victim` holds the farthest next use `maxDist` among `memory[..k]`. */
  lemma {:induction false} ScanFarthest(memory: seq<int>, trace: seq<Access>, current: nat, k: nat, maxDist: int, victim: int)
    requires 0 < |memory| && k <= |memory|
    requires forall i :: 0 <= i < |memory| ==> !Unused(trace, current, memory[i])
    requires k == 0 ==> maxDist == -1 && victim == memory[0]
    requires k > 0 ==> NextUse(trace, victim, current + 1) == Some(maxDist)
    requires forall i :: 0 <= i < k ==>
               NextUse(trace, memory[i], current + 1).Some? && NextUse(trace, memory[i], current + 1).value <= maxDist
    ensures var v := Scan(memory, trace, current, k, maxDist, victim);
            && !Unused(trace, current, v)
            && forall i :: 0 <= i < |memory| ==>
                 NextUse(trace, memory[i], current + 1).Some? &&
                 NextUse(trace, memory[i], current + 1).value <= NextUse(trace, v, current + 1).value
    decreases |memory| - k
  {
    if k < |memory| {
      assert !Unused(trace, current, memory[k]);
      var j := NextUse(trace, memory[k], current + 1).value;
      if j > maxDist {
        ScanFarthest(memory, trace, current, k + 1, j, memory[k]);
      } else {
        ScanFarthest(memory, trace, current, k + 1, maxDist, victim);
      }
    } else if k == 0 {
      assert false;
    }
  }

  /** `_find_victim`: the scan written as the source's two nested loops. */
  method FindVictim(memory: seq<int>, trace: seq<Access>, current: nat) returns (victim: int)
    requires |memory| > 0
    ensures victim == Victim(memory, trace, current)
    ensures victim in memory
    ensures (exists k :: 0 <= k < |memory| && Unused(trace, current, memory[k])) ==>
              Unused(trace, current, victim) && forall k :: 0 <= k < IndexOf(memory, victim) ==> !Unused(trace, current, memory[k])
    ensures (forall k :: 0 <= k < |memory| ==> !Unused(trace, current, memory[k])) ==>
              forall k :: 0 <= k < |memory| ==>
                NextUse(trace, memory[k], current + 1).Some? && NextUse(trace, victim, current + 1).Some? &&
                NextUse(trace, memory[k], current + 1).value <= NextUse(trace, victim, current + 1).value
  {
    VictimChoice(memory, trace, current);
    var maxDist := -1;
    victim := memory[0];
    var k := 0;
    while k < |memory|
      invariant k <= |memory|
      invariant Scan(memory, trace, current, k, maxDist, victim) == Victim(memory, trace, current)
    {
      var page := memory[k];
      var found := false;
      var j := current + 1;
      while j < |trace|
        invariant current + 1 <= j
        invariant NextUse(trace, page, j) == NextUse(trace, page, current + 1)
        invariant Scan(memory, trace, current, k, maxDist, victim) == Victim(memory, trace, current)
        invariant !found
      {
        if trace[j].page == page {
          if j > maxDist {
            maxDist := j;
            victim := page;
          }
          found := true;
          break;
        }
        j := j + 1;
      }
      if !found {
        return page;
      }
      k := k + 1;
    }
  }

  /** One access at position `i` of the trace. */
  function Step(frames: nat, trace: seq<Access>, i: nat, r: Resident): (r': Resident)
    requires frames >= 1 && i < |trace| && WellFormed(r, frames)
    ensures WellFormed(r', frames) && CountsFollow(r, r', trace[i])
  {
    var a := trace[i];
    if a.page !in r.memory then
      if |r.memory| < frames then
        FillFacts(r, frames, a);
        Fill(r, a)
      else
        var v := Victim(r.memory, trace, i);
        VictimChoice(r.memory, trace, i);
        SwapFacts(r, frames, a, v);
        Swap(r, a, v)
    else
      HitFacts(r, frames, a);
      Hit(r, a)
  }

  /** The resident set after the first `n` accesses of `trace`. */
  function Replay(frames: nat, trace: seq<Access>, n: nat): (r: Resident)
    requires frames >= 1 && n <= |trace|
    ensures WellFormed(r, frames)
  {
    if n == 0 then Empty else Step(frames, trace, n - 1, Replay(frames, trace, n - 1))
  }

  /** The pages of the accesses among the first `n` that found their page
      not resident, in trace order. */
  function Admitted(frames: nat, trace: seq<Access>, n: nat): seq<int>
    requires frames >= 1 && n <= |trace|
  {
    if n == 0 then []
    else
      var a := trace[n - 1];
      Admitted(frames, trace, n - 1) + (if a.page in Replay(frames, trace, n - 1).memory then [] else [a.page])
  }

  lemma {:induction false} FaultsAreMisses(frames: nat, trace: seq<Access>, n: nat)
    requires frames >= 1 && n <= |trace|
    ensures Replay(frames, trace, n).stats.faults == |Admitted(frames, trace, n)|
  {
    if n > 0 { FaultsAreMisses(frames, trace, n - 1); }
  }

  lemma DirtyFlags(frames: nat, trace: seq<Access>, n: nat)
    requires frames >= 1 && n < |trace|
    ensures DirtyFlagsFollow(Replay(frames, trace, n), Replay(frames, trace, n + 1), trace[n])
  {
    var r, a := Replay(frames, trace, n), trace[n];
    if a.page in r.memory { HitFacts(r, frames, a); }
    else if |r.memory| < frames { FillFacts(r, frames, a); }
    else { VictimChoice(r.memory, trace, n); SwapFacts(r, frames, a, Victim(r.memory, trace, n)); }
  }

  /** A fault evicts nothing while a frame is free, and exactly the chosen
      victim once memory is full. */
  lemma EvictsVictim(frames: nat, trace: seq<Access>, n: nat)
    requires frames >= 1 && n < |trace|
    ensures var m, m', a := Replay(frames, trace, n).memory, Replay(frames, trace, n + 1).memory, trace[n];
            && (a.page in m ==> m' == m)
            && (a.page !in m && |m| < frames ==> m' == m + [a.page])
            && (a.page !in m && |m| == frames ==>
                  |m'| == frames && Elems(m') == Elems(m) - {Victim(m, trace, n)} + {a.page})
            && (a.page !in m && |m| == frames ==>
                  var v := Victim(m, trace, n);
                  v in m && m' == m[..IndexOf(m, v)] + m[IndexOf(m, v) + 1..] + [a.page])
  {
    var r, a := Replay(frames, trace, n), trace[n];
    if a.page !in r.memory && |r.memory| == frames {
      var v := Victim(r.memory, trace, n);
      VictimChoice(r.memory, trace, n);
      SwapFacts(r, frames, a, v);
      RemoveAt(r.memory, v);
    }
  }

  /** The page access `n` writes back from `r`, if any: the victim when it
      is evicted dirty. */
  function WrittenBy(frames: nat, trace: seq<Access>, n: nat, r: Resident): (w: seq<int>)
    requires frames >= 1 && n < |trace| && WellFormed(r, frames)
  {
    if Evicts(r, frames, trace[n]) then
      var v := Victim(r.memory, trace, n);
      if v in r.dirty && r.dirty[v] then [v] else []
    else []
  }

  /** The pages the first `n` accesses wrote back, in trace order. */
  function WrittenBack(frames: nat, trace: seq<Access>, n: nat): seq<int>
    requires frames >= 1 && n <= |trace|
  {
    if n == 0 then [] else WrittenBack(frames, trace, n - 1) + WrittenBy(frames, trace, n - 1, Replay(frames, trace, n - 1))
  }

  /** An access costs a write exactly when it evicts the victim and that
      page is dirty; a hit or a fault with a free frame costs none. */
  lemma WriteBacks(frames: nat, trace: seq<Access>, n: nat)
    requires frames >= 1 && 0 < n <= |trace|
    ensures var r, r', a := Replay(frames, trace, n - 1), Replay(frames, trace, n), trace[n - 1];
            r'.stats.writes == r.stats.writes +
              (if Evicts(r, frames, a) && (var v := Victim(r.memory, trace, n - 1); v in r.dirty && r.dirty[v])
               then 1 else 0)
    ensures var r, r' := Replay(frames, trace, n - 1), Replay(frames, trace, n);
            r'.stats.writes == r.stats.writes + |WrittenBy(frames, trace, n - 1, r)|
  {
    var r, a := Replay(frames, trace, n - 1), trace[n - 1];
    if Evicts(r, frames, a) {
      VictimChoice(r.memory, trace, n - 1);
      SwapFacts(r, frames, a, Victim(r.memory, trace, n - 1));
    } else if a.page !in r.memory {
      FillFacts(r, frames, a);
    }
  }

  /** The write counter counts exactly the dirty evictions. */
  lemma {:induction false} WritesAreDirtyEvictions(frames: nat, trace: seq<Access>, n: nat)
    requires frames >= 1 && n <= |trace|
    ensures Replay(frames, trace, n).stats.writes == |WrittenBack(frames, trace, n)|
  {
    if n > 0 {
      WritesAreDirtyEvictions(frames, trace, n - 1);
      WriteBacks(frames, trace, n);
    }
  }

  /** With two frames, reading 1, 2, 3, 1 faults three times: page 2, never
      used again, is the victim of the fault on 3. */
  lemma TwoFramesThreeFaults()
    ensures Replay(2, [Access(1, false), Access(2, false), Access(3, false), Access(1, false)], 3).memory
            == [1, 3]
    ensures Replay(2, [Access(1, false), Access(2, false), Access(3, false), Access(1, false)], 4).stats
            == Stats(3, 3, 0)
  {
    var t := [Access(1, false), Access(2, false), Access(3, false), Access(1, false)];
    assert Replay(2, t, 2).memory == [1, 2];
    assert NextUse(t, 1, 3) == Some(3);
    assert NextUse(t, 2, 3) == None;
    assert Victim([1, 2], t, 2) == 2;
    assert Replay(2, t, 3).memory == [1, 3];
  }

  class Optimal {
    const base: PageReplacementAlgorithm

    constructor (frames: nat)
      ensures fresh(base) && base.frames == frames && base.Counters() == Zero
    {
      base := new PageReplacementAlgorithm(frames);
    }

    /** Replays `trace` from empty memory and zeroed counters and returns
        the counters. */
    method Run(trace: seq<Access>) returns (faults: nat, interrupts: nat, writes: nat)
      requires base.frames >= 1
      modifies base
      ensures Stats(faults, interrupts, writes) == base.Counters()
      ensures base.Counters() == Replay(base.frames, trace, |trace|).stats
    {
      base.Reset();
      var memory: seq<int> := [];
      var dirty: map<int, bool> := map[];
      for i := 0 to |trace|
        invariant Resident(memory, dirty, base.Counters()) == Replay(base.frames, trace, i)
      {
        memory, dirty := Serve(Replay(base.frames, trace, i), trace, i, memory, dirty);
      }
      faults, interrupts, writes := base.faults, base.interrupts, base.writes;
    }

    /** The body of the loop in `Run`: serves the access at position `i`
        given the resident set `r` held in `memory0`, `dirty0` and the
        counters. */
    method Serve(ghost r: Resident, trace: seq<Access>, i: nat, memory0: seq<int>, dirty0: map<int, bool>)
      returns (memory: seq<int>, dirty: map<int, bool>)
      requires base.frames >= 1 && i < |trace| && WellFormed(r, base.frames)
      requires r == Resident(memory0, dirty0, base.Counters())
      modifies base
      ensures Resident(memory, dirty, base.Counters()) == Step(base.frames, trace, i, r)
    {
      memory, dirty := memory0, dirty0;
      var page, isWrite := trace[i].page, trace[i].isWrite;
      if page !in memory {
        base.faults := base.faults + 1;
        base.interrupts := base.interrupts + 1;
        if |memory| < base.frames {
          memory := memory + [page];
          dirty := dirty[page := isWrite];
          ghost var next := Fill(r, trace[i]);
          assert Resident(memory, dirty, base.Counters()) == next;
        } else {
          var victim := FindVictim(memory, trace, i);
          if victim in dirty && dirty[victim] {
            base.writes := base.writes + 1;
          }
          memory := Remove(memory, victim);
          memory := memory + [page];
          if victim in dirty {
            dirty := dirty - {victim};
          }
          dirty := dirty[page := isWrite];
          ghost var next := Swap(r, trace[i], victim);
          assert Resident(memory, dirty, base.Counters()) == next;
        }
      } else if isWrite {
        dirty := dirty[page := true];
      }
    }
  }

  /** A second run on the same object returns what the first returned. */
  method RunTwice(frames: nat, trace: seq<Access>) returns (first: Stats, second: Stats)
    requires frames >= 1
    ensures first == second
    ensures Balanced(first) && first.faults <= |trace|
  {
    var policy := new Optimal(frames);
    var f, i, w := policy.Run(trace);
    first := Stats(f, i, w);
    f, i, w := policy.Run(trace);
    second := Stats(f, i, w);
    FaultsAreMisses(frames, trace, |trace|);
    AdmittedBound(frames, trace, |trace|);
  }

  lemma {:induction false} AdmittedBound(frames: nat, trace: seq<Access>, n: nat)
    requires frames >= 1 && n <= |trace|
    ensures |Admitted(frames, trace, n)| <= n
  {
    if n > 0 { AdmittedBound(frames, trace, n - 1); }
  }
}
