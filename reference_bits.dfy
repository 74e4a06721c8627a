/** The additional-reference-bits policy: every resident page owns an 8-bit
    aging byte; a reference sets bit 7, every hundredth access shifts all
    resident bytes right by one, and a fault with every frame in use evicts
    the first resident page (in `memory` order) with the smallest byte. */
module ReferenceBits {
  import opened Paging

  /** The byte a page gets on admission: bit 7 alone. */
  const Admission := 128

  /** Aging happens before the access at position `i` when this holds. */
  predicate AgingPoint(i: nat) {
    i > 0 && i % 100 == 0
  }

  /** Python's `b | 128` on a non-negative integer: bit 7 set, every
      other bit kept. */
  function SetReferenceBit(b: int): (r: int)
    requires b >= 0
    ensures (r / 128) % 2 == 1
    ensures r % 128 == b % 128 && r / 256 == b / 256
  {
    if (b / 128) % 2 == 1 then b else b + 128
  }

  /** Python's `b >> 1` on a non-negative integer. */
  function ShiftRight(b: int): (r: int)
    requires b >= 0
    ensures 0 <= b < 256 ==> 0 <= r < 128
  {
    b / 2
  }

  /** Every resident page's byte shifted right once; other keys untouched. */
  function Age(bits: map<int, int>, memory: seq<int>): (r: map<int, int>)
    requires forall q :: q in bits ==> bits[q] >= 0
    ensures r.Keys == bits.Keys
  {
    map q | q in bits :: if q in memory then ShiftRight(bits[q]) else bits[q]
  }

  /** Python's `min(memory, key=lambda p: bits[p])` restricted to
      `memory[from..]`, as a position: the first page there whose byte is
      not larger than any other byte there. */
  function MinFrom(memory: seq<int>, bits: map<int, int>, from: nat): (k: nat)
    requires from < |memory| && forall j :: 0 <= j < |memory| ==> memory[j] in bits
    ensures from <= k < |memory|
    ensures forall j :: from <= j < |memory| ==> bits[memory[k]] <= bits[memory[j]]
    ensures forall j :: from <= j < k ==> bits[memory[j]] > bits[memory[k]]
    decreases |memory| - from
  {
    if from == |memory| - 1 then from
    else
      var k := MinFrom(memory, bits, from + 1);
      if bits[memory[from]] <= bits[memory[k]] then from else k
  }

  /** The position of the victim `min` picks. */
  function FirstMin(memory: seq<int>, bits: map<int, int>): (k: nat)
    requires |memory| > 0 && forall j :: 0 <= j < |memory| ==> memory[j] in bits
    ensures k < |memory|
  {
    MinFrom(memory, bits, 0)
  }

  /** The resident set plus the reference bytes. */
  datatype State = State(res: Resident, bits: map<int, int>)

  /** The shared invariant, a byte for exactly the resident pages, and
      every byte within 0..255. */
  predicate Valid(s: State, frames: nat) {
    && WellFormed(s.res, frames)
    && s.bits.Keys == Elems(s.res.memory)
    && forall q :: q in s.bits ==> 0 <= s.bits[q] < 256
  }

  /** The bytes the access at position `i` sees, after any aging. */
  function Aged(aging: bool, s: State): (bits: map<int, int>)
    requires forall q :: q in s.bits ==> 0 <= s.bits[q] < 256
    ensures bits.Keys == s.bits.Keys
    ensures forall q :: q in bits ==> 0 <= bits[q] < 256
  {
    if aging then Age(s.bits, s.res.memory) else s.bits
  }

  /** One access at position `i` of the trace. */
  function Step(frames: nat, aging: bool, s: State, a: Access): (s': State)
    requires frames >= 1 && Valid(s, frames)
  {
    var bits := Aged(aging, s);
    if a.page !in s.res.memory then
      if |s.res.memory| < frames then
        State(Fill(s.res, a), bits[a.page := Admission])
      else
        var victim := s.res.memory[FirstMin(s.res.memory, bits)];
        State(Swap(s.res, a, victim), (bits - {victim})[a.page := Admission])
    else
      State(Hit(s.res, a), bits[a.page := SetReferenceBit(bits[a.page])])
  }

  /** Every access keeps the invariant. */
  lemma StepFacts(frames: nat, aging: bool, s: State, a: Access)
    requires frames >= 1 && Valid(s, frames)
    ensures Valid(Step(frames, aging, s, a), frames)
  {
    var bits := Aged(aging, s);
    if a.page !in s.res.memory {
      if |s.res.memory| < frames {
        FillValid(s, frames, a, bits);
      } else {
        SwapValid(s, frames, a, bits, s.res.memory[FirstMin(s.res.memory, bits)]);
      }
    } else {
      HitValid(s, frames, a, bits);
    }
  }

  /** The requirements on the (aged) bytes an access starts from. */
  predicate BytesFit(s: State, bits: map<int, int>) {
    bits.Keys == Elems(s.res.memory) && forall q :: q in bits ==> 0 <= bits[q] < 256
  }

  lemma HitValid(s: State, frames: nat, a: Access, bits: map<int, int>)
    requires Valid(s, frames) && BytesFit(s, bits) && a.page in s.res.memory
    ensures Valid(State(Hit(s.res, a), bits[a.page := SetReferenceBit(bits[a.page])]), frames)
  {
    HitFacts(s.res, frames, a);
    assert 0 <= SetReferenceBit(bits[a.page]) < 256;
  }

  lemma FillValid(s: State, frames: nat, a: Access, bits: map<int, int>)
    requires Valid(s, frames) && BytesFit(s, bits) && a.page !in s.res.memory && |s.res.memory| < frames
    ensures Valid(State(Fill(s.res, a), bits[a.page := Admission]), frames)
  {
    FillFacts(s.res, frames, a);
  }

  lemma SwapValid(s: State, frames: nat, a: Access, bits: map<int, int>, victim: int)
    requires Valid(s, frames) && BytesFit(s, bits) && a.page !in s.res.memory && victim in s.res.memory
    ensures Valid(State(Swap(s.res, a, victim), (bits - {victim})[a.page := Admission]), frames)
  {
    SwapFacts(s.res, frames, a, victim);
  }

  lemma StepCounts(frames: nat, aging: bool, s: State, a: Access)
    requires frames >= 1 && Valid(s, frames)
    ensures CountsFollow(s.res, Step(frames, aging, s, a).res, a)
  {
    if a.page !in s.res.memory && |s.res.memory| == frames {
      var victim := s.res.memory[FirstMin(s.res.memory, Aged(aging, s))];
      SwapFacts(s.res, frames, a, victim);
    }
  }

  /** The state after the first `n` accesses of `trace`. */
  function Replay(frames: nat, trace: seq<Access>, n: nat): (s: State)
    requires frames >= 1 && n <= |trace|
    ensures Valid(s, frames)
  {
    if n == 0 then State(Empty, map[])
    else
      var prev := Replay(frames, trace, n - 1);
      StepFacts(frames, AgingPoint(n - 1), prev, trace[n - 1]);
      Step(frames, AgingPoint(n - 1), prev, trace[n - 1])
  }

  /** The victim of a fault at position `i` with every frame in use. */
  function Victim(i: nat, s: State): int
    requires |s.res.memory| > 0 && forall q :: q in s.bits ==> 0 <= s.bits[q] < 256
    requires forall j :: 0 <= j < |s.res.memory| ==> s.res.memory[j] in s.bits
  {
    s.res.memory[FirstMin(s.res.memory, Aged(AgingPoint(i), s))]
  }

  /** The pages of the accesses among the first `n` that found their page
      not resident, in trace order. */
  function Admitted(frames: nat, trace: seq<Access>, n: nat): seq<int>
    requires frames >= 1 && n <= |trace|
  {
    if n == 0 then []
    else
      var a := trace[n - 1];
      Admitted(frames, trace, n - 1) + (if a.page in Replay(frames, trace, n - 1).res.memory then [] else [a.page])
  }

  lemma {:induction false} FaultsAreMisses(frames: nat, trace: seq<Access>, n: nat)
    requires frames >= 1 && n <= |trace|
    ensures Replay(frames, trace, n).res.stats.faults == |Admitted(frames, trace, n)|
  {
    if n > 0 { FaultsAreMisses(frames, trace, n - 1); }
  }

  lemma DirtyFlags(frames: nat, trace: seq<Access>, n: nat)
    requires frames >= 1 && n < |trace|
    ensures DirtyFlagsFollow(Replay(frames, trace, n).res, Replay(frames, trace, n + 1).res, trace[n])
  {
    var s, a := Replay(frames, trace, n), trace[n];
    if a.page in s.res.memory { HitFacts(s.res, frames, a); }
    else if |s.res.memory| < frames { FillFacts(s.res, frames, a); }
    else { SwapFacts(s.res, frames, a, Victim(n, s)); }
  }

  /** The reference bytes across one access: an admitted page gets exactly
      128; a hit page has bit 7 set and keeps the lower bits of its (aged)
      byte; every other page still resident was resident before and only
      lost one bit to aging, when the access is at an aging point. */
  lemma StepBytes(frames: nat, aging: bool, s: State, a: Access)
    requires frames >= 1 && Valid(s, frames)
    ensures var s' := Step(frames, aging, s, a);
            && a.page in s'.bits
            && (a.page !in s.res.memory ==> s'.bits[a.page] == Admission)
            && (a.page in s.res.memory ==>
                  var b := if aging then ShiftRight(s.bits[a.page]) else s.bits[a.page];
                  128 <= s'.bits[a.page] < 256 && s'.bits[a.page] % 128 == b % 128)
            && forall q :: q in s'.res.memory && q != a.page ==>
                 && q in s.res.memory && q in s'.bits
                 && s'.bits[q] == if aging then ShiftRight(s.bits[q]) else s.bits[q]
  {
    var bits := Aged(aging, s);
    if a.page !in s.res.memory {
      if |s.res.memory| < frames {
        FillFacts(s.res, frames, a);
      } else {
        var victim := s.res.memory[FirstMin(s.res.memory, bits)];
        SwapFacts(s.res, frames, a, victim);
      }
    } else {
      var b := bits[a.page];
      assert 0 <= SetReferenceBit(b) < 256;
    }
  }

  /** `StepBytes` along the trace, at position `n`. */
  lemma ReferenceBytes(frames: nat, trace: seq<Access>, n: nat)
    requires frames >= 1 && n < |trace|
    ensures var s, s', a := Replay(frames, trace, n), Replay(frames, trace, n + 1), trace[n];
            && a.page in s'.bits
            && (a.page !in s.res.memory ==> s'.bits[a.page] == Admission)
            && (a.page in s.res.memory ==>
                  var b := if AgingPoint(n) then s.bits[a.page] / 2 else s.bits[a.page];
                  128 <= s'.bits[a.page] < 256 && s'.bits[a.page] % 128 == b % 128)
            && forall q :: q in s'.res.memory && q != a.page ==>
                 && q in s.res.memory && q in s'.bits
                 && s'.bits[q] == if AgingPoint(n) then s.bits[q] / 2 else s.bits[q]
  {
    StepBytes(frames, AgingPoint(n), Replay(frames, trace, n), trace[n]);
  }

  /** A fault evicts nothing while a frame is free, and once memory is full
      exactly the first resident page with the smallest (aged) byte. */
  lemma EvictsFirstMinimum(frames: nat, trace: seq<Access>, n: nat)
    requires frames >= 1 && n < |trace|
    ensures var s, s', a := Replay(frames, trace, n), Replay(frames, trace, n + 1), trace[n];
            var m, m' := s.res.memory, s'.res.memory;
            && (a.page in m ==> m' == m)
            && (a.page !in m && |m| < frames ==> m' == m + [a.page])
            && (a.page !in m && |m| == frames ==>
                  var bits := Aged(AgingPoint(n), s);
                  var k := FirstMin(m, bits);
                  && |m'| == frames && Elems(m') == Elems(m) - {m[k]} + {a.page}
                  && (forall j :: 0 <= j < |m| ==> bits[m[k]] <= bits[m[j]])
                  && (forall j :: 0 <= j < k ==> bits[m[j]] > bits[m[k]]))
  {
    var s, a := Replay(frames, trace, n), trace[n];
    if a.page !in s.res.memory && |s.res.memory| == frames {
      SwapFacts(s.res, frames, a, Victim(n, s));
    }
  }

  /** The order memory keeps across an eviction: the pages before the
      victim, then the pages after it, then the new page. */
  lemma EvictionOrder(frames: nat, trace: seq<Access>, n: nat)
    requires frames >= 1 && n < |trace|
    ensures var s, s', a := Replay(frames, trace, n), Replay(frames, trace, n + 1), trace[n];
            var m := s.res.memory;
            Evicts(s.res, frames, a) ==>
              var k := FirstMin(m, Aged(AgingPoint(n), s));
              s'.res.memory == m[..k] + m[k + 1..] + [a.page]
  {
    var s, a := Replay(frames, trace, n), trace[n];
    if Evicts(s.res, frames, a) {
      var m, k := s.res.memory, FirstMin(s.res.memory, Aged(AgingPoint(n), s));
      IndexOfUnique(m, k);
      RemoveAt(m, m[k]);
    }
  }

  /** The page access `n` writes back from `s`, if any: the victim when it
      is evicted dirty. */
  function WrittenBy(frames: nat, n: nat, s: State, a: Access): (w: seq<int>)
    requires frames >= 1 && Valid(s, frames)
  {
    if Evicts(s.res, frames, a) then
      var v := Victim(n, s);
      if v in s.res.dirty && s.res.dirty[v] then [v] else []
    else []
  }

  /** The pages the first `n` accesses wrote back, in trace order. */
  function WrittenBack(frames: nat, trace: seq<Access>, n: nat): seq<int>
    requires frames >= 1 && n <= |trace|
  {
    if n == 0 then [] else WrittenBack(frames, trace, n - 1) + WrittenBy(frames, n - 1, Replay(frames, trace, n - 1), trace[n - 1])
  }

  /** An access costs a write exactly when it evicts the victim and that
      page is dirty; a hit or a fault with a free frame costs none. */
  lemma WriteBacks(frames: nat, trace: seq<Access>, n: nat)
    requires frames >= 1 && 0 < n <= |trace|
    ensures var s, s', a := Replay(frames, trace, n - 1), Replay(frames, trace, n), trace[n - 1];
            s'.res.stats.writes == s.res.stats.writes +
              (if Evicts(s.res, frames, a) && (var v := Victim(n - 1, s); v in s.res.dirty && s.res.dirty[v])
               then 1 else 0)
    ensures var s, s', a := Replay(frames, trace, n - 1), Replay(frames, trace, n), trace[n - 1];
            s'.res.stats.writes == s.res.stats.writes + |WrittenBy(frames, n - 1, s, a)|
  {
    var s, a := Replay(frames, trace, n - 1), trace[n - 1];
    if Evicts(s.res, frames, a) {
      SwapFacts(s.res, frames, a, Victim(n - 1, s));
    } else if a.page !in s.res.memory {
      FillFacts(s.res, frames, a);
    }
  }

  /** The write counter counts exactly the dirty evictions. */
  lemma {:induction false} WritesAreDirtyEvictions(frames: nat, trace: seq<Access>, n: nat)
    requires frames >= 1 && n <= |trace|
    ensures Replay(frames, trace, n).res.stats.writes == |WrittenBack(frames, trace, n)|
  {
    if n > 0 {
      WritesAreDirtyEvictions(frames, trace, n - 1);
      WriteBacks(frames, trace, n);
    }
  }

  /** With one frame, a dirty page evicted by the next fault is written back. */
  lemma OneFrameWriteBack()
    ensures Replay(1, [Access(1, true), Access(2, false)], 2).res.stats == Stats(2, 2, 1)
  {
    var t := [Access(1, true), Access(2, false)];
    assert Replay(1, t, 1) == State(Resident([1], map[1 := true], Stats(1, 1, 0)), map[1 := 128]);
  }

  /** The aging pass: shifts the byte of every page of `memory` right by
      one, in `memory` order. */
  method AgeResident(bits: map<int, int>, memory: seq<int>) returns (aged: map<int, int>)
    requires NoDup(memory) && forall q :: q in bits ==> bits[q] >= 0
    requires forall j :: 0 <= j < |memory| ==> memory[j] in bits
    ensures aged == Age(bits, memory)
  {
    aged := bits;
    assert Age(bits, memory[..0]) == bits;
    for k := 0 to |memory|
      invariant aged == Age(bits, memory[..k])
    {
      assert memory[k] !in memory[..k];
      assert memory[..k + 1] == memory[..k] + [memory[k]];
      AgeSnoc(bits, memory[..k], memory[k]);
      aged := aged[memory[k] := ShiftRight(aged[memory[k]])];
    }
    assert memory[..|memory|] == memory;
  }

  /** Aging one more page shifts just that page's byte. */
  lemma AgeSnoc(bits: map<int, int>, m: seq<int>, x: int)
    requires forall q :: q in bits ==> bits[q] >= 0
    requires x in bits && x !in m
    ensures x in Age(bits, m) && Age(bits, m)[x] == bits[x]
    ensures Age(bits, m + [x]) == Age(bits, m)[x := ShiftRight(bits[x])]
  {
    assert forall q :: q in m + [x] <==> q in m || q == x;
  }

  class ReferenceBits {
    const base: PageReplacementAlgorithm

    constructor (frames: nat)
      ensures fresh(base) && base.frames == frames && base.Counters() == Zero
    {
      base := new PageReplacementAlgorithm(frames);
    }

    /** Replays `trace` from empty memory and zeroed counters and returns
        the counters. */
    method Run(trace: seq<Access>) returns (faults: nat, interrupts: nat, writes: nat)
      requires base.frames >= 1
      modifies base
      ensures Stats(faults, interrupts, writes) == base.Counters()
      ensures base.Counters() == Replay(base.frames, trace, |trace|).res.stats
    {
      base.Reset();
      var memory: seq<int> := [];
      var bits: map<int, int> := map[];
      var dirty: map<int, bool> := map[];
      for i := 0 to |trace|
        invariant State(Resident(memory, dirty, base.Counters()), bits) == Replay(base.frames, trace, i)
      {
        memory, bits, dirty := Visit(Replay(base.frames, trace, i), i, trace[i], memory, bits, dirty);
      }
      faults, interrupts, writes := base.faults, base.interrupts, base.writes;
    }

    /** The body of the loop of `Run`: the aging pass due before access
        `i`, then the access `a` itself. */
    method Visit(ghost s: State, i: nat, a: Access, memory0: seq<int>, bits0: map<int, int>, dirty0: map<int, bool>)
      returns (memory: seq<int>, bits: map<int, int>, dirty: map<int, bool>)
      requires base.frames >= 1 && Valid(s, base.frames)
      requires s == State(Resident(memory0, dirty0, base.Counters()), bits0)
      modifies base
      ensures State(Resident(memory, dirty, base.Counters()), bits) == Step(base.frames, AgingPoint(i), s, a)
    {
      bits := bits0;
      if i > 0 && i % 100 == 0 {
        bits := AgeResident(bits, memory0);
      }
      assert bits == Aged(AgingPoint(i), s);
      memory, bits, dirty := Serve(AgingPoint(i), s, a.page, a.isWrite, memory0, bits, dirty0);
    }

    /** The body of the loop of `Run` after the aging pass: serves one
        access on the locals of `Run` and the counters of `base`. */
    method Serve(ghost aging: bool, ghost s: State, page: int, isWrite: bool,
                 memory0: seq<int>, bits0: map<int, int>, dirty0: map<int, bool>)
      returns (memory: seq<int>, bits: map<int, int>, dirty: map<int, bool>)
      requires base.frames >= 1 && Valid(s, base.frames)
      requires memory0 == s.res.memory && dirty0 == s.res.dirty && base.Counters() == s.res.stats
      requires bits0 == Aged(aging, s)
      modifies base
      ensures State(Resident(memory, dirty, base.Counters()), bits) == Step(base.frames, aging, s, Access(page, isWrite))
    {
      memory, bits, dirty := memory0, bits0, dirty0;
      ghost var next: State;
      if page !in memory {
        base.faults := base.faults + 1;
        base.interrupts := base.interrupts + 1;
        if |memory| < base.frames {
          next := State(Fill(s.res, Access(page, isWrite)), bits[page := Admission]);
          memory := memory + [page];
          bits := bits[page := Admission];
        } else {
          var victim := memory[FirstMin(memory, bits)];
          next := State(Swap(s.res, Access(page, isWrite), victim), (bits - {victim})[page := Admission]);
          if victim in dirty && dirty[victim] {
            base.writes := base.writes + 1;
          }
          memory := Remove(memory, victim);
          memory := memory + [page];
          bits := bits - {victim};
          bits := bits[page := Admission];
          if victim in dirty {
            dirty := dirty - {victim};
          }
        }
        dirty := dirty[page := isWrite];
      } else {
        next := State(Hit(s.res, Access(page, isWrite)), bits[page := SetReferenceBit(bits[page])]);
        bits := bits[page := SetReferenceBit(bits[page])];
        if isWrite {
          dirty := dirty[page := true];
        }
      }
      assert next == Step(base.frames, aging, s, Access(page, isWrite));
    }
  }

  /** A second run on the same object returns what the first returned. */
  method RunTwice(frames: nat, trace: seq<Access>) returns (first: Stats, second: Stats)
    requires frames >= 1
    ensures first == second
    ensures Balanced(first) && first.faults <= |trace|
  {
    var policy := new ReferenceBits(frames);
    var f, i, w := policy.Run(trace);
    first := Stats(f, i, w);
    f, i, w := policy.Run(trace);
    second := Stats(f, i, w);
    FaultsAreMisses(frames, trace, |trace|);
    AdmittedBound(frames, trace, |trace|);
  }

  lemma {:induction false} AdmittedBound(frames: nat, trace: seq<Access>, n: nat)
    requires frames >= 1 && n <= |trace|
    ensures |Admitted(frames, trace, n)| <= n
  {
    if n > 0 { AdmittedBound(frames, trace, n - 1); }
  }
}
