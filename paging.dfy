/** Vocabulary shared by the four replacement policies: the accesses of a
    trace, the three run counters, the list operations the policies use, and
    the resident-set bookkeeping (a bounded list of resident pages plus a
    dirty map) that FIFO, Optimal and ReferenceBits have in common. */
module Paging {

  /** One reference of the trace: the page touched and whether it is a write. */
  datatype Access = Access(page: int, isWrite: bool)

  datatype Option<T> = None | Some(value: T)

  /** The counters every policy reports: faults, interrupts, disk writes. */
  datatype Stats = Stats(faults: nat, interrupts: nat, writes: nat)

  const Zero := Stats(0, 0, 0)

  /** A page fault raises one fault and one interrupt. */
  function Fault(s: Stats): Stats {
    s.(faults := s.faults + 1, interrupts := s.interrupts + 1)
  }

  /** Evicting a dirty page costs one disk write and no interrupt. */
  function WriteBack(s: Stats, dirty: bool): Stats {
    if dirty then s.(writes := s.writes + 1) else s
  }

  /** Interrupts are raised only together with faults, and every write-back
      belongs to a distinct fault. */
  predicate Balanced(s: Stats) {
    s.interrupts == s.faults && s.writes <= s.faults
  }

  function Min(a: int, b: int): int {
    if a <= b then a else b
  }

  function Max(a: int, b: int): int {
    if a >= b then a else b
  }

  predicate NoDup(s: seq<int>) {
    forall i, j :: 0 <= i < j < |s| ==> s[i] != s[j]
  }

  function Elems(s: seq<int>): set<int> {
    set x | x in s
  }

  /** The position of the first occurrence of `x` in `s`. */
  function IndexOf(s: seq<int>, x: int): (i: nat)
    requires x in s
    ensures i < |s| && s[i] == x
    ensures forall j :: 0 <= j < i ==> s[j] != x
  {
    if s[0] == x then 0 else 1 + IndexOf(s[1..], x)
  }

  /** Python's `list.remove`: drops the first occurrence of `x` (the source
      raises when `x` is absent, hence the precondition). */
  function Remove(s: seq<int>, x: int): (r: seq<int>)
    requires x in s
    ensures |r| == |s| - 1
  {
    assert s == [s[0]] + s[1..];
    if s[0] == x then s[1..] else [s[0]] + Remove(s[1..], x)
  }

  /** `list.remove` cuts out exactly the first occurrence, keeping the
      order of everything else. */
  lemma {:induction false} RemoveAt(s: seq<int>, x: int)
    requires x in s
    ensures Remove(s, x) == s[..IndexOf(s, x)] + s[IndexOf(s, x) + 1..]
  {
    var r, i := Remove(s, x), IndexOf(s, x);
    RemoveShift(s, x);
    assert r == s[..i] + s[i + 1..] by {
      forall j | 0 <= j < |r| ensures r[j] == (s[..i] + s[i + 1..])[j] {
        if j < i { assert (s[..i] + s[i + 1..])[j] == s[j]; }
        else { assert (s[..i] + s[i + 1..])[j] == s[j + 1]; }
      }
    }
  }

  lemma {:induction false} RemoveShift(s: seq<int>, x: int)
    requires x in s
    ensures forall j :: 0 <= j < IndexOf(s, x) ==> Remove(s, x)[j] == s[j]
    ensures forall j :: IndexOf(s, x) <= j < |s| - 1 ==> Remove(s, x)[j] == s[j + 1]
  {
    if s[0] != x {
      RemoveShift(s[1..], x);
      var r := Remove(s, x);
      assert r == [s[0]] + Remove(s[1..], x);
      forall j | 0 < j < |s| - 1 ensures r[j] == Remove(s[1..], x)[j - 1] { }
    }
  }

  /** In a duplicate-free list, the first occurrence of `s[k]` is `k`. */
  lemma IndexOfUnique(s: seq<int>, k: nat)
    requires NoDup(s) && k < |s|
    ensures IndexOf(s, s[k]) == k
  {
  }

  lemma NoDupCons(h: int, t: seq<int>)
    requires NoDup(t) && h !in t
    ensures NoDup([h] + t)
  {
    var s := [h] + t;
    forall i, j | 0 <= i < j < |s| ensures s[i] != s[j] {
      if i == 0 { assert s[j] == t[j - 1]; }
      else { assert s[i] == t[i - 1] && s[j] == t[j - 1]; }
    }
  }

  lemma NoDupSnoc(s: seq<int>, x: int)
    requires NoDup(s) && x !in s
    ensures NoDup(s + [x]) && Elems(s + [x]) == Elems(s) + {x}
  {
  }

  /** Removing a member of a duplicate-free list removes it entirely and
      keeps the rest duplicate-free. */
  lemma {:induction false} RemoveUnique(s: seq<int>, x: int)
    requires NoDup(s) && x in s
    ensures NoDup(Remove(s, x))
    ensures Elems(Remove(s, x)) == Elems(s) - {x}
  {
    if s[0] == x {
      assert s == [s[0]] + s[1..];
      assert x !in s[1..] by {
        forall k | 0 <= k < |s[1..]| ensures s[1..][k] != x { assert s[k + 1] != s[0]; }
      }
    } else {
      assert s == [s[0]] + s[1..];
      assert NoDup(s[1..]) by {
        forall i, j | 0 <= i < j < |s[1..]| ensures s[1..][i] != s[1..][j] {
          assert s[i + 1] != s[j + 1];
        }
      }
      assert s[0] !in s[1..] by {
        forall k | 0 <= k < |s[1..]| ensures s[1..][k] != s[0] { assert s[k + 1] != s[0]; }
      }
      RemoveUnique(s[1..], x);
      var rest := Remove(s[1..], x);
      assert s[0] !in rest by { assert s[0] !in Elems(rest); }
      NoDupCons(s[0], rest);
      assert Remove(s, x) == [s[0]] + rest;
      assert Elems([s[0]] + rest) == {s[0]} + Elems(rest);
    }
  }

  /** The resident set the FIFO, Optimal and ReferenceBits policies keep:
      the list `memory`, the `dirty` map and the run counters. */
  datatype Resident = Resident(memory: seq<int>, dirty: map<int, bool>, stats: Stats)

  const Empty := Resident([], map[], Zero)

  /** The invariant the three policies share: at most `frames` distinct
      resident pages, a dirty flag for exactly the resident pages, and
      balanced counters. */
  predicate WellFormed(r: Resident, frames: nat) {
    && NoDup(r.memory)
    && |r.memory| <= frames
    && r.dirty.Keys == Elems(r.memory)
    && Balanced(r.stats)
  }

  /** A hit: only a write changes anything, and it marks the page dirty. */
  function Hit(r: Resident, a: Access): Resident {
    if a.isWrite then r.(dirty := r.dirty[a.page := true]) else r
  }

  /** A fault with a free frame: count it and admit the page. */
  function Fill(r: Resident, a: Access): Resident {
    Resident(r.memory + [a.page], r.dirty[a.page := a.isWrite], Fault(r.stats))
  }

  /** A fault with every frame in use: count it, write the victim back if it
      is dirty, drop the victim and its dirty flag, admit the page. */
  function Swap(r: Resident, a: Access, victim: int): Resident
    requires victim in r.memory
  {
    Resident(Remove(r.memory, victim) + [a.page],
             (r.dirty - {victim})[a.page := a.isWrite],
             WriteBack(Fault(r.stats), victim in r.dirty && r.dirty[victim]))
  }

  /** The access faults with every frame in use, so it evicts a page. */
  predicate Evicts(r: Resident, frames: nat, a: Access) {
    a.page !in r.memory && |r.memory| == frames
  }

  /** What an access does to the counters: a fault exactly when the page is
      not resident, and a hit changes no counter at all. */
  predicate CountsFollow(r: Resident, r': Resident, a: Access) {
    && r'.stats.faults == r.stats.faults + (if a.page in r.memory then 0 else 1)
    && (a.page in r.memory ==> r'.stats == r.stats)
  }

  /** What an access does to the dirty flags: the page served is resident
      afterwards; its flag is the write flag on admission and is or-ed with
      it on a hit (a read never clears it); every other page that is still
      resident was resident before and keeps its flag. */
  predicate DirtyFlagsFollow(r: Resident, r': Resident, a: Access)
    requires r.dirty.Keys == Elems(r.memory)
  {
    && a.page in r'.memory
    && a.page in r'.dirty
    && r'.dirty[a.page] == (if a.page in r.memory then r.dirty[a.page] || a.isWrite else a.isWrite)
    && forall q :: q in r'.memory && q != a.page ==> q in r.memory && q in r'.dirty && r'.dirty[q] == r.dirty[q]
  }

  lemma HitFacts(r: Resident, frames: nat, a: Access)
    requires WellFormed(r, frames) && a.page in r.memory
    ensures WellFormed(Hit(r, a), frames)
    ensures Hit(r, a).memory == r.memory
    ensures CountsFollow(r, Hit(r, a), a) && DirtyFlagsFollow(r, Hit(r, a), a)
  {
  }

  lemma FillFacts(r: Resident, frames: nat, a: Access)
    requires WellFormed(r, frames) && a.page !in r.memory && |r.memory| < frames
    ensures WellFormed(Fill(r, a), frames)
    ensures Elems(Fill(r, a).memory) == Elems(r.memory) + {a.page}
    ensures CountsFollow(r, Fill(r, a), a) && DirtyFlagsFollow(r, Fill(r, a), a)
    ensures Fill(r, a).stats.writes == r.stats.writes
  {
    NoDupSnoc(r.memory, a.page);
  }

  /** Swapping keeps the shared invariant and the memory full, and costs one
      write exactly when the victim is dirty. */
  lemma SwapFacts(r: Resident, frames: nat, a: Access, victim: int)
    requires WellFormed(r, frames) && a.page !in r.memory && victim in r.memory
    ensures WellFormed(Swap(r, a, victim), frames)
    ensures |Swap(r, a, victim).memory| == |r.memory|
    ensures Elems(Swap(r, a, victim).memory) == Elems(r.memory) - {victim} + {a.page}
    ensures CountsFollow(r, Swap(r, a, victim), a) && DirtyFlagsFollow(r, Swap(r, a, victim), a)
    ensures victim in r.dirty
    ensures Swap(r, a, victim).stats.writes == r.stats.writes + (if r.dirty[victim] then 1 else 0)
  {
    var rest := Remove(r.memory, victim);
    RemoveUnique(r.memory, victim);
    assert a.page !in Elems(rest);
    NoDupSnoc(rest, a.page);
    var r' := Swap(r, a, victim);
    forall q | q in r'.memory && q != a.page
      ensures q in r.memory && q in r'.dirty && r'.dirty[q] == r.dirty[q]
    {
      assert q in Elems(rest + [a.page]);
      assert q in Elems(r.memory) - {victim};
    }
  }

  /** The state every policy shares in the source's base class: the frame
      count and the three counters. */
  class PageReplacementAlgorithm {
    const frames: nat
    var faults: nat
    var interrupts: nat
    var writes: nat

    function Counters(): Stats
      reads this
    {
      Stats(faults, interrupts, writes)
    }

    constructor (frames: nat)
      ensures this.frames == frames && Counters() == Zero
    {
      this.frames := frames;
      faults, interrupts, writes := 0, 0, 0;
    }

    /** Zeroes the counters; every run starts with it. */
    method Reset()
      modifies this
      ensures Counters() == Zero
    {
      faults := 0;
      interrupts := 0;
      writes := 0;
    }
  }
}
