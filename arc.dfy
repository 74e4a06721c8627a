/** The simplified adaptive replacement policy: resident pages live in `t1`
    (seen once) and `t2` (seen again), recently evicted page numbers in the
    ghost lists `b1` and `b2`, and `p` is the adaptive target size of `t1`.
    Modelled as written: the ghost lists are never trimmed, a miss always
    joins `t1`, and the eviction may do nothing, so `t1` and `t2` together
    can hold more pages than there are frames. */
module Arc {
  import opened Paging

  /** The four lists, the dirty map, the adaptation value and the counters. */
  datatype ArcState = ArcState(t1: seq<int>, t2: seq<int>, b1: seq<int>, b2: seq<int>,
                               dirty: map<int, bool>, p: int, stats: Stats)

  const Start := ArcState([], [], [], [], map[], 0, Zero)

  /** Each list is duplicate-free and no page is in two lists. */
  predicate Lists(s: ArcState) {
    && NoDup(s.t1) && NoDup(s.t2) && NoDup(s.b1) && NoDup(s.b2)
    && Elems(s.t1) !! Elems(s.t2) && Elems(s.t1) !! Elems(s.b1) && Elems(s.t1) !! Elems(s.b2)
    && Elems(s.t2) !! Elems(s.b1) && Elems(s.t2) !! Elems(s.b2)
    && Elems(s.b1) !! Elems(s.b2)
  }

  /** Only resident pages have a dirty entry, and every entry is `true`:
      a read never stores one. */
  predicate DirtyOk(s: ArcState) {
    && s.dirty.Keys <= Elems(s.t1) + Elems(s.t2)
    && (forall q :: q in s.dirty ==> s.dirty[q])
  }

  /** The invariant kept across every access. */
  predicate Valid(s: ArcState, frames: nat) {
    Lists(s) && DirtyOk(s) && 0 <= s.p <= frames && Balanced(s.stats)
  }

  /** Whether `page` is resident. */
  predicate Cached(s: ArcState, page: int) {
    page in s.t1 || page in s.t2
  }

  /** The eviction on behalf of `page`: the head of `t1` goes to `b1` when
      `t1` is non-empty and longer than `p` (or exactly `p` long while `page`
      is in `b2`); otherwise the head of `t2` goes to `b2`; with `t2` empty
      too nothing happens. A dirty victim costs a write and loses its entry. */
  function Replace(s: ArcState, page: int): (r: ArcState) {
    if |s.t1| > 0 && (|s.t1| > s.p || (page in s.b2 && |s.t1| == s.p)) then
      var v := s.t1[0];
      s.(t1 := s.t1[1..], b1 := s.b1 + [v], dirty := s.dirty - {v},
         stats := WriteBack(s.stats, v in s.dirty && s.dirty[v]))
    else if |s.t2| > 0 then
      var v := s.t2[0];
      s.(t2 := s.t2[1..], b2 := s.b2 + [v], dirty := s.dirty - {v},
         stats := WriteBack(s.stats, v in s.dirty && s.dirty[v]))
    else s
  }

  /** A write marks the page dirty; a read leaves the map alone. */
  function Mark(dirty: map<int, bool>, a: Access): map<int, bool> {
    if a.isWrite then dirty[a.page := true] else dirty
  }

  /** The adaptation on a hit in `b1`: `p` grows, capped at `frames`. */
  function Grow(s: ArcState, frames: nat): int
    requires |s.b1| > 0
  {
    Min(s.p + Max(1, |s.b2| / Max(1, |s.b1|)), frames)
  }

  /** The adaptation on a hit in `b2`: `p` shrinks, floored at 0. */
  function Shrink(s: ArcState): int
    requires |s.b2| > 0
  {
    Max(s.p - Max(1, |s.b1| / Max(1, |s.b2|)), 0)
  }

  /** A hit in `t1` promotes the page to the tail of `t2`; a hit in `t2`
      moves it to the tail of `t2`. */
  function OnHit(s: ArcState, a: Access): ArcState
    requires a.page in s.t1 || a.page in s.t2
  {
    if a.page in s.t1 then
      s.(t1 := Remove(s.t1, a.page), t2 := s.t2 + [a.page], dirty := Mark(s.dirty, a))
    else
      s.(t2 := Remove(s.t2, a.page) + [a.page], dirty := Mark(s.dirty, a))
  }

  /** A hit in a ghost list: adapt `p`, evict, and bring the page back into
      the tail of `t2`; a fault. */
  function OnGhostHit(frames: nat, s: ArcState, a: Access): ArcState
    requires a.page in s.b1 || a.page in s.b2
  {
    if a.page in s.b1 then
      var r := Replace(s.(p := Grow(s, frames)), a.page);
      r.(b1 := Remove(r.b1, a.page), t2 := r.t2 + [a.page], dirty := Mark(r.dirty, a), stats := Fault(r.stats))
    else
      var r := Replace(s.(p := Shrink(s)), a.page);
      r.(b2 := Remove(r.b2, a.page), t2 := r.t2 + [a.page], dirty := Mark(r.dirty, a), stats := Fault(r.stats))
  }

  /** A page in no list: a fault, an eviction when `t1` and `t2` together
      hold exactly `frames` pages, and the page joins the tail of `t1`. */
  function OnMiss(frames: nat, s: ArcState, a: Access): ArcState {
    var f := s.(stats := Fault(s.stats));
    var r := if |s.t1| + |s.t2| == frames then Replace(f, a.page) else f;
    // Both branches of the source's capacity test append to `t1`.
    r.(t1 := r.t1 + [a.page], dirty := Mark(r.dirty, a))
  }

  /** One access of the trace. */
  function Step(frames: nat, s: ArcState, a: Access): ArcState {
    if Cached(s, a.page) then OnHit(s, a)
    else if a.page in s.b1 || a.page in s.b2 then OnGhostHit(frames, s, a)
    else OnMiss(frames, s, a)
  }

  lemma PopFacts(s: seq<int>)
    requires NoDup(s) && |s| > 0
    ensures NoDup(s[1..]) && Elems(s[1..]) == Elems(s) - {s[0]}
  {
    assert Remove(s, s[0]) == s[1..];
    RemoveUnique(s, s[0]);
  }

  /** The eviction keeps the lists and the dirty map consistent, moves at
      most one page from a resident list to its ghost list, costs at most
      one write, and never touches `page` when it is not resident. */
  lemma ReplaceFacts(s: ArcState, page: int)
    requires Lists(s) && DirtyOk(s) && !Cached(s, page)
    ensures var r := Replace(s, page);
            && Lists(r) && DirtyOk(r) && !Cached(r, page)
            && r.p == s.p && r.stats.faults == s.stats.faults && r.stats.interrupts == s.stats.interrupts
            && s.stats.writes <= r.stats.writes <= s.stats.writes + 1
            && (page in r.b1 <==> page in s.b1) && (page in r.b2 <==> page in s.b2)
  {
    var r := Replace(s, page);
    if |s.t1| > 0 && (|s.t1| > s.p || (page in s.b2 && |s.t1| == s.p)) {
      PopFacts(s.t1);
      assert s.t1[0] in Elems(s.t1);
      NoDupSnoc(s.b1, s.t1[0]);
    } else if |s.t2| > 0 {
      PopFacts(s.t2);
      assert s.t2[0] in Elems(s.t2);
      NoDupSnoc(s.b2, s.t2[0]);
    }
  }

  /** Every access keeps the invariant. */
  lemma StepFacts(frames: nat, s: ArcState, a: Access)
    requires Valid(s, frames)
    ensures Valid(Step(frames, s, a), frames)
  {
    var page := a.page;
    if page in s.t1 {
      T1HitFacts(s, a);
    } else if page in s.t2 {
      T2HitFacts(s, a);
    } else if page in s.b1 {
      GhostHitFacts(frames, s.(p := Grow(s, frames)), a, true);
    } else if page in s.b2 {
      GhostHitFacts(frames, s.(p := Shrink(s)), a, false);
    } else {
      var f := s.(stats := Fault(s.stats));
      var r := if |s.t1| + |s.t2| == frames then Replace(f, page) else f;
      if |s.t1| + |s.t2| == frames { ReplaceFacts(f, page); }
      assert page !in Elems(r.t1);
      NoDupSnoc(r.t1, page);
    }
  }

  lemma T1HitFacts(s: ArcState, a: Access)
    requires Lists(s) && DirtyOk(s) && a.page in s.t1
    ensures var s' := s.(t1 := Remove(s.t1, a.page), t2 := s.t2 + [a.page], dirty := Mark(s.dirty, a));
            Lists(s') && DirtyOk(s')
  {
    RemoveUnique(s.t1, a.page);
    assert a.page in Elems(s.t1);
    NoDupSnoc(s.t2, a.page);
  }

  lemma T2HitFacts(s: ArcState, a: Access)
    requires Lists(s) && DirtyOk(s) && a.page in s.t2
    ensures var s' := s.(t2 := Remove(s.t2, a.page) + [a.page], dirty := Mark(s.dirty, a));
            Lists(s') && DirtyOk(s')
  {
    RemoveUnique(s.t2, a.page);
    assert a.page !in Elems(Remove(s.t2, a.page));
    assert a.page in Elems(s.t2);
    NoDupSnoc(Remove(s.t2, a.page), a.page);
  }

  lemma GhostHitFacts(frames: nat, s: ArcState, a: Access, inB1: bool)
    requires Lists(s) && DirtyOk(s) && 0 <= s.p <= frames && Balanced(s.stats)
    requires if inB1 then a.page in s.b1 else a.page in s.b2
    requires !Cached(s, a.page)
    ensures var r := Replace(s, a.page);
            var r' := if inB1 then r.(b1 := Remove(r.b1, a.page)) else r.(b2 := Remove(r.b2, a.page));
            Valid(r'.(t2 := r'.t2 + [a.page], dirty := Mark(r'.dirty, a), stats := Fault(r'.stats)), frames)
  {
    var page := a.page;
    ReplaceFacts(s, page);
    var r := Replace(s, page);
    if inB1 { RemoveUnique(r.b1, page); } else { RemoveUnique(r.b2, page); }
    NoDupSnoc(r.t2, page);
  }

  /** The state after the first `n` accesses of `trace`. */
  function Replay(frames: nat, trace: seq<Access>, n: nat): ArcState
    requires n <= |trace|
  {
    if n == 0 then Start else Step(frames, Replay(frames, trace, n - 1), trace[n - 1])
  }

  /** The invariant holds after every prefix of every trace: the lists stay
      duplicate-free and pairwise disjoint, only resident pages have dirty
      entries and all of them are `true`, `p` stays within 0..frames, and
      the counters balance. */
  lemma {:induction false} Invariant(frames: nat, trace: seq<Access>, n: nat)
    requires n <= |trace|
    ensures Valid(Replay(frames, trace, n), frames)
  {
    if n > 0 {
      Invariant(frames, trace, n - 1);
      StepFacts(frames, Replay(frames, trace, n - 1), trace[n - 1]);
    }
  }

  /** The pages of the accesses among the first `n` that found their page
      in neither `t1` nor `t2`, in trace order. */
  function Missed(frames: nat, trace: seq<Access>, n: nat): seq<int>
    requires n <= |trace|
  {
    if n == 0 then []
    else
      var a := trace[n - 1];
      Missed(frames, trace, n - 1) + (if Cached(Replay(frames, trace, n - 1), a.page) then [] else [a.page])
  }

  /** A hit changes no counter; any other access, ghost hit or miss, is
      exactly one fault. */
  lemma StepCounts(frames: nat, s: ArcState, a: Access)
    requires Valid(s, frames)
    ensures var s' := Step(frames, s, a);
            && s'.stats.faults == s.stats.faults + (if Cached(s, a.page) then 0 else 1)
            && (Cached(s, a.page) ==> s'.stats == s.stats)
  {
    if a.page in s.b1 {
      assert a.page in Elems(s.b1);
      ReplaceFacts(s.(p := Grow(s, frames)), a.page);
    } else if a.page in s.b2 {
      assert a.page in Elems(s.b2);
      ReplaceFacts(s.(p := Shrink(s)), a.page);
    } else if !Cached(s, a.page) && |s.t1| + |s.t2| == frames {
      ReplaceFacts(s.(stats := Fault(s.stats)), a.page);
    }
  }

  /** Every fault is an access to a page in neither `t1` nor `t2`, and
      vice versa. */
  lemma {:induction false} FaultsAreMisses(frames: nat, trace: seq<Access>, n: nat)
    requires n <= |trace|
    ensures Replay(frames, trace, n).stats.faults == |Missed(frames, trace, n)|
  {
    if n > 0 {
      var s, a := Replay(frames, trace, n - 1), trace[n - 1];
      FaultsAreMisses(frames, trace, n - 1);
      Invariant(frames, trace, n - 1);
      StepCounts(frames, s, a);
      assert Missed(frames, trace, n) == Missed(frames, trace, n - 1) + (if Cached(s, a.page) then [] else [a.page]);
    }
  }

  lemma {:induction false} MissedBound(frames: nat, trace: seq<Access>, n: nat)
    requires n <= |trace|
    ensures |Missed(frames, trace, n)| <= n
  {
    if n > 0 {
      MissedBound(frames, trace, n - 1);
      var s, a := Replay(frames, trace, n - 1), trace[n - 1];
      assert Missed(frames, trace, n) == Missed(frames, trace, n - 1) + (if Cached(s, a.page) then [] else [a.page]);
    }
  }

  /** A hit in `t1` promotes the page to the tail of `t2`; a hit in `t2`
      moves it to the tail of `t2`; neither touches the ghost lists, `p`
      or the counters. */
  lemma HitMoves(frames: nat, trace: seq<Access>, n: nat)
    requires n < |trace|
    ensures var s, s', page := Replay(frames, trace, n), Replay(frames, trace, n + 1), trace[n].page;
            && (page in s.t1 ==> s'.t1 == Remove(s.t1, page) && s'.t2 == s.t2 + [page])
            && (page in s.t2 ==> s'.t1 == s.t1 && s'.t2 == Remove(s.t2, page) + [page])
            && (Cached(s, page) ==> s'.b1 == s.b1 && s'.b2 == s.b2 && s'.p == s.p && s'.stats == s.stats)
  {
    var s := Replay(frames, trace, n);
    Invariant(frames, trace, n);
    assert trace[n].page in s.t1 ==> trace[n].page !in s.t2 by {
      if trace[n].page in s.t1 { assert trace[n].page in Elems(s.t1); }
    }
  }

  /** A hit in a ghost list ends with the page at the tail of `t2` and in
      neither ghost list; `p` grows on a hit in `b1` and shrinks on a hit
      in `b2`, staying within 0..frames. */
  lemma GhostHit(frames: nat, trace: seq<Access>, n: nat)
    requires n < |trace|
    ensures var s, s', page := Replay(frames, trace, n), Replay(frames, trace, n + 1), trace[n].page;
            (page in s.b1 || page in s.b2) ==>
              && |s'.t2| > 0 && s'.t2[|s'.t2| - 1] == page
              && page !in s'.b1 && page !in s'.b2
              && (page in s.b1 ==> s.p <= s'.p <= frames)
              && (page in s.b2 ==> 0 <= s'.p <= s.p)
  {
    var s, a := Replay(frames, trace, n), trace[n];
    Invariant(frames, trace, n);
    var page := a.page;
    if page in s.b1 {
      assert page in Elems(s.b1);
      var g := s.(p := Grow(s, frames));
      ReplaceFacts(g, page);
      RemoveUnique(Replace(g, page).b1, page);
    } else if page in s.b2 {
      assert page in Elems(s.b2);
      var g := s.(p := Shrink(s));
      ReplaceFacts(g, page);
      RemoveUnique(Replace(g, page).b2, page);
    }
  }
  /** A page in no list is appended to the tail of `t1`. When `t1` and `t2`
      together hold exactly `frames` pages, `replace` runs first and the
      lists are those it leaves; otherwise the lists are only extended by
      the page. `p` is unchanged. */
  lemma MissMoves(frames: nat, trace: seq<Access>, n: nat)
    requires n < |trace|
    ensures var s, s', page := Replay(frames, trace, n), Replay(frames, trace, n + 1), trace[n].page;
            (!Cached(s, page) && page !in s.b1 && page !in s.b2) ==>
              && |s'.t1| > 0 && s'.t1[|s'.t1| - 1] == page && s'.p == s.p
              && (|s.t1| + |s.t2| != frames ==>
                    s'.t1 == s.t1 + [page] && s'.t2 == s.t2 && s'.b1 == s.b1 && s'.b2 == s.b2)
              && (|s.t1| + |s.t2| == frames ==>
                    var r := Replace(s, page);
                    s'.t1 == r.t1 + [page] && s'.t2 == r.t2 && s'.b1 == r.b1 && s'.b2 == r.b2)
  {
  }


  /** The ghost lists are never trimmed: across any access, the only page
      either of them can lose is the page served. */
  lemma GhostListsGrow(frames: nat, trace: seq<Access>, n: nat)
    requires n < |trace|
    ensures var s, s', page := Replay(frames, trace, n), Replay(frames, trace, n + 1), trace[n].page;
            Elems(s.b1) - {page} <= Elems(s'.b1) && Elems(s.b2) - {page} <= Elems(s'.b2)
  {
    var s, a := Replay(frames, trace, n), trace[n];
    Invariant(frames, trace, n);
    var page := a.page;
    if page in s.b1 {
      assert page in Elems(s.b1);
      var g := s.(p := Grow(s, frames));
      ReplaceFacts(g, page);
      ReplaceGrowsGhosts(g, page);
      RemoveUnique(Replace(g, page).b1, page);
    } else if page in s.b2 {
      assert page in Elems(s.b2);
      var g := s.(p := Shrink(s));
      ReplaceFacts(g, page);
      ReplaceGrowsGhosts(g, page);
      RemoveUnique(Replace(g, page).b2, page);
    } else if !Cached(s, page) && |s.t1| + |s.t2| == frames {
      ReplaceGrowsGhosts(s.(stats := Fault(s.stats)), page);
    }
  }

  lemma ReplaceGrowsGhosts(s: ArcState, page: int)
    ensures Elems(s.b1) <= Elems(Replace(s, page).b1) && Elems(s.b2) <= Elems(Replace(s, page).b2)
  {
  }

  /** The eviction does nothing exactly when neither list can give up a
      page: `t1` is empty or not over its target, and `t2` is empty.
      Otherwise exactly one resident page, the head of `t1` or of `t2`,
      moves to the tail of the matching ghost list, loses its dirty entry,
      and costs a write exactly when it had one; the rest of `t1` and `t2`
      stays as it was. */
  lemma ReplaceChoice(s: ArcState, page: int)
    requires Lists(s) && DirtyOk(s) && !Cached(s, page)
    ensures var r := Replace(s, page);
            var fromT1 := |s.t1| > 0 && (|s.t1| > s.p || (page in s.b2 && |s.t1| == s.p));
            && (r == s <==> !fromT1 && |s.t2| == 0)
            && (r != s ==>
                  var v := if fromT1 then s.t1[0] else s.t2[0];
                  && Cached(s, v) && !Cached(r, v) && r.dirty == s.dirty - {v}
                  && (if fromT1 then r.b1 == s.b1 + [v] && r.b2 == s.b2 else r.b2 == s.b2 + [v] && r.b1 == s.b1)
                  && (if fromT1 then r.t1 == s.t1[1..] && r.t2 == s.t2 else r.t1 == s.t1 && r.t2 == s.t2[1..])
                  && r.p == s.p && r.stats.faults == s.stats.faults
                  && |r.t1| + |r.t2| == |s.t1| + |s.t2| - 1
                  && r.stats.writes == s.stats.writes + (if v in s.dirty then 1 else 0))
  {
    var fromT1 := |s.t1| > 0 && (|s.t1| > s.p || (page in s.b2 && |s.t1| == s.p));
    if fromT1 {
      assert |Replace(s, page).t1| < |s.t1|;
      PopFacts(s.t1);
      assert s.t1[0] in Elems(s.t1);
    } else if |s.t2| > 0 {
      assert |Replace(s, page).t2| < |s.t2|;
      PopFacts(s.t2);
      assert s.t2[0] in Elems(s.t2);
    }
  }

  /** The dirty map across one access: a write leaves the page with a
      `true` entry, a read neither adds nor removes the page's entry, and
      no other page gains one. */
  lemma DirtyFlags(frames: nat, trace: seq<Access>, n: nat)
    requires n < |trace|
    ensures var s, s', a := Replay(frames, trace, n), Replay(frames, trace, n + 1), trace[n];
            && (a.isWrite ==> a.page in s'.dirty && s'.dirty[a.page])
            && (!a.isWrite ==> (a.page in s'.dirty <==> a.page in s.dirty))
            && (forall q :: q in s'.dirty && q != a.page ==> q in s.dirty)
            && (forall q :: q in s.dirty && q != a.page && Cached(s', q) ==> q in s'.dirty)
  {
    var s, a := Replay(frames, trace, n), trace[n];
    Invariant(frames, trace, n);
    if !Cached(s, a.page) {
      assert a.page !in s.dirty by { assert a.page !in Elems(s.t1) + Elems(s.t2); }
      if a.page in s.b1 {
        ReplaceChoice(s.(p := Grow(s, frames)), a.page);
      } else if a.page in s.b2 {
        ReplaceChoice(s.(p := Shrink(s)), a.page);
      } else if |s.t1| + |s.t2| == frames {
        ReplaceChoice(s.(stats := Fault(s.stats)), a.page);
      }
    }
  }

  /** With one frame, a dirty page evicted by the next miss is written
      back. */
  lemma OneFrameWriteBack()
    ensures Replay(1, [Access(1, true), Access(2, false)], 2).stats == Stats(2, 2, 1)
  {
    var t := [Access(1, true), Access(2, false)];
    assert Replay(1, t, 1) == ArcState([1], [], [], [], map[1 := true], 0, Stats(1, 1, 0));
  }

  /** The trace of `OverCapacity`. */
  const Reads := [Access(1, false), Access(2, false), Access(3, false), Access(1, false),
                  Access(2, false), Access(4, false), Access(5, false)]

  /** One more access of a replay whose state is known. */
  lemma ReplayNext(frames: nat, trace: seq<Access>, n: nat, s: ArcState, a: Access, s': ArcState)
    requires n < |trace| && Replay(frames, trace, n) == s && trace[n] == a && Step(frames, s, a) == s'
    ensures Replay(frames, trace, n + 1) == s'
  {
  }

  /** The first four accesses of `Reads`, one at a time. */
  lemma ReadsFirstSteps()
    ensures Step(2, Start, Access(1, false))
            == ArcState([1], [], [], [], map[], 0, Stats(1, 1, 0))
    ensures Step(2, ArcState([1], [], [], [], map[], 0, Stats(1, 1, 0)), Access(2, false))
            == ArcState([1, 2], [], [], [], map[], 0, Stats(2, 2, 0))
    ensures Step(2, ArcState([1, 2], [], [], [], map[], 0, Stats(2, 2, 0)), Access(3, false))
            == ArcState([2, 3], [], [1], [], map[], 0, Stats(3, 3, 0))
    ensures Step(2, ArcState([2, 3], [], [1], [], map[], 0, Stats(3, 3, 0)), Access(1, false))
            == ArcState([3], [1], [2], [], map[], 1, Stats(4, 4, 0))
  {
  }

  /** The last three accesses of `Reads`, one at a time. */
  lemma ReadsLastSteps()
    ensures Step(2, ArcState([3], [1], [2], [], map[], 1, Stats(4, 4, 0)), Access(2, false))
            == ArcState([3], [2], [], [1], map[], 2, Stats(5, 5, 0))
    ensures Step(2, ArcState([3], [2], [], [1], map[], 2, Stats(5, 5, 0)), Access(4, false))
            == ArcState([3, 4], [], [], [1, 2], map[], 2, Stats(6, 6, 0))
    ensures Step(2, ArcState([3, 4], [], [], [1, 2], map[], 2, Stats(6, 6, 0)), Access(5, false))
            == ArcState([3, 4, 5], [], [], [1, 2], map[], 2, Stats(7, 7, 0))
  {
  }

  lemma ReadsPrefix(t: seq<Access>)
    requires t == Reads
    ensures Replay(2, t, 4) == ArcState([3], [1], [2], [], map[], 1, Stats(4, 4, 0))
  {
    ReadsFirstSteps();
    ReplayNext(2, t, 0, Start, Access(1, false), ArcState([1], [], [], [], map[], 0, Stats(1, 1, 0)));
    ReplayNext(2, t, 1, ArcState([1], [], [], [], map[], 0, Stats(1, 1, 0)), Access(2, false), ArcState([1, 2], [], [], [], map[], 0, Stats(2, 2, 0)));
    ReplayNext(2, t, 2, ArcState([1, 2], [], [], [], map[], 0, Stats(2, 2, 0)), Access(3, false), ArcState([2, 3], [], [1], [], map[], 0, Stats(3, 3, 0)));
    ReplayNext(2, t, 3, ArcState([2, 3], [], [1], [], map[], 0, Stats(3, 3, 0)), Access(1, false), ArcState([3], [1], [2], [], map[], 1, Stats(4, 4, 0)));
  }

  /** With two frames, reading 1, 2, 3, 1, 2, 4, 5 ends with three pages in
      `t1`: the eviction before the last admission finds `t1` not over its
      target and `t2` empty, and does nothing. */
  lemma OverCapacity(t: seq<Access>)
    requires t == Reads
    ensures var s := Replay(2, t, 7);
            s.t1 == [3, 4, 5] && s.t2 == [] && |s.t1| + |s.t2| > 2
  {
    ReadsPrefix(t);
    ReadsLastSteps();
    ReplayNext(2, t, 4, ArcState([3], [1], [2], [], map[], 1, Stats(4, 4, 0)), Access(2, false), ArcState([3], [2], [], [1], map[], 2, Stats(5, 5, 0)));
    ReplayNext(2, t, 5, ArcState([3], [2], [], [1], map[], 2, Stats(5, 5, 0)), Access(4, false), ArcState([3, 4], [], [], [1, 2], map[], 2, Stats(6, 6, 0)));
    ReplayNext(2, t, 6, ArcState([3, 4], [], [], [1, 2], map[], 2, Stats(6, 6, 0)), Access(5, false), ArcState([3, 4, 5], [], [], [1, 2], map[], 2, Stats(7, 7, 0)));
  }

  class Arc {
    const base: PageReplacementAlgorithm
    var p: int

    constructor (frames: nat)
      ensures fresh(base) && base.frames == frames && base.Counters() == Zero && p == 0
    {
      base := new PageReplacementAlgorithm(frames);
      p := 0;
    }

    /** The eviction on behalf of `page`, on the lists of `Run`; a dirty
        victim costs a write in `base`. */
    method Evict(page: int, t1: seq<int>, t2: seq<int>, b1: seq<int>, b2: seq<int>, dirty: map<int, bool>)
      returns (t1': seq<int>, t2': seq<int>, b1': seq<int>, b2': seq<int>, dirty': map<int, bool>)
      modifies base
      ensures ArcState(t1', t2', b1', b2', dirty', p, base.Counters())
              == Replace(ArcState(t1, t2, b1, b2, dirty, p, old(base.Counters())), page)
    {
      t1', t2', b1', b2', dirty' := t1, t2, b1, b2, dirty;
      if |t1'| > 0 && (|t1'| > p || (page in b2' && |t1'| == p)) {
        var victim := t1'[0];
        t1' := t1'[1..];
        b1' := b1' + [victim];
        if victim in dirty' && dirty'[victim] {
          base.writes := base.writes + 1;
        }
        dirty' := dirty' - {victim};
      } else if |t2'| > 0 {
        var victim := t2'[0];
        t2' := t2'[1..];
        b2' := b2' + [victim];
        if victim in dirty' && dirty'[victim] {
          base.writes := base.writes + 1;
        }
        dirty' := dirty' - {victim};
      }
    }

    /** Replays `trace` from empty lists, `p` = 0 and zeroed counters and
        returns the counters. */
    method Run(trace: seq<Access>) returns (faults: nat, interrupts: nat, writes: nat)
      modifies this, base
      ensures Stats(faults, interrupts, writes) == base.Counters()
      ensures base.Counters() == Replay(base.frames, trace, |trace|).stats
      ensures p == Replay(base.frames, trace, |trace|).p
    {
      base.Reset();
      var t1: seq<int>, t2: seq<int> := [], [];
      var b1: seq<int>, b2: seq<int> := [], [];
      var dirty: map<int, bool> := map[];
      p := 0;
      for i := 0 to |trace|
        invariant ArcState(t1, t2, b1, b2, dirty, p, base.Counters()) == Replay(base.frames, trace, i)
      {
        ghost var s := ArcState(t1, t2, b1, b2, dirty, p, base.Counters());
        var page, isWrite := trace[i].page, trace[i].isWrite;
        if page in t1 || page in t2 {
          t1, t2, dirty := ServeHit(s, page, isWrite, t1, t2, dirty);
        } else if page in b1 || page in b2 {
          t1, t2, b1, b2, dirty := ServeGhostHit(s, page, isWrite, t1, t2, b1, b2, dirty);
        } else {
          t1, t2, b1, b2, dirty := ServeMiss(s, page, isWrite, t1, t2, b1, b2, dirty);
        }
      }
      faults, interrupts, writes := base.faults, base.interrupts, base.writes;
    }

    /** A hit (the source's `continue` after it): the lists of `Run` and
        the dirty map change; `p` and the counters do not. */
    method ServeHit(ghost s: ArcState, page: int, isWrite: bool,
                    t1: seq<int>, t2: seq<int>, dirty: map<int, bool>)
      returns (t1': seq<int>, t2': seq<int>, dirty': map<int, bool>)
      requires page in t1 || page in t2
      requires s == ArcState(t1, t2, s.b1, s.b2, dirty, s.p, s.stats)
      ensures ArcState(t1', t2', s.b1, s.b2, dirty', s.p, s.stats) == OnHit(s, Access(page, isWrite))
    {
      t1', t2', dirty' := t1, t2, dirty;
      if page in t1' {
        t1' := Remove(t1', page);
        t2' := t2' + [page];
      } else if page in t2' {
        t2' := Remove(t2', page);
        t2' := t2' + [page];
      }
      if isWrite {
        dirty' := dirty'[page := true];
      }
    }

    /** A hit in `b1` or `b2`: adapt `p`, evict, bring the page back into
        `t2` and count the fault. */
    method ServeGhostHit(ghost s: ArcState, page: int, isWrite: bool,
                         t1: seq<int>, t2: seq<int>, b1: seq<int>, b2: seq<int>, dirty: map<int, bool>)
      returns (t1': seq<int>, t2': seq<int>, b1': seq<int>, b2': seq<int>, dirty': map<int, bool>)
      requires page in b1 || page in b2
      requires s == ArcState(t1, t2, b1, b2, dirty, p, base.Counters())
      modifies this, base
      ensures ArcState(t1', t2', b1', b2', dirty', p, base.Counters()) == OnGhostHit(base.frames, s, Access(page, isWrite))
    {
      t1', t2', b1', b2', dirty' := t1, t2, b1, b2, dirty;
      if page in b1' {
        p := Min(p + Max(1, |b2'| / Max(1, |b1'|)), base.frames);
        t1', t2', b1', b2', dirty' := Evict(page, t1', t2', b1', b2', dirty');
        b1' := Remove(b1', page);
      } else {
        p := Max(p - Max(1, |b1'| / Max(1, |b2'|)), 0);
        t1', t2', b1', b2', dirty' := Evict(page, t1', t2', b1', b2', dirty');
        b2' := Remove(b2', page);
      }
      t2' := t2' + [page];
      if isWrite {
        dirty' := dirty'[page := true];
      }
      base.faults := base.faults + 1;
      base.interrupts := base.interrupts + 1;
    }

    /** A page in no list: count the fault, evict when `t1` and `t2`
        together hold `frames` pages, and append the page to `t1`. */
    method ServeMiss(ghost s: ArcState, page: int, isWrite: bool,
                     t1: seq<int>, t2: seq<int>, b1: seq<int>, b2: seq<int>, dirty: map<int, bool>)
      returns (t1': seq<int>, t2': seq<int>, b1': seq<int>, b2': seq<int>, dirty': map<int, bool>)
      requires s == ArcState(t1, t2, b1, b2, dirty, p, base.Counters())
      modifies base
      ensures ArcState(t1', t2', b1', b2', dirty', p, base.Counters()) == OnMiss(base.frames, s, Access(page, isWrite))
    {
      t1', t2', b1', b2', dirty' := t1, t2, b1, b2, dirty;
      base.faults := base.faults + 1;
      base.interrupts := base.interrupts + 1;
      if |t1'| + |t2'| == base.frames {
        t1', t2', b1', b2', dirty' := Evict(page, t1', t2', b1', b2', dirty');
      }
      if |t1'| + |t2'| < base.frames {
        t1' := t1' + [page];
      } else {
        t1' := t1' + [page];
      }
      if isWrite {
        dirty' := dirty'[page := true];
      }
    }

  }

  /** A second run on the same object returns what the first returned. */
  method RunTwice(frames: nat, trace: seq<Access>) returns (first: Stats, second: Stats)
    ensures first == second
    ensures Balanced(first) && first.faults <= |trace|
  {
    var policy := new Arc(frames);
    var f, i, w := policy.Run(trace);
    first := Stats(f, i, w);
    f, i, w := policy.Run(trace);
    second := Stats(f, i, w);
    Invariant(frames, trace, |trace|);
    FaultsAreMisses(frames, trace, |trace|);
    MissedBound(frames, trace, |trace|);
  }
}
