/** Sharing ids between temporary variables that are not needed at the same time. */
module TemporaryReuse {
  import Matching

  /**
    What the reuse works on: the evaluation queue, which of its variables are temporaries, and the
    order of the last statement that reads each node.
   */
  datatype Uses = Uses(queue: seq<nat>, dependents: seq<nat>, lastUse: seq<nat>)
  {
    ghost predicate Valid() {
      && (forall p :: 0 <= p < |queue| ==> queue[p] < |lastUse|)
      && (forall p, q :: 0 <= p < q < |queue| ==> queue[p] != queue[q])
      && (forall p :: 0 <= p < |queue| && queue[p] !in dependents ==> p + 1 < lastUse[queue[p]] <= |queue|)
    }

    predicate Temporary(p: nat)
      requires p < |queue|
    {
      queue[p] !in dependents
    }

    /** The value of temporary p is written before statement i and read by statement i or a later one. */
    ghost predicate Held(p: nat, i: nat)
      requires Valid()
    {
      p < i && p < |queue| && Temporary(p) && lastUse[queue[p]] > i
    }

    /** The temporaries with values that statement i or a later one reads. */
    ghost function LiveBefore(i: nat): set<nat>
      requires Valid()
    {
      set p: nat | p < |queue| && Held(p, i)
    }

    /** The temporaries whose values are kept beyond statement i. */
    ghost function LiveAfter(i: nat): set<nat>
      requires Valid()
    {
      LiveBefore(i + 1)
    }
  }

  /** Two temporaries share an id only if the first is not read after the second is written. */
  ghost predicate NoOverlap(u: Uses, varId: seq<nat>, i: nat)
    requires u.Valid() && |varId| == |u.lastUse| && i <= |u.queue|
  {
    forall p, q :: 0 <= p < q < i && u.Temporary(p) && u.Temporary(q) && varId[u.queue[p]] == varId[u.queue[q]] ==>
      u.lastUse[u.queue[p]] <= q + 1
  }

  /** The number of ids is the largest number of temporaries kept at the same time. */
  ghost predicate Peak(u: Uses, i: nat, ids: nat)
    requires u.Valid()
  {
    && (forall k :: 0 <= k < i ==> |u.LiveAfter(k)| <= ids)
    && (ids == 0 || exists k :: 0 <= k < i && |u.LiveAfter(k)| == ids)
  }

  ghost predicate IdsInRange(u: Uses, i: nat, varId: seq<nat>, minId: nat, idCount: nat)
    requires u.Valid() && |varId| == |u.lastUse| && i <= |u.queue|
  {
    forall p :: 0 <= p < i && u.Temporary(p) ==> minId <= varId[u.queue[p]] < idCount
  }

  /** Temporaries that are still needed have different ids. */
  ghost predicate DistinctIds(u: Uses, i: nat, gone: set<nat>, varId: seq<nat>)
    requires u.Valid() && |varId| == |u.lastUse| && i <= |u.queue|
  {
    forall p, q :: 0 <= p < q < i && u.Held(p, i) && u.Held(q, i) && u.queue[p] !in gone && u.queue[q] !in gone ==>
      varId[u.queue[p]] != varId[u.queue[q]]
  }

  ghost predicate HeldNotFree(u: Uses, i: nat, gone: set<nat>, varId: seq<nat>, free: seq<nat>)
    requires u.Valid() && |varId| == |u.lastUse| && i <= |u.queue|
  {
    forall p :: 0 <= p < i && u.Held(p, i) && u.queue[p] !in gone ==> varId[u.queue[p]] !in free
  }

  ghost predicate FreeIds(free: seq<nat>, minId: nat, idCount: nat) {
    && (forall x, y :: 0 <= x < y < |free| ==> free[x] != free[y])
    && (forall x :: 0 <= x < |free| ==> minId <= free[x] < idCount)
  }

  ghost predicate AllAccounted(u: Uses, i: nat, gone: set<nat>, varId: seq<nat>, free: seq<nat>, minId: nat,
                               idCount: nat)
    requires u.Valid() && |varId| == |u.lastUse| && i <= |u.queue|
  {
    forall id :: minId <= id < idCount ==> id in free || HeldId(u, i, gone, varId, id)
  }

  /**
    Before statement i is given its variable, when the ids of the temporaries in `gone` were already
    released for it: every id is free or belongs to exactly one temporary that is still needed.
   */
  ghost predicate Allocated(u: Uses, i: nat, gone: set<nat>, varId: seq<nat>, free: seq<nat>, minId: nat,
                            idCount: nat)
  {
    && u.Valid() && |varId| == |u.lastUse| && i <= |u.queue| && minId <= idCount
    && IdsInRange(u, i, varId, minId, idCount)
    && DistinctIds(u, i, gone, varId) && HeldNotFree(u, i, gone, varId, free)
    && FreeIds(free, minId, idCount) && AllAccounted(u, i, gone, varId, free, minId, idCount)
    && NoOverlap(u, varId, i)
  }

  ghost predicate HeldId(u: Uses, i: nat, gone: set<nat>, varId: seq<nat>, id: nat)
    requires u.Valid() && |varId| == |u.lastUse| && i <= |u.queue|
  {
    exists p: nat :: p < i && u.Held(p, i) && u.queue[p] !in gone && varId[u.queue[p]] == id
  }

  lemma {:induction false} NothingAllocated(u: Uses, varId: seq<nat>, minId: nat)
    requires u.Valid() && |varId| == |u.lastUse|
    ensures Allocated(u, 0, {}, varId, [], minId, minId) && Peak(u, 0, 0)
  {}

  lemma {:induction false} AllAllocated(u: Uses, varId: seq<nat>, free: seq<nat>, minId: nat, idCount: nat)
    requires Allocated(u, |u.queue|, {}, varId, free, minId, idCount)
    ensures u.Valid() && |varId| == |u.lastUse| && minId <= idCount && NoOverlap(u, varId, |u.queue|)
    ensures forall p :: 0 <= p < |u.queue| && u.Temporary(p) ==> minId <= varId[u.queue[p]] < idCount
  {}

  /** A temporary read for the last time in statement i gives its id back. */
  lemma {:induction false} ReleaseOne(u: Uses, i: nat, gone: set<nat>, varId: seq<nat>, free: seq<nat>, minId: nat,
                                      idCount: nat, p: nat)
    requires Allocated(u, i, gone, varId, free, minId, idCount)
    requires p < i && u.Held(p, i) && u.queue[p] !in gone
    ensures Allocated(u, i, gone + {u.queue[p]}, varId, free + [varId[u.queue[p]]], minId, idCount)
  {
    hide NoOverlap;
    var v := u.queue[p];
    hide IdsInRange;
    assert HeldNotFree(u, i, gone + {v}, varId, free + [varId[v]]) by {
      hide FreeIds, AllAccounted;
    }
    ReleasedAccounted(u, i, gone, varId, free, minId, idCount, p);
    hide FreeIds, HeldNotFree, AllAccounted;
  }

  lemma {:induction false} ReleasedAccounted(u: Uses, i: nat, gone: set<nat>, varId: seq<nat>, free: seq<nat>,
                                             minId: nat, idCount: nat, p: nat)
    requires u.Valid() && |varId| == |u.lastUse| && i <= |u.queue|
    requires AllAccounted(u, i, gone, varId, free, minId, idCount)
    requires p < i && u.Held(p, i) && u.queue[p] !in gone
    ensures AllAccounted(u, i, gone + {u.queue[p]}, varId, free + [varId[u.queue[p]]], minId, idCount)
  {
    var v := u.queue[p];
    var free' := free + [varId[v]];
    assert free'[|free|] == varId[v];
    forall id: nat | minId <= id < idCount && id !in free'
      ensures HeldId(u, i, gone + {v}, varId, id)
    {
      var q: nat :| q < i && u.Held(q, i) && u.queue[q] !in gone && varId[u.queue[q]] == id;
      assert u.queue[q] !in gone + {v};
    }
  }

  /** All temporaries whose last reader is statement i are released. */
  ghost predicate AllReleased(u: Uses, i: nat, gone: set<nat>)
    requires u.Valid()
  {
    forall p: nat :: p < |u.queue| && p < i && u.Temporary(p) ==>
      (u.lastUse[u.queue[p]] == i + 1 <==> u.queue[p] in gone && u.lastUse[u.queue[p]] > i)
  }

  /** Statement i writes a variable that is no temporary. */
  lemma {:induction false} SkipStatement(u: Uses, i: nat, gone: set<nat>, varId: seq<nat>, free: seq<nat>, minId: nat,
                                         idCount: nat)
    requires Allocated(u, i, gone, varId, free, minId, idCount) && AllReleased(u, i, gone)
    requires i < |u.queue| && !u.Temporary(i)
    ensures Allocated(u, i + 1, {}, varId, free, minId, idCount)
  {
    SkipAccounted(u, i, gone, varId, free, minId, idCount);
    assert IdsInRange(u, i + 1, varId, minId, idCount) && NoOverlap(u, varId, i + 1);
    hide NoOverlap, IdsInRange, AllAccounted, AllReleased, FreeIds;
  }

  lemma {:induction false} SkipAccounted(u: Uses, i: nat, gone: set<nat>, varId: seq<nat>, free: seq<nat>, minId: nat,
                                         idCount: nat)
    requires u.Valid() && |varId| == |u.lastUse| && i < |u.queue| && AllReleased(u, i, gone)
    requires AllAccounted(u, i, gone, varId, free, minId, idCount)
    ensures AllAccounted(u, i + 1, {}, varId, free, minId, idCount)
  {
    forall id: nat | minId <= id < idCount && id !in free
      ensures HeldId(u, i + 1, {}, varId, id)
    {
      var q: nat :| q < i && u.Held(q, i) && u.queue[q] !in gone && varId[u.queue[q]] == id;
      assert u.Held(q, i + 1);
    }
  }

  /** Statement i writes a temporary, which takes an id that no kept temporary has. */
  lemma {:induction false} AssignId(u: Uses, i: nat, gone: set<nat>, varId: seq<nat>, free: seq<nat>, minId: nat,
                                    idCount: nat,
                 id: nat, free': seq<nat>, idCount': nat)
    requires Allocated(u, i, gone, varId, free, minId, idCount) && AllReleased(u, i, gone)
    requires i < |u.queue| && u.Temporary(i)
    requires if free == [] then id == idCount && free' == [] && idCount' == idCount + 1
             else id == free[|free| - 1] && free' == free[..|free| - 1] && idCount' == idCount
    ensures Allocated(u, i + 1, {}, varId[u.queue[i] := id], free', minId, idCount')
  {
    AssignHeldIds(u, i, gone, varId, free, minId, idCount, id, free', idCount');
    AssignNoOverlap(u, i, gone, varId, free, minId, idCount, id);
    AssignDistinct(u, i, gone, varId, free, minId, idCount, id, free');
    hide NoOverlap, AllReleased, AllAccounted, DistinctIds, HeldNotFree;
    assert FreeIds(free', minId, idCount');
    hide FreeIds;
  }

  /** Every id is free or held by some temporary. */
  lemma {:induction false} AssignHeldIds(u: Uses, i: nat, gone: set<nat>, varId: seq<nat>, free: seq<nat>, minId: nat,
                                         idCount: nat,
                                         id: nat, free': seq<nat>, idCount': nat)
    requires Allocated(u, i, gone, varId, free, minId, idCount) && AllReleased(u, i, gone)
    requires i < |u.queue| && u.Temporary(i)
    requires if free == [] then id == idCount && free' == [] && idCount' == idCount + 1
             else id == free[|free| - 1] && free' == free[..|free| - 1] && idCount' == idCount
    ensures AllAccounted(u, i + 1, {}, varId[u.queue[i] := id], free', minId, idCount')
  {
    hide NoOverlap, IdsInRange, DistinctIds, HeldNotFree;
    var varId' := varId[u.queue[i] := id];
    forall x: nat | minId <= x < idCount' && x !in free'
      ensures HeldId(u, i + 1, {}, varId', x)
    {
      if x == id {
        assert u.Held(i, i + 1) && varId'[u.queue[i]] == x;
      } else {
        assert x !in free;
        var q: nat :| q < i && u.Held(q, i) && u.queue[q] !in gone && varId[u.queue[q]] == x;
        assert u.Held(q, i + 1) && varId'[u.queue[q]] == x;
      }
    }
  }

  /** No two temporaries that are still needed have the same id, and none has a free one. */
  lemma {:induction false} AssignDistinct(u: Uses, i: nat, gone: set<nat>, varId: seq<nat>, free: seq<nat>, minId: nat,
                                          idCount: nat,
                                          id: nat, free': seq<nat>)
    requires Allocated(u, i, gone, varId, free, minId, idCount) && AllReleased(u, i, gone)
    requires i < |u.queue| && u.Temporary(i)
    requires if free == [] then id == idCount && free' == [] else id == free[|free| - 1] && free' == free[..|free| - 1]
    ensures DistinctIds(u, i + 1, {}, varId[u.queue[i] := id])
    ensures HeldNotFree(u, i + 1, {}, varId[u.queue[i] := id], free')
  {
    hide NoOverlap, AllAccounted;
    var varId' := varId[u.queue[i] := id];
    forall p | 0 <= p < i && u.Held(p, i + 1)
      ensures varId'[u.queue[p]] == varId[u.queue[p]] != id && varId[u.queue[p]] !in free'
    {
      assert u.Held(p, i) && u.queue[p] !in gone;
    }
  }

  lemma {:induction false} AssignNoOverlap(u: Uses, i: nat, gone: set<nat>, varId: seq<nat>, free: seq<nat>, minId: nat,
                                           idCount: nat, id: nat)
    requires Allocated(u, i, gone, varId, free, minId, idCount) && AllReleased(u, i, gone)
    requires i < |u.queue| && u.Temporary(i)
    requires if free == [] then id == idCount else id == free[|free| - 1]
    ensures NoOverlap(u, varId[u.queue[i] := id], i + 1)
  {
    forall p: nat | p < i && u.Temporary(p) && u.lastUse[u.queue[p]] > i + 1
      ensures varId[u.queue[p]] != id
    {
      assert u.Held(p, i) && u.queue[p] !in gone;
    }
  }

  /** The temporaries kept beyond statement i have different ids, and all ids if none is free. */
  lemma {:induction false} CountKept(u: Uses, i: nat, varId: seq<nat>, free: seq<nat>, minId: nat, idCount: nat)
    requires Allocated(u, i + 1, {}, varId, free, minId, idCount)
    ensures |u.LiveAfter(i)| <= idCount - minId
    ensures free == [] ==> |u.LiveAfter(i)| == idCount - minId
  {
    var ids := IdRange(minId, idCount);
    var f := (p: nat) => if p < |u.queue| && u.queue[p] < |varId| then varId[u.queue[p]] else 0;
    var kept := u.LiveAfter(i);
    forall p | p in kept
      ensures f(p) in ids
    {
      KeptId(u, i, varId, free, minId, idCount, p);
    }
    forall p, q | p in kept && q in kept && p != q
      ensures f(p) != f(q)
    {
      KeptApart(u, i, varId, free, minId, idCount, p, q);
    }
    if free == [] {
      forall id | id in ids
        ensures exists p :: p in kept && f(p) == id
      {
        var p := IdIsKept(u, i, varId, minId, idCount, id);
        assert f(p) == id;
      }
    }
    hide Allocated;
    Matching.InjectiveImage(kept, ids, f);
  }

  lemma {:induction false} KeptId(u: Uses, i: nat, varId: seq<nat>, free: seq<nat>, minId: nat, idCount: nat, p: nat)
    requires Allocated(u, i + 1, {}, varId, free, minId, idCount) && p in u.LiveAfter(i)
    ensures p < |u.queue| && u.queue[p] < |varId| && minId <= varId[u.queue[p]] < idCount
  {
    hide NoOverlap, DistinctIds, HeldNotFree, AllAccounted, FreeIds;
  }

  lemma {:induction false} KeptApart(u: Uses, i: nat, varId: seq<nat>, free: seq<nat>, minId: nat, idCount: nat, p: nat,
                                     q: nat)
    requires Allocated(u, i + 1, {}, varId, free, minId, idCount)
    requires p in u.LiveAfter(i) && q in u.LiveAfter(i) && p != q
    ensures p < |u.queue| && q < |u.queue| && u.queue[p] < |varId| && u.queue[q] < |varId|
    ensures varId[u.queue[p]] != varId[u.queue[q]]
  {
    hide NoOverlap, IdsInRange, HeldNotFree, AllAccounted, FreeIds;
  }

  lemma {:induction false} IdIsKept(u: Uses, i: nat, varId: seq<nat>, minId: nat, idCount: nat, id: nat)
    returns (p: nat)
    requires Allocated(u, i + 1, {}, varId, [], minId, idCount) && minId <= id < idCount
    ensures p in u.LiveAfter(i) && p < |u.queue| && u.queue[p] < |varId| && varId[u.queue[p]] == id
  {
    assert HeldId(u, i + 1, {}, varId, id);
    p :| p < i + 1 && u.Held(p, i + 1) && varId[u.queue[p]] == id;
  }

  ghost function IdRange(a: nat, b: nat): (r: set<nat>)
    requires a <= b
    ensures |r| == b - a && forall id: nat :: id in r <==> a <= id < b
  {
    if a == b then {} else IdRange(a, b - 1) + {b - 1}
  }

  /** The peak after one more statement: a new id was issued only because all others were needed. */
  lemma {:induction false} PeakNext(u: Uses, i: nat, varId: seq<nat>, free: seq<nat>, minId: nat, before: nat,
                                    idCount: nat)
    requires u.Valid() && minId <= before <= idCount && Peak(u, i, before - minId)
    requires Allocated(u, i + 1, {}, varId, free, minId, idCount)
    requires before < idCount ==> free == []
    ensures Peak(u, i + 1, idCount - minId)
  {
    CountKept(u, i, varId, free, minId, idCount);
  }

  /** v is a temporary, among the first n queued variables, that statement i reads for the last time. */
  ghost predicate ReleasedBy(u: Uses, n: nat, i: nat, v: nat)
    requires u.Valid() && n <= |u.queue|
  {
    exists p: nat :: p < n && u.Temporary(p) && u.queue[p] == v && u.lastUse[v] == i + 1
  }

  /** The lists of the temporaries, among the first n queued variables, that each statement releases. */
  ghost predicate Releases(u: Uses, n: nat, releases: seq<seq<nat>>)
    requires u.Valid() && n <= |u.queue|
  {
    && |releases| == |u.queue|
    && (forall i: nat,
        v: nat {:trigger v in releases[i]} :: i < |releases| ==> (v in releases[i] <==> ReleasedBy(u, n, i, v)))
    && (forall i, r, t :: 0 <= i < |releases| && 0 <= r < t < |releases[i]| ==> releases[i][r] != releases[i][t])
  }

  lemma {:induction false} ReleasesNext(u: Uses, n: nat, releases: seq<seq<nat>>)
    requires u.Valid() && n < |u.queue| && Releases(u, n, releases)
    ensures !u.Temporary(n) ==> Releases(u, n + 1, releases)
    ensures u.Temporary(n) ==>
      var i: nat := u.lastUse[u.queue[n]] - 1;
      i < |releases| && Releases(u, n + 1, releases[i := releases[i] + [u.queue[n]]])
  {
    forall i: nat, v: nat
      ensures ReleasedBy(u, n + 1, i, v) <==>
        ReleasedBy(u, n, i, v) || (u.Temporary(n) && v == u.queue[n] && u.lastUse[v] == i + 1)
    {}
    if u.Temporary(n) {
      var i: nat := u.lastUse[u.queue[n]] - 1;
      assert u.queue[n] !in releases[i];
    }
  }

  /** The listed variables are in the order of the queue. */
  ghost predicate InQueueOrder(u: Uses, list: seq<nat>) {
    forall r, t, p, q ::
      0 <= r < t < |list| && 0 <= p < |u.queue| && 0 <= q < |u.queue| && u.queue[p] == list[r] && u.queue[q] == list[t]
      ==> p < q
  }

  ghost predicate AllInQueueOrder(u: Uses, releases: seq<seq<nat>>) {
    forall i :: 0 <= i < |releases| ==> InQueueOrder(u, releases[i])
  }

  lemma {:induction false} NothingReleased(u: Uses, releases: seq<seq<nat>>)
    requires forall i :: 0 <= i < |releases| ==> releases[i] == []
    ensures AllInQueueOrder(u, releases)
  {}

  lemma {:induction false} InQueueOrderNext(u: Uses, n: nat, releases: seq<seq<nat>>, i: nat)
    requires u.Valid() && n < |u.queue| && Releases(u, n, releases) && AllInQueueOrder(u, releases) && i < |releases|
    ensures AllInQueueOrder(u, releases[i := releases[i] + [u.queue[n]]])
  {
    var list := releases[i] + [u.queue[n]];
    forall r, t, p, q | 0 <= r < t < |list| && 0 <= p < |u.queue| && 0 <= q < |u.queue|
      && u.queue[p] == list[r] && u.queue[q] == list[t]
      ensures p < q
    {
      assert InQueueOrder(u, releases[i]);
      assert list[r] in releases[i] && ReleasedBy(u, n, i, list[r]);
    }
    assert InQueueOrder(u, list);
    hide InQueueOrder;
  }

  ghost function Elements(s: seq<nat>): set<nat> {
    set v | v in s
  }

  /** Node v is a temporary that is still needed before statement i. */
  ghost predicate HeldNode(u: Uses, i: nat, v: nat)
    requires u.Valid()
  {
    exists p: nat :: p < i && u.Held(p, i) && u.queue[p] == v
  }

  /** Before the first release of statement i, and after the last one. */
  lemma {:induction false} ReleaseList(u: Uses, i: nat, releases: seq<seq<nat>>, varId: seq<nat>, free: seq<nat>,
                                       minId: nat, idCount: nat)
    requires u.Valid() && i < |u.queue| && Releases(u, |u.queue|, releases)
    requires Allocated(u, i, {}, varId, free, minId, idCount)
    ensures AllReleased(u, i, Elements(releases[i]))
    ensures i < |releases|
    ensures forall r :: 0 <= r < |releases[i]| ==> HeldNode(u, i, releases[i][r])
    ensures forall r :: 0 <= r < |releases[i]| ==>
      releases[i][r] < |u.lastUse| && u.lastUse[releases[i][r]] == i + 1
    ensures forall r, t :: 0 <= r < t < |releases[i]| ==> releases[i][r] != releases[i][t]
  {
    forall r | 0 <= r < |releases[i]|
      ensures HeldNode(u, i, releases[i][r])
    {
      assert releases[i][r] in releases[i];
      var p: nat :| p < |u.queue| && u.Temporary(p) && u.queue[p] == releases[i][r] && u.lastUse[u.queue[p]] == i + 1;
      assert u.Held(p, i);
    }
    forall p: nat | p < i && u.Temporary(p)
      ensures u.lastUse[u.queue[p]] == i + 1 <==> u.queue[p] in releases[i]
    {
      assert u.queue[p] in releases[i] <==> ReleasedBy(u, |u.queue|, i, u.queue[p]);
    }
  }

  /** The ids of everything but the temporaries are the same. */
  ghost predicate OtherIdsKept(u: Uses, before: seq<nat>, after: seq<nat>) {
    |after| == |before| &&
    forall n :: 0 <= n < |before| && (n !in u.queue || n in u.dependents) ==> after[n] == before[n]
  }

  // ---------------------------------------------------------------------------------------------
  // Which of the free ids is taken

  /** Of the temporaries before statement i with the id of h, h is the last one. */
  ghost predicate IsLastHolder(u: Uses, varId: seq<nat>, i: nat, h: nat)
    requires u.Valid() && |varId| == |u.lastUse|
  {
    && h < i && h < |u.queue| && u.Temporary(h)
    && forall r: nat :: h < r < i && r < |u.queue| && u.Temporary(r) ==> varId[u.queue[r]] != varId[u.queue[h]]
  }

  /** Temporary q was released before h: by an earlier statement, or by the same one and queued earlier. */
  ghost predicate ReleasedBefore(u: Uses, q: nat, h: nat)
    requires u.Valid() && q < |u.queue| && h < |u.queue|
  {
    u.lastUse[u.queue[q]] < u.lastUse[u.queue[h]] || (u.lastUse[u.queue[q]] == u.lastUse[u.queue[h]] && q < h)
  }

  /** The id of temporary q is free for statement p: its last holder is not read by a later statement. */
  ghost predicate IsFree(u: Uses, varId: seq<nat>, p: nat, q: nat)
    requires u.Valid() && |varId| == |u.lastUse|
  {
    IsLastHolder(u, varId, p, q) && u.lastUse[u.queue[q]] <= p + 1
  }

  /** If there are free ids for statement p, it takes the one that was released last. */
  ghost predicate TakesLatest(u: Uses, varId: seq<nat>, p: nat)
    requires u.Valid() && |varId| == |u.lastUse| && p < |u.queue|
  {
    forall q: nat :: IsFree(u, varId, p, q) ==> exists h: nat :: IsTakenFrom(u, varId, p, q, h)
  }

  /** Statement p takes the id of temporary h, which is free and was not released before the one of q. */
  ghost predicate IsTakenFrom(u: Uses, varId: seq<nat>, p: nat, q: nat, h: nat)
    requires u.Valid() && |varId| == |u.lastUse| && p < |u.queue| && q < |u.queue|
  {
    IsFree(u, varId, p, h) && varId[u.queue[h]] == varId[u.queue[p]] && (h == q || ReleasedBefore(u, q, h))
  }

  ghost predicate AllTakeLatest(u: Uses, varId: seq<nat>, i: nat) {
    && u.Valid() && |varId| == |u.lastUse| && i <= |u.queue|
    && forall p: nat :: p < i && u.Temporary(p) ==> TakesLatest(u, varId, p)
  }

  /** The free ids lie on a stack in the order in which their last holders were released. */
  ghost predicate Stacked(u: Uses, varId: seq<nat>, i: nat, gone: set<nat>, free: seq<nat>, holders: seq<nat>) {
    && u.Valid() && |varId| == |u.lastUse| && i <= |u.queue| && |holders| == |free|
    && (forall x :: 0 <= x < |holders| ==>
          && IsLastHolder(u, varId, i, holders[x]) && varId[u.queue[holders[x]]] == free[x]
          && (u.lastUse[u.queue[holders[x]]] <= i || u.queue[holders[x]] in gone))
    && (forall x, y :: 0 <= x < y < |holders| ==>
          holders[x] < |u.queue| && holders[y] < |u.queue| && ReleasedBefore(u, holders[x], holders[y]))
  }

  /** The temporaries released so far by statement i are queued before p. */
  ghost predicate ReleasedUpTo(u: Uses, i: nat, gone: set<nat>, p: nat)
    requires u.Valid()
  {
    forall q: nat :: q < |u.queue| && u.queue[q] in gone ==> u.lastUse[u.queue[q]] == i + 1 && q < p
  }

  lemma {:induction false} NothingStacked(u: Uses, varId: seq<nat>)
    requires u.Valid() && |varId| == |u.lastUse|
    ensures Stacked(u, varId, 0, {}, [], []) && AllTakeLatest(u, varId, 0)
  {}

  lemma {:induction false} StackRelease(u: Uses, i: nat, gone: set<nat>, varId: seq<nat>, free: seq<nat>,
                                        holders: seq<nat>, minId: nat, idCount: nat, p: nat)
    requires Allocated(u, i, gone, varId, free, minId, idCount) && Stacked(u, varId, i, gone, free, holders)
    requires p < i && u.Held(p, i) && u.lastUse[u.queue[p]] == i + 1 && ReleasedUpTo(u, i, gone, p)
    ensures Stacked(u, varId, i, gone + {u.queue[p]}, free + [varId[u.queue[p]]], holders + [p])
  {
    hide IdsInRange, DistinctIds, HeldNotFree, FreeIds, AllAccounted;
    assert IsLastHolder(u, varId, i, p);
    hide NoOverlap;
    forall x | 0 <= x < |holders|
      ensures ReleasedBefore(u, holders[x], p)
    {
      assert IsLastHolder(u, varId, i, holders[x]);
    }
    hide IsLastHolder;
  }

  lemma {:induction false} FreeIsNotHeld(u: Uses, i: nat, gone: set<nat>, varId: seq<nat>, free: seq<nat>, minId: nat,
                                         idCount: nat, q: nat)
    requires Allocated(u, i, gone, varId, free, minId, idCount) && AllReleased(u, i, gone) && IsFree(u, varId, i, q)
    ensures !HeldId(u, i, gone, varId, varId[u.queue[q]])
  {
    hide DistinctIds, HeldNotFree, FreeIds, AllAccounted;
    forall h: nat | h < i && u.Held(h, i) && u.queue[h] !in gone
      ensures varId[u.queue[h]] != varId[u.queue[q]]
    {}
  }

  lemma {:induction false} NothingReleasedYet(released: seq<nat>)
    ensures Elements(released[..0]) == {}
  {}

  lemma {:induction false} StackSize(u: Uses, varId: seq<nat>, i: nat, gone: set<nat>, free: seq<nat>,
                                     holders: seq<nat>)
    requires Stacked(u, varId, i, gone, free, holders)
    ensures |holders| == |free|
  {}

  lemma {:induction false} EarlierReleases(u: Uses, i: nat, released: seq<nat>, r: nat, p: nat)
    requires u.Valid() && r < |released| && p < |u.queue| && u.queue[p] == released[r] && InQueueOrder(u, released)
    requires forall r :: 0 <= r < |released| ==> released[r] < |u.lastUse| && u.lastUse[released[r]] == i + 1
    ensures ReleasedUpTo(u, i, Elements(released[..r]), p)
  {}

  /** One more temporary gives its id back. */
  lemma {:induction false} ReleaseNext(u: Uses, i: nat, released: seq<nat>, r: nat, varId: seq<nat>, free: seq<nat>,
                                       holders: seq<nat>, minId: nat, idCount: nat)
    returns (p: nat)
    requires r < |released| && Allocated(u, i, Elements(released[..r]), varId, free, minId, idCount)
    requires Stacked(u, varId, i, Elements(released[..r]), free, holders) && InQueueOrder(u, released)
    requires HeldNode(u, i, released[r])
    requires forall r :: 0 <= r < |released| ==> released[r] < |u.lastUse| && u.lastUse[released[r]] == i + 1
    requires forall r, t :: 0 <= r < t < |released| ==> released[r] != released[t]
    ensures released[r] < |varId|
    ensures Allocated(u, i, Elements(released[..r + 1]), varId, free + [varId[released[r]]], minId, idCount)
    ensures Stacked(u, varId, i, Elements(released[..r + 1]), free + [varId[released[r]]], holders + [p])
  {
    p :| p < i && u.Held(p, i) && u.queue[p] == released[r];
    EarlierReleases(u, i, released, r, p);
    hide InQueueOrder, NoOverlap, Stacked, ReleasedUpTo, IdsInRange, DistinctIds, HeldNotFree, FreeIds, AllAccounted;
    var gone := Elements(released[..r]);
    assert released[..r + 1] == released[..r] + [released[r]];
    assert Elements(released[..r + 1]) == gone + {released[r]};
    assert released[r] !in released[..r];
    StackRelease(u, i, gone, varId, free, holders, minId, idCount, p);
    ReleaseOne(u, i, gone, varId, free, minId, idCount, p);
  }

  /** The last holder of a free id is on the stack. */
  lemma {:induction false} FreeIsStacked(u: Uses, i: nat, gone: set<nat>, varId: seq<nat>, free: seq<nat>,
                                         holders: seq<nat>, minId: nat, idCount: nat, q: nat)
    returns (x: nat)
    requires Allocated(u, i, gone, varId, free, minId, idCount) && AllReleased(u, i, gone)
    requires Stacked(u, varId, i, gone, free, holders) && IsFree(u, varId, i, q)
    ensures x < |free| && free[x] == varId[u.queue[q]] && holders[x] == q
  {
    var id := varId[u.queue[q]];
    FreeIsNotHeld(u, i, gone, varId, free, minId, idCount, q);
    hide DistinctIds, HeldNotFree, FreeIds, HeldId;
    assert id in free;
    hide NoOverlap, AllAccounted, IdsInRange, AllReleased;
    x :| 0 <= x < |free| && free[x] == id;
    assert IsLastHolder(u, varId, i, holders[x]);
  }

  lemma {:induction false} StackSkip(u: Uses, i: nat, gone: set<nat>, varId: seq<nat>, free: seq<nat>,
                                     holders: seq<nat>)
    requires u.Valid() && |varId| == |u.lastUse| && i < |u.queue| && AllReleased(u, i, gone) && !u.Temporary(i)
    requires Stacked(u, varId, i, gone, free, holders) && AllTakeLatest(u, varId, i)
    ensures Stacked(u, varId, i + 1, {}, free, holders) && AllTakeLatest(u, varId, i + 1)
  {
    hide TakesLatest;
    forall x | 0 <= x < |holders|
      ensures IsLastHolder(u, varId, i + 1, holders[x]) && u.lastUse[u.queue[holders[x]]] <= i + 1
    {
      assert IsLastHolder(u, varId, i, holders[x]);
    }
    hide IsLastHolder;
  }

  /** Statement i takes the id on top of the stack. */
  lemma {:induction false} StackAssign(u: Uses, i: nat, gone: set<nat>, varId: seq<nat>, free: seq<nat>,
                                       holders: seq<nat>, minId: nat, idCount: nat, id: nat)
    requires Allocated(u, i, gone, varId, free, minId, idCount) && AllReleased(u, i, gone)
    requires i < |u.queue| && u.Temporary(i)
    requires Stacked(u, varId, i, gone, free, holders) && AllTakeLatest(u, varId, i)
    requires if free == [] then id == idCount else id == free[|free| - 1]
    ensures var varId' := varId[u.queue[i] := id];
      && AllTakeLatest(u, varId', i + 1)
      && if free == [] then Stacked(u, varId', i + 1, {}, [], [])
         else Stacked(u, varId', i + 1, {}, free[..|free| - 1], holders[..|free| - 1])
  {
    var varId' := varId[u.queue[i] := id];
    forall p: nat | p <= i && u.Temporary(p)
      ensures TakesLatest(u, varId', p)
    {
      if p < i {
        LatestKept(u, varId, i, id, p);
      } else {
        TopIsLatest(u, i, gone, varId, free, holders, minId, idCount, id);
      }
    }
    hide TakesLatest;
    if free != [] {
      RestStacked(u, i, gone, varId, free, holders, minId, idCount);
    }
  }

  /** What statement i takes does not matter for earlier ones. */
  lemma {:induction false} LatestKept(u: Uses, varId: seq<nat>, i: nat, id: nat, p: nat)
    requires u.Valid() && |varId| == |u.lastUse| && p < i < |u.queue| && u.Temporary(p) && AllTakeLatest(u, varId, i)
    ensures TakesLatest(u, varId[u.queue[i] := id], p)
  {
    assert TakesLatest(u, varId, p);
    var varId' := varId[u.queue[i] := id];
    forall q: nat
      ensures IsFree(u, varId', p, q) <==> IsFree(u, varId, p, q)
    {}
    forall q: nat | IsFree(u, varId', p, q)
      ensures exists h: nat :: IsTakenFrom(u, varId', p, q, h)
    {
      var h: nat :| IsTakenFrom(u, varId, p, q, h);
      assert IsTakenFrom(u, varId', p, q, h);
    }
  }

  lemma {:induction false} TopIsLatest(u: Uses, i: nat, gone: set<nat>, varId: seq<nat>, free: seq<nat>,
                                       holders: seq<nat>, minId: nat, idCount: nat, id: nat)
    requires Allocated(u, i, gone, varId, free, minId, idCount) && AllReleased(u, i, gone)
    requires i < |u.queue| && u.Temporary(i) && Stacked(u, varId, i, gone, free, holders)
    requires if free == [] then id == idCount else id == free[|free| - 1]
    ensures TakesLatest(u, varId[u.queue[i] := id], i)
  {
    var varId' := varId[u.queue[i] := id];
    forall q: nat
      ensures IsFree(u, varId', i, q) <==> IsFree(u, varId, i, q)
    {}
    forall q: nat | IsFree(u, varId', i, q)
      ensures exists h: nat :: IsTakenFrom(u, varId', i, q, h)
    {
      var x := FreeIsStacked(u, i, gone, varId, free, holders, minId, idCount, q);
      var h := holders[|holders| - 1];
      hide Allocated, IsLastHolder;
      TopIsFree(u, i, gone, varId, free, holders);
      assert IsTakenFrom(u, varId', i, q, h);
    }
  }

  lemma {:induction false} TopIsFree(u: Uses, i: nat, gone: set<nat>, varId: seq<nat>, free: seq<nat>,
                                     holders: seq<nat>)
    requires u.Valid() && |varId| == |u.lastUse| && i < |u.queue| && AllReleased(u, i, gone)
    requires Stacked(u, varId, i, gone, free, holders) && free != []
    ensures IsFree(u, varId, i, holders[|holders| - 1])
    ensures varId[u.queue[holders[|holders| - 1]]] == free[|free| - 1]
  {
    assert IsLastHolder(u, varId, i, holders[|holders| - 1]);
  }

  lemma {:induction false} RestStacked(u: Uses, i: nat, gone: set<nat>, varId: seq<nat>, free: seq<nat>,
                                       holders: seq<nat>, minId: nat, idCount: nat)
    requires Allocated(u, i, gone, varId, free, minId, idCount) && AllReleased(u, i, gone)
    requires i < |u.queue| && u.Temporary(i) && Stacked(u, varId, i, gone, free, holders) && free != []
    ensures Stacked(u, varId[u.queue[i] := free[|free| - 1]], i + 1, {}, free[..|free| - 1], holders[..|free| - 1])
  {
    hide DistinctIds, HeldNotFree, AllAccounted, IdsInRange, NoOverlap;
    var id := free[|free| - 1];
    var varId' := varId[u.queue[i] := id];
    forall x | 0 <= x < |free| - 1
      ensures IsLastHolder(u, varId', i + 1, holders[x]) && varId'[u.queue[holders[x]]] == free[x]
      ensures u.lastUse[u.queue[holders[x]]] <= i + 1
    {
      assert IsLastHolder(u, varId, i, holders[x]);
      assert free[x] != id;
    }
    hide IsLastHolder;
  }
}
