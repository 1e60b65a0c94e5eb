/** Which backups a retention limit leaves, locally and on the remote drive. */
module Retention {
  /** A valid backup record. `managed` says that its file is one this program may delete. */
  datatype Record = Record(id: nat, managed: bool, size: nat)

  ghost predicate UniqueIds(records: seq<Record>) {
    forall i, j :: 0 <= i < j < |records| ==> records[i].id != records[j].id
  }

  // ---- Local retention ----

  predicate Protects(preserved: set<nat>, r: Record) {
    r.managed && r.id in preserved
  }

  predicate Expendable(preserved: set<nat>, r: Record) {
    r.managed && r.id !in preserved
  }

  function CountProtected(records: seq<Record>, preserved: set<nat>): nat {
    if records == [] then 0
    else CountProtected(records[..|records| - 1], preserved) + if Protects(preserved, records[|records| - 1]) then 1 else 0
  }

  function CountExpendable(records: seq<Record>, preserved: set<nat>): nat {
    if records == [] then 0
    else CountExpendable(records[..|records| - 1], preserved) + if Expendable(preserved, records[|records| - 1]) then 1 else 0
  }

  /** Records are listed newest first. One survives if it is not managed, is protected, or, with the
      protected ones and the newer ones before it, still fits the limit. */
  predicate Survives(records: seq<Record>, limit: nat, preserved: set<nat>, i: nat)
    requires i < |records|
  {
    Expendable(preserved, records[i]) ==> CountProtected(records, preserved) + CountExpendable(records[..i], preserved) < limit
  }

  /** The survivors among the first `n` records. */
  function Survivors(records: seq<Record>, limit: nat, preserved: set<nat>, n: nat): seq<Record>
    requires n <= |records|
  {
    if n == 0 then []
    else
      Survivors(records, limit, preserved, n - 1) +
      if Survives(records, limit, preserved, n - 1) then [records[n - 1]] else []
  }

  /** The local table, newest record first. */
  class LocalTable {
    var records: seq<Record>

    constructor (records: seq<Record>)
      ensures this.records == records
    {
      this.records := records;
    }

    /** `apply_local_retention`: keep the protected records, then the newest ones up to the limit, and
        delete the rest. */
    method ApplyRetention(limit: nat, preserved: set<nat>)
      requires UniqueIds(records)
      modifies this
      ensures records == Survivors(old(records), limit, preserved, |old(records)|)
    {
      hide Kept, Survives, CountProtected, CountExpendable;
      var kept := KeptIds(records, limit, preserved);
      var left: seq<Record> := [];
      for i := 0 to |records|
        invariant records == old(records) && left == Survivors(records, limit, preserved, i)
      {
        KeptMeans(records, limit, preserved, kept, i);
        if !records[i].managed || records[i].id in kept {
          left := left + [records[i]];
        }
      }
      records := left;
    }
  }

  /** The two loops that fill `kept`. */
  method KeptIds(records: seq<Record>, limit: nat, preserved: set<nat>) returns (kept: set<nat>)
    requires UniqueIds(records)
    ensures Kept(records, limit, preserved, |records|, kept)
  {
    hide Kept, CountProtected, CountExpendable, Survives;
    kept := {};
    var size := 0;
    PrefixCounts(records, preserved, 0);
    for i := 0 to |records|
      invariant size == CountProtected(records[..i], preserved)
      invariant forall id :: id in kept <==> exists j :: 0 <= j < i && Protects(preserved, records[j]) && records[j].id == id
    {
      PrefixCounts(records, preserved, i + 1);
      if Protects(preserved, records[i]) {
        kept := kept + {records[i].id};
        size := size + 1;
      }
    }
    assert records[..|records|] == records;
    ProtectedAreKept(records, limit, preserved, kept);
    var n := 0;
    while n < |records| && size < limit
      invariant n <= |records| && size == CountProtected(records, preserved) + CountExpendable(records[..n], preserved)
      invariant Kept(records, limit, preserved, n, kept)
    {
      PrefixCounts(records, preserved, n + 1);
      KeepNext(records, limit, preserved, n, kept);
      if records[n].managed && records[n].id !in kept {
        kept := kept + {records[n].id};
        size := size + 1;
      }
      n := n + 1;
    }
    NoneLeft(records, limit, preserved, n, kept);
  }

  lemma ProtectedAreKept(records: seq<Record>, limit: nat, preserved: set<nat>, kept: set<nat>)
    requires UniqueIds(records)
    requires forall id :: id in kept <==> exists j :: 0 <= j < |records| && Protects(preserved, records[j]) && records[j].id == id
    ensures Kept(records, limit, preserved, 0, kept)
  {
    hide Survives;
  }

  lemma KeepNext(records: seq<Record>, limit: nat, preserved: set<nat>, n: nat, kept: set<nat>)
    requires Kept(records, limit, preserved, n, kept) && n < |records|
    requires CountProtected(records, preserved) + CountExpendable(records[..n], preserved) < limit
    ensures records[n].managed ==> (records[n].id in kept <==> Protects(preserved, records[n]))
    ensures Kept(records, limit, preserved, n + 1,
                 if records[n].managed && records[n].id !in kept then kept + {records[n].id} else kept)
  {
    hide CountProtected, CountExpendable;
  }

  lemma KeptMeans(records: seq<Record>, limit: nat, preserved: set<nat>, kept: set<nat>, i: nat)
    requires Kept(records, limit, preserved, |records|, kept) && i < |records|
    ensures !records[i].managed || records[i].id in kept <==> Survives(records, limit, preserved, i)
  {
    hide CountProtected, CountExpendable, UniqueIds;
  }

  /** The ids kept after the second loop has looked at the first `n` records. */
  ghost predicate Kept(records: seq<Record>, limit: nat, preserved: set<nat>, n: nat, kept: set<nat>) {
    n <= |records| && UniqueIds(records)
    && (forall i :: 0 <= i < |records| && records[i].managed ==>
          (records[i].id in kept <==> records[i].id in preserved || (i < n && Survives(records, limit, preserved, i))))
  }

  lemma {:induction false} ExpendableGrows(records: seq<Record>, preserved: set<nat>, i: nat, j: nat)
    requires i <= j <= |records|
    ensures CountExpendable(records[..i], preserved) <= CountExpendable(records[..j], preserved)
  {
    if i < j {
      ExpendableGrows(records, preserved, i, j - 1);
      assert records[..j][..j - 1] == records[..j - 1];
    }
  }

  lemma NoneLeft(records: seq<Record>, limit: nat, preserved: set<nat>, n: nat, kept: set<nat>)
    requires Kept(records, limit, preserved, n, kept)
    requires n == |records| || CountProtected(records, preserved) + CountExpendable(records[..n], preserved) >= limit
    ensures Kept(records, limit, preserved, |records|, kept)
  {
    forall i | n <= i < |records|
      ensures Survives(records, limit, preserved, i) <==> !Expendable(preserved, records[i])
    {
      ExpendableGrows(records, preserved, n, i);
    }
  }

  /** What the limit leaves: every record that is not managed, every protected one, and of the others
      a newest-first prefix; in all, as many managed records as there are protected ones or as the
      limit allows, whichever is more, but no more than there were. */
  lemma RetentionKeeps(records: seq<Record>, limit: nat, preserved: set<nat>)
    ensures forall i :: 0 <= i < |records| && !Expendable(preserved, records[i]) ==> Survives(records, limit, preserved, i)
    ensures forall i, j :: 0 <= i < j < |records| && Survives(records, limit, preserved, j) && Expendable(preserved, records[j]) ==>
              Survives(records, limit, preserved, i)
    ensures var p, e := CountProtected(records, preserved), CountExpendable(records, preserved);
            CountManaged(Survivors(records, limit, preserved, |records|)) ==
            if p + e <= limit then p + e else if p <= limit then limit else p
  {
    forall i, j | 0 <= i < j < |records| && Survives(records, limit, preserved, j) && Expendable(preserved, records[j])
      ensures Survives(records, limit, preserved, i)
    {
      ExpendableGrows(records, preserved, i, j);
    }
    assert records[..|records|] == records;
    SurvivorsCount(records, limit, preserved, |records|);
  }

  function CountManaged(records: seq<Record>): nat {
    if records == [] then 0 else CountManaged(records[..|records| - 1]) + if records[|records| - 1].managed then 1 else 0
  }

  lemma {:induction false} SurvivorsCount(records: seq<Record>, limit: nat, preserved: set<nat>, n: nat)
    requires n <= |records|
    ensures var p, q, e := CountProtected(records, preserved), CountProtected(records[..n], preserved), CountExpendable(records[..n], preserved);
            CountManaged(Survivors(records, limit, preserved, n)) ==
            q + if p + e <= limit then e else if p <= limit then limit - p else 0
  {
    hide CountManaged, CountProtected, CountExpendable;
    PrefixCounts(records, preserved, n);
    if n > 0 {
      SurvivorsCount(records, limit, preserved, n - 1);
      var s := Survivors(records, limit, preserved, n - 1);
      CountManagedSnoc(s, records[n - 1]);
      assert s + [] == s;
    }
  }

  lemma PrefixCounts(records: seq<Record>, preserved: set<nat>, n: nat)
    requires n <= |records|
    ensures n == 0 ==> CountManaged([]) == 0 && CountProtected(records[..n], preserved) == 0 && CountExpendable(records[..n], preserved) == 0
    ensures n > 0 ==>
              && CountProtected(records[..n], preserved) ==
                 CountProtected(records[..n - 1], preserved) + (if Protects(preserved, records[n - 1]) then 1 else 0)
              && CountExpendable(records[..n], preserved) ==
                 CountExpendable(records[..n - 1], preserved) + (if Expendable(preserved, records[n - 1]) then 1 else 0)
  {
    if n > 0 {
      assert records[..n][..n - 1] == records[..n - 1] && records[..n][n - 1] == records[n - 1];
    }
  }

  lemma CountManagedSnoc(records: seq<Record>, r: Record)
    ensures CountManaged(records + [r]) == CountManaged(records) + if r.managed then 1 else 0
  {
    assert (records + [r])[..|records|] == records;
  }

  // ---- Making room on the drive ----

  datatype Capacity = Ready | NoQuota | CancelledHere | DriveFailed

  function Managed(records: seq<Record>): seq<Record> {
    if records == [] then []
    else Managed(records[..|records| - 1]) + if records[|records| - 1].managed then [records[|records| - 1]] else []
  }

  /** The table without its `k` oldest managed records. */
  function WithoutOldest(records: seq<Record>, k: nat): seq<Record> {
    if k == 0 || records == [] then records
    else
      var last := records[|records| - 1];
      if last.managed then WithoutOldest(records[..|records| - 1], k - 1)
      else WithoutOldest(records[..|records| - 1], k) + [last]
  }

  function Unmanaged(records: seq<Record>): seq<Record> {
    if records == [] then []
    else Unmanaged(records[..|records| - 1]) + if records[|records| - 1].managed then [] else [records[|records| - 1]]
  }

  function Max(a: int, b: int): int {
    if a < b then b else a
  }

  /** The space believed free once `k` records are gone, the first `first` of them for the limit:
      each further deletion adds its size or what the drive then reports, whichever is more. */
  function Available(managed: seq<Record>, quota: nat -> int, first: nat, k: nat): int
    requires first <= k <= |managed|
  {
    if k == first then quota(0)
    else Max(Available(managed, quota, first, k - 1) + managed[|managed| - k].size, quota(k - first))
  }

  /** Each deletion from `first` to `k` was needed for the room, came before any cancel request, and
      worked. */
  ghost predicate Needed(managed: seq<Record>, quota: nat -> int, required: int, first: nat, fails: nat -> bool,
                         cancelled: nat -> bool, k: nat) {
    k <= |managed| ==>
      forall i :: first <= i < k ==> Available(managed, quota, first, i) < required && !cancelled(i - first) && !fails(i - first)
  }

  /** How many records must go for the limit alone. */
  function Surplus(count: nat, limit: nat): nat
    requires limit > 0
  {
    if count < limit then 0 else count - limit + 1
  }

  /** The remote table, newest record first. */
  class RemoteTable {
    var records: seq<Record>

    constructor (records: seq<Record>)
      ensures this.records == records
    {
      this.records := records;
    }

    /** `_remove_oldest_managed_remote`: nothing to do without managed records; otherwise it raises when
        the drive does not delete the file, and returns the size of the record it removed. */
    method RemoveOldest(fails: bool) returns (size: nat, ok: bool)
      modifies this
      ensures ok <==> Managed(old(records)) == [] || !fails
      ensures records == if ok then WithoutOldest(old(records), 1) else old(records)
      ensures var managed := Managed(old(records));
              size == if ok && managed != [] then managed[|managed| - 1].size else 0
    {
      hide WithoutOldest;
      var managed := Managed(records);
      if managed == [] {
        NoneToRemove(records);
        return 0, true;
      }
      if fails {
        return 0, false;
      }
      size, ok := managed[|managed| - 1].size, true;
      records := WithoutOldest(records, 1);
    }

    /** The first loop: down to one less than the limit, or to the first deletion that fails. */
    method TrimToLimit(limit: nat, fails: nat -> bool) returns (ok: bool, ghost k: nat)
      requires limit > 0
      modifies this
      ensures k <= |Managed(old(records))| && records == WithoutOldest(old(records), k)
      ensures k <= Surplus(|Managed(old(records))|, limit) && (ok <==> k == Surplus(|Managed(old(records))|, limit))
      ensures (forall j :: 0 <= j < k ==> !fails(j)) && (!ok ==> fails(k))
    {
      hide Managed, WithoutOldest;
      ghost var start := records;
      ok, k := true, 0;
      NoneRemoved(start);
      var attempts := 0;
      while |Managed(records)| >= limit
        invariant k <= |Managed(start)| && records == WithoutOldest(start, k) && |Managed(records)| == |Managed(start)| - k
        invariant k <= Surplus(|Managed(start)|, limit) && attempts == k && ok
        invariant forall j :: 0 <= j < k ==> !fails(j)
        decreases |Managed(start)| - k
      {
        OldestRemoved(start, k);
        var _, removed := RemoveOldest(fails(attempts));
        if !removed {
          ok := false;
          return;
        }
        attempts := attempts + 1;
        k := k + 1;
        WithoutOldestManaged(start, k);
      }
    }

    /** `_prepare_capacity`. The drive's answers are `quota`, whether the deletions of the two loops fail,
        and whether a cancel request has come by each turn of the second loop. Deletion `k` ends it
        exactly when the drive refuses it, and a turn with too little room when a cancel request has
        come. */
    method PrepareCapacity(limit: nat, required: int, quota: nat -> int,
                           trimFails: nat -> bool, fails: nat -> bool, cancelled: nat -> bool)
      returns (r: Capacity, ghost k: nat)
      requires limit > 0
      modifies this
      ensures k <= |Managed(old(records))| && records == WithoutOldest(old(records), k)
      ensures var managed, first := Managed(old(records)), Surplus(|Managed(old(records))|, limit);
              && (forall i :: 0 <= i < k && i < first ==> !trimFails(i))
              && Needed(managed, quota, required, first, fails, cancelled, k)
              && match r
                 case Ready => first <= k && Available(managed, quota, first, k) >= required
                 case NoQuota => first <= k == |managed| && Available(managed, quota, first, k) < required
                 case CancelledHere =>
                   first <= k < |managed| && Available(managed, quota, first, k) < required && cancelled(k - first)
                 case DriveFailed =>
                   if k < first then trimFails(k)
                   else k < |managed| && Available(managed, quota, first, k) < required && !cancelled(k - first) && fails(k - first)
    {
      hide Managed, WithoutOldest, Available, Surplus, Needed;
      ghost var start := records;
      var ok;
      ok, k := TrimToLimit(limit, trimFails);
      NothingNeeded(Managed(start), quota, required, Surplus(|Managed(start)|, limit), fails, cancelled, k);
      if !ok {
        return DriveFailed, k;
      }
      ghost var first := k;
      WithoutOldestManaged(start, k);
      AvailableAtFirst(Managed(start), quota, first);
      var turn := 0;
      var available := quota(0);
      while available < required && |Managed(records)| > 0
        invariant first <= k <= |Managed(start)| && records == WithoutOldest(start, k) && turn == k - first
        invariant |Managed(records)| == |Managed(start)| - k
        invariant available == Available(Managed(start), quota, first, k)
        invariant Needed(Managed(start), quota, required, first, fails, cancelled, k)
        decreases |Managed(start)| - k
      {
        if cancelled(turn) {
          return CancelledHere, k;
        }
        OldestRemoved(start, k);
        AvailableNext(Managed(start), quota, first, k);
        var size, removed := RemoveOldest(fails(turn));
        if !removed {
          return DriveFailed, k;
        }
        NeededNext(Managed(start), quota, required, first, fails, cancelled, k);
        k := k + 1;
        turn := turn + 1;
        available := Max(available + size, quota(turn));
        WithoutOldestManaged(start, k);
      }
      return if available < required then NoQuota else Ready, k;
    }
  }

  lemma NothingNeeded(managed: seq<Record>, quota: nat -> int, required: int, first: nat, fails: nat -> bool,
                      cancelled: nat -> bool, k: nat)
    requires k <= first
    ensures Needed(managed, quota, required, first, fails, cancelled, k)
  {
  }

  lemma NeededNext(managed: seq<Record>, quota: nat -> int, required: int, first: nat, fails: nat -> bool,
                   cancelled: nat -> bool, k: nat)
    requires first <= k < |managed| && Needed(managed, quota, required, first, fails, cancelled, k)
    requires Available(managed, quota, first, k) < required && !cancelled(k - first) && !fails(k - first)
    ensures Needed(managed, quota, required, first, fails, cancelled, k + 1)
  {
    hide Available;
  }

  lemma AvailableAtFirst(managed: seq<Record>, quota: nat -> int, first: nat)
    requires first <= |managed|
    ensures Available(managed, quota, first, first) == quota(0)
  {
  }

  lemma AvailableNext(managed: seq<Record>, quota: nat -> int, first: nat, k: nat)
    requires first <= k < |managed|
    ensures Available(managed, quota, first, k + 1)
         == Max(Available(managed, quota, first, k) + managed[|managed| - k - 1].size, quota(k + 1 - first))
  {
  }

  lemma NoneRemoved(records: seq<Record>)
    ensures WithoutOldest(records, 0) == records
  {
  }

  /** Removing the `k` oldest leaves the other managed records, and every unmanaged one. */
  lemma {:induction false} WithoutOldestManaged(records: seq<Record>, k: nat)
    requires k <= |Managed(records)|
    ensures Managed(WithoutOldest(records, k)) == Managed(records)[..|Managed(records)| - k]
    ensures Unmanaged(WithoutOldest(records, k)) == Unmanaged(records)
    decreases |records|
  {
    hide Managed, Unmanaged;
    if records == [] {
      ManagedEmpty();
    } else if k > 0 {
      var n := |records| - 1;
      var init := records[..n];
      assert records == init + [records[n]];
      ManagedSnoc(init, records[n]);
      if records[n].managed {
        WithoutOldestManaged(init, k - 1);
      } else {
        WithoutOldestManaged(init, k);
        ManagedSnoc(WithoutOldest(init, k), records[n]);
      }
    }
  }

  lemma ManagedEmpty()
    ensures Managed([]) == []
  {
  }

  lemma ManagedSnoc(records: seq<Record>, r: Record)
    ensures Managed(records + [r]) == Managed(records) + if r.managed then [r] else []
    ensures Unmanaged(records + [r]) == Unmanaged(records) + if r.managed then [] else [r]
  {
    assert (records + [r])[..|records|] == records;
  }

  /** Without managed records there is nothing to remove. */
  lemma {:induction false} NoneToRemove(records: seq<Record>)
    requires Managed(records) == []
    ensures WithoutOldest(records, 1) == records
  {
    hide Managed;
    if records != [] {
      var n := |records| - 1;
      NoneManaged(records);
      NoneToRemove(records[..n]);
      assert records == records[..n] + [records[n]];
    }
  }

  lemma NoneManaged(records: seq<Record>)
    requires Managed(records) == [] && records != []
    ensures !records[|records| - 1].managed && Managed(records[..|records| - 1]) == []
  {
  }

  /** Removing `k + 1` is removing the oldest of what `k` leave. */
  lemma {:induction false} WithoutOneMore(records: seq<Record>, k: nat)
    ensures WithoutOldest(WithoutOldest(records, k), 1) == WithoutOldest(records, k + 1)
    decreases |records|
  {
    if records != [] && k > 0 {
      var n := |records| - 1;
      if records[n].managed {
        WithoutOneMore(records[..n], k - 1);
      } else {
        WithoutOneMore(records[..n], k);
        var s := WithoutOldest(records[..n], k);
        assert (s + [records[n]])[..|s|] == s;
      }
    }
  }

  lemma OldestRemoved(start: seq<Record>, k: nat)
    requires k < |Managed(start)|
    ensures var r := WithoutOldest(start, k);
            && WithoutOldest(r, 1) == WithoutOldest(start, k + 1)
            && |Managed(r)| > 0 && Managed(r)[|Managed(r)| - 1] == Managed(start)[|Managed(start)| - k - 1]
  {
    WithoutOldestManaged(start, k);
    WithoutOneMore(start, k);
  }

  /** What the drive run leaves, in the table's own terms: it removed the `k` oldest managed records,
      no other; and when it is ready, fewer than the limit are left. */
  lemma CapacityKeeps(records: seq<Record>, limit: nat, k: nat)
    requires limit > 0 && Surplus(|Managed(records)|, limit) <= k <= |Managed(records)|
    ensures |Managed(WithoutOldest(records, k))| < limit
    ensures Managed(WithoutOldest(records, k)) == Managed(records)[..|Managed(records)| - k]
    ensures Unmanaged(WithoutOldest(records, k)) == Unmanaged(records)
  {
    WithoutOldestManaged(records, k);
  }
}
