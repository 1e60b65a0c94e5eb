/** Replacing the world and the settings by the restored ones, operation by operation, and what is on
    disk if the process stops between any two of them. */
module RestoreApply {
  import opened Common

  /** A directory tree: the contents of its files. */
  type Tree = map<string, string>

  /** What `apply` works on: the world and its two temporary names, and the two settings files. */
  datatype Disk = Disk(world: Option<Tree>, incoming: Option<Tree>, previous: Option<Tree>,
                       settings: string, related: Option<string>)

  /** `listing` are the files of the new world in the order they are copied. */
  datatype Prepared = Prepared(world: Tree, listing: seq<string>, settings: string, related: Option<string>)

  datatype Op =
    | MakeFresh
    | CopyFile(path: string, data: string)
    | MoveWorldAside
    | MoveFreshIn
    | WriteSettings(text: string)
    | WriteRelated(text: string)
    | DeleteFile(path: string)
    | DropPrevious

  datatype ApplyResult = Done | Ambiguous | Stopped

  function Added(tree: Option<Tree>, path: string, data: string): Option<Tree> {
    if tree.None? then None else Some(tree.value[path := data])
  }

  function Removed(tree: Option<Tree>, path: string): Option<Tree> {
    if tree.None? then None else Some(tree.value - {path})
  }

  function Perform(d: Disk, op: Op): Disk {
    match op
    case MakeFresh => d.(incoming := Some(map[]))
    case CopyFile(path, data) => d.(incoming := Added(d.incoming, path, data))
    case MoveWorldAside => d.(previous := d.world, world := None)
    case MoveFreshIn => d.(world := d.incoming, incoming := None)
    case WriteSettings(text) => d.(settings := text)
    case WriteRelated(text) => d.(related := Some(text))
    case DeleteFile(path) => d.(previous := Removed(d.previous, path))
    case DropPrevious => d.(previous := None)
  }

  function PerformAll(d: Disk, ops: seq<Op>): Disk {
    if ops == [] then d else Perform(PerformAll(d, ops[..|ops| - 1]), ops[|ops| - 1])
  }

  ghost predicate Lists(listing: seq<string>, tree: Tree) {
    && (forall p :: p in listing <==> p in tree)
    && forall i, j :: 0 <= i < j < |listing| ==> listing[i] != listing[j]
  }

  function Copies(prepared: Prepared): (r: seq<Op>)
    requires forall p :: p in prepared.listing ==> p in prepared.world
    ensures |r| == |prepared.listing|
    ensures forall i :: 0 <= i < |r| ==> r[i] == CopyFile(prepared.listing[i], prepared.world[prepared.listing[i]])
  {
    seq(|prepared.listing|, i requires 0 <= i < |prepared.listing| => CopyFile(prepared.listing[i], prepared.world[prepared.listing[i]]))
  }

  function Deletions(order: seq<string>): (r: seq<Op>)
    ensures |r| == |order| && forall i :: 0 <= i < |r| ==> r[i] == DeleteFile(order[i])
  {
    seq(|order|, i requires 0 <= i < |order| => DeleteFile(order[i]))
  }

  function SettingsOps(prepared: Prepared): seq<Op> {
    [WriteSettings(prepared.settings)] + if prepared.related.Some? then [WriteRelated(prepared.related.value)] else []
  }

  /** Every change to the disk that `apply` makes, in order; `order` is how the old tree is removed. */
  function Ops(prepared: Prepared, order: seq<string>): seq<Op>
    requires forall p :: p in prepared.listing ==> p in prepared.world
  {
    [MakeFresh] + Copies(prepared) + [MoveWorldAside, MoveFreshIn] + SettingsOps(prepared) + Deletions(order) + [DropPrevious]
  }

  /** Where each operation stands among `Ops`. */
  lemma OpsAt(prepared: Prepared, order: seq<string>)
    requires forall p :: p in prepared.listing ==> p in prepared.world
    ensures var ops := Ops(prepared, order);
            var n, m := 1 + |prepared.listing|, SettingsEnd(prepared);
            && |ops| == m + |order| + 1 && n + 3 <= m && ops[0] == MakeFresh && ops[|ops| - 1] == DropPrevious
            && (forall i :: 1 <= i < n ==> ops[i] == CopyFile(prepared.listing[i - 1], prepared.world[prepared.listing[i - 1]]))
            && ops[n] == MoveWorldAside && ops[n + 1] == MoveFreshIn && ops[n + 2] == WriteSettings(prepared.settings)
            && (prepared.related.Some? ==> m == n + 4 && ops[n + 3] == WriteRelated(prepared.related.value))
            && (prepared.related.None? ==> m == n + 3)
            && (forall i :: m <= i < m + |order| ==> ops[i] == DeleteFile(order[i - m]))
  {
    var ops := Ops(prepared, order);
    var n := 1 + |prepared.listing|;
    assert forall i :: 1 <= i < n ==> ops[i] == Copies(prepared)[i - 1];
    assert forall i :: SettingsEnd(prepared) <= i < SettingsEnd(prepared) + |order| ==> ops[i] == Deletions(order)[i - SettingsEnd(prepared)];
  }

  /** How many operations come before the old tree is removed. */
  function SettingsEnd(prepared: Prepared): nat {
    1 + |prepared.listing| + 2 + |SettingsOps(prepared)|
  }

  lemma Performed(start: Disk, ops: seq<Op>, n: nat)
    requires n < |ops|
    ensures PerformAll(start, ops[..n + 1]) == Perform(PerformAll(start, ops[..n]), ops[n])
  {
    assert ops[..n + 1][..n] == ops[..n];
  }

  // ---- In place ----

  /** The disk, and how many more operations succeed before one fails or the process dies. */
  class Target {
    var disk: Disk
    var left: nat

    constructor (disk: Disk, left: nat)
      ensures this.disk == disk && this.left == left
    {
      this.disk, this.left := disk, left;
    }

    /** One operation, the next of `ops`, if it succeeds. */
    method Do(op: Op, ghost start: Disk, ghost ops: seq<Op>, ghost n: nat) returns (ok: bool)
      requires n < |ops| && ops[n] == op && disk == PerformAll(start, ops[..n])
      modifies this
      ensures ok == (old(left) > 0)
      ensures left == (if ok then old(left) - 1 else old(left)) && disk == PerformAll(start, ops[..if ok then n + 1 else n])
    {
      ok := left > 0;
      if ok {
        Performed(start, ops, n);
        disk := Perform(disk, op);
        left := left - 1;
      }
    }

    method CopyWorld(prepared: Prepared, ghost start: Disk, ghost ops: seq<Op>) returns (ok: bool)
      requires forall p :: p in prepared.listing ==> p in prepared.world
      requires disk == start && 1 + |prepared.listing| < |ops| && ops[0] == MakeFresh
      requires forall i :: 1 <= i < 1 + |prepared.listing| ==>
                 ops[i] == CopyFile(prepared.listing[i - 1], prepared.world[prepared.listing[i - 1]])
      modifies this
      ensures ok ==> old(left) == left + 1 + |prepared.listing| && disk == PerformAll(start, ops[..1 + |prepared.listing|])
      ensures !ok ==> left == 0 && old(left) < 1 + |prepared.listing| && disk == PerformAll(start, ops[..old(left)])
    {
      hide Perform, PerformAll;
      NothingYet(start, ops);
      ok := Do(MakeFresh, start, ops, 0);
      if !ok {
        return;
      }
      for i := 0 to |prepared.listing|
        invariant ok && old(left) == left + 1 + i && disk == PerformAll(start, ops[..1 + i])
      {
        ok := Do(CopyFile(prepared.listing[i], prepared.world[prepared.listing[i]]), start, ops, 1 + i);
        if !ok {
          return;
        }
      }
    }

    method Install(prepared: Prepared, ghost start: Disk, ghost ops: seq<Op>, ghost n: nat) returns (ok: bool)
      requires n + 2 + |SettingsOps(prepared)| < |ops| && disk == PerformAll(start, ops[..n])
      requires ops[n] == MoveWorldAside && ops[n + 1] == MoveFreshIn && ops[n + 2] == WriteSettings(prepared.settings)
      requires prepared.related.Some? ==> ops[n + 3] == WriteRelated(prepared.related.value)
      modifies this
      ensures var k := 2 + |SettingsOps(prepared)|;
              && (ok ==> old(left) == left + k && disk == PerformAll(start, ops[..n + k]))
              && (!ok ==> left == 0 && old(left) < k && disk == PerformAll(start, ops[..n + old(left)]))
    {
      hide Perform, PerformAll;
      ok := Do(MoveWorldAside, start, ops, n);
      if !ok {
        return;
      }
      ok := Do(MoveFreshIn, start, ops, n + 1);
      if !ok {
        return;
      }
      ok := Do(WriteSettings(prepared.settings), start, ops, n + 2);
      if ok && prepared.related.Some? {
        ok := Do(WriteRelated(prepared.related.value), start, ops, n + 3);
      }
    }

    method RemovePrevious(order: seq<string>, ghost start: Disk, ghost ops: seq<Op>, ghost m: nat) returns (ok: bool)
      requires m + |order| + 1 == |ops| && disk == PerformAll(start, ops[..m]) && ops[m + |order|] == DropPrevious
      requires forall i :: m <= i < m + |order| ==> ops[i] == DeleteFile(order[i - m])
      modifies this
      ensures ok ==> old(left) == left + |order| + 1 && disk == PerformAll(start, ops)
      ensures !ok ==> left == 0 && old(left) < |order| + 1 && disk == PerformAll(start, ops[..m + old(left)])
    {
      hide Perform, PerformAll;
      ok := true;
      for i := 0 to |order|
        invariant ok && old(left) == left + i && disk == PerformAll(start, ops[..m + i])
      {
        ok := Do(DeleteFile(order[i]), start, ops, m + i);
        if !ok {
          return;
        }
      }
      ok := Do(DropPrevious, start, ops, m + |order|);
      assert ops[..|ops|] == ops;
    }

    /** `apply`: it stops where an operation fails, with nothing cleaned up. */
    method Apply(prepared: Prepared, order: seq<string>) returns (r: ApplyResult)
      requires forall p :: p in prepared.listing ==> p in prepared.world
      modifies this
      ensures r == if old(disk).incoming.Some? || old(disk).previous.Some? then Ambiguous
                   else if old(left) < |Ops(prepared, order)| then Stopped else Done
      ensures disk == if r.Ambiguous? then old(disk)
                      else PerformAll(old(disk), Ops(prepared, order)[..if r.Stopped? then old(left) else |Ops(prepared, order)|])
    {
      hide Perform, PerformAll, Ops;
      if disk.incoming.Some? || disk.previous.Some? {
        return Ambiguous;
      }
      OpsAt(prepared, order);
      ghost var ops := Ops(prepared, order);
      assert ops[..|ops|] == ops;
      ghost var start := disk;
      var ok := CopyWorld(prepared, start, ops);
      if !ok {
        return Stopped;
      }
      ok := Install(prepared, start, ops, 1 + |prepared.listing|);
      if !ok {
        return Stopped;
      }
      ok := RemovePrevious(order, start, ops, SettingsEnd(prepared));
      return if ok then Done else Stopped;
    }
  }

  lemma NothingYet(start: Disk, ops: seq<Op>)
    ensures PerformAll(start, ops[..0]) == start
  {
  }

  // ---- Wherever it stops ----

  /** Some complete world is on disk under one of the three names, and the old one until the new one
      and all settings are in place. */
  ghost predicate Safe(d: Disk, start: Disk, prepared: Prepared) {
    || (d.world == start.world && d.previous.None? && d.settings == start.settings && d.related == start.related)
    || (d.world.None? && d.previous == start.world && d.incoming == Some(prepared.world)
        && d.settings == start.settings && d.related == start.related)
    || (d.world == Some(prepared.world) && d.previous == start.world && d.incoming.None?)
    || (d.world == Some(prepared.world) && d.incoming.None? && d.settings == prepared.settings
        && d.related == (if prepared.related.Some? then prepared.related else start.related))
  }

  /** The first `k` files are copied, and nothing else has changed. */
  ghost predicate CopiedSoFar(d: Disk, start: Disk, prepared: Prepared, k: nat) {
    && k <= |prepared.listing|
    && d == start.(incoming := d.incoming) && d.incoming.Some?
    && (forall p :: p in d.incoming.value <==> p in prepared.listing[..k])
    && (forall p :: p in d.incoming.value ==> p in prepared.world && d.incoming.value[p] == prepared.world[p])
  }

  lemma CopyStep(d: Disk, start: Disk, prepared: Prepared, k: nat)
    requires CopiedSoFar(d, start, prepared, k) && k < |prepared.listing| && prepared.listing[k] in prepared.world
    ensures CopiedSoFar(Perform(d, CopyFile(prepared.listing[k], prepared.world[prepared.listing[k]])), start, prepared, k + 1)
  {
    assert prepared.listing[..k + 1] == prepared.listing[..k] + [prepared.listing[k]];
  }

  lemma {:induction false} Copied(start: Disk, prepared: Prepared, order: seq<string>, n: nat)
    requires Lists(prepared.listing, prepared.world) && 1 <= n <= 1 + |prepared.listing|
    ensures |Ops(prepared, order)| >= n
    ensures CopiedSoFar(PerformAll(start, Ops(prepared, order)[..n]), start, prepared, n - 1)
  {
    hide Ops, PerformAll;
    var ops := Ops(prepared, order);
    OpsAt(prepared, order);
    Performed(start, ops, n - 1);
    if n == 1 {
      NothingYet(start, ops);
    } else {
      hide Perform, CopiedSoFar;
      Copied(start, prepared, order, n - 1);
      CopyStep(PerformAll(start, ops[..n - 1]), start, prepared, n - 2);
    }
  }

  lemma AllCopied(start: Disk, prepared: Prepared, order: seq<string>)
    requires Lists(prepared.listing, prepared.world)
    ensures |Ops(prepared, order)| > 1 + |prepared.listing|
    ensures PerformAll(start, Ops(prepared, order)[..1 + |prepared.listing|]) == start.(incoming := Some(prepared.world))
  {
    hide Ops, Perform, PerformAll;
    OpsAt(prepared, order);
    Copied(start, prepared, order, 1 + |prepared.listing|);
    assert prepared.listing[..|prepared.listing|] == prepared.listing;
    var d := PerformAll(start, Ops(prepared, order)[..1 + |prepared.listing|]);
    assert d.incoming.value == prepared.world;
  }

  function Installed(start: Disk, prepared: Prepared): Disk {
    Disk(Some(prepared.world), None, start.world, prepared.settings,
         if prepared.related.Some? then prepared.related else start.related)
  }

  lemma InstalledAt(start: Disk, prepared: Prepared, order: seq<string>, n: nat)
    requires Lists(prepared.listing, prepared.world) && start.incoming.None? && start.previous.None?
    requires 1 + |prepared.listing| <= n <= SettingsEnd(prepared)
    ensures |Ops(prepared, order)| > n && Safe(PerformAll(start, Ops(prepared, order)[..n]), start, prepared)
    ensures n == SettingsEnd(prepared) ==> PerformAll(start, Ops(prepared, order)[..n]) == Installed(start, prepared)
  {
    hide Ops, PerformAll;
    var ops, m := Ops(prepared, order), 1 + |prepared.listing|;
    OpsAt(prepared, order);
    AllCopied(start, prepared, order);
    Performed(start, ops, m);
    Performed(start, ops, m + 1);
    Performed(start, ops, m + 2);
    if prepared.related.Some? {
      Performed(start, ops, m + 3);
    }
  }

  lemma {:induction false} RemovedAt(start: Disk, prepared: Prepared, order: seq<string>, n: nat)
    requires Lists(prepared.listing, prepared.world) && start.incoming.None? && start.previous.None?
    requires SettingsEnd(prepared) <= n <= |Ops(prepared, order)|
    ensures var d := PerformAll(start, Ops(prepared, order)[..n]);
            d == Installed(start, prepared).(previous := d.previous)
    ensures n == |Ops(prepared, order)| ==> PerformAll(start, Ops(prepared, order)[..n]).previous == None
    decreases n
  {
    hide Ops, PerformAll;
    OpsAt(prepared, order);
    if n == SettingsEnd(prepared) {
      InstalledAt(start, prepared, order, n);
    } else {
      RemovedAt(start, prepared, order, n - 1);
      Performed(start, Ops(prepared, order), n - 1);
    }
  }

  /** At every point at which the process can stop, the disk is safe. */
  lemma ApplyIsCrashSafe(start: Disk, prepared: Prepared, order: seq<string>, n: nat)
    requires Lists(prepared.listing, prepared.world) && start.incoming.None? && start.previous.None?
    requires n <= |Ops(prepared, order)|
    ensures Safe(PerformAll(start, Ops(prepared, order)[..n]), start, prepared)
  {
    hide Ops, PerformAll, Perform;
    if n == 0 {
      NothingYet(start, Ops(prepared, order));
    } else if n <= |prepared.listing| {
      Copied(start, prepared, order, n);
    } else if n <= SettingsEnd(prepared) {
      InstalledAt(start, prepared, order, n);
    } else {
      RemovedAt(start, prepared, order, n);
    }
  }

  /** A restore that ends normally leaves the new world, the merged settings, and neither of the two
      temporary names. */
  lemma ApplyInstalls(start: Disk, prepared: Prepared, order: seq<string>)
    requires Lists(prepared.listing, prepared.world) && start.incoming.None? && start.previous.None?
    ensures PerformAll(start, Ops(prepared, order)) == Installed(start, prepared).(previous := None)
  {
    hide Ops, PerformAll, Perform;
    var ops := Ops(prepared, order);
    assert ops[..|ops|] == ops;
    OpsAt(prepared, order);
    RemovedAt(start, prepared, order, |ops|);
  }
}
