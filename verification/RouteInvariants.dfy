/** What every reachable state of the route manager satisfies, at every moment a crash may hit. */
module RouteInvariants {
  import opened Text
  import opened RouteTable
  import opened RouteFile
  import opened RouteModel

  // ----- the invariant -----

  ghost predicate TableInv(t: Table, clock: nat) {
    && NoEmptyGroup(t) && Savable(t) && SingleGateway(t)
    && forall k, i :: Entry(t, k, i).Some? ==> Entry(t, k, i).value.lastAttempt <= clock
  }

  /** The route is in the kernel and some record in the file names its destination and gateway. */
  ghost predicate Recorded(d: Durable, i: string) {
    i in d.kernel && exists r :: r in SavedRecords(d) && r.ip == i && r.gateway == d.kernel[i]
  }

  /** Write-ahead safety: no kernel route of the running process is unknown to the file. */
  ghost predicate WriteAhead(d: Durable) {
    forall i :: i in d.owned ==> Recorded(d, i)
  }

  /** Kernel routes left by earlier processes are known to the file as well. */
  ghost predicate LegacyRecorded(d: Durable) {
    forall i :: i in d.legacy ==> Recorded(d, i)
  }

  ghost predicate OwnedReferenced(t: Table, d: Durable) {
    forall i :: i in d.owned ==> i in d.kernel && Referenced(t, i) && GatewayIs(t, i, d.kernel[i])
  }

  /** A referenced route that is not owned is not in the kernel at all (a re-add has failed). */
  ghost predicate UnownedAbsent(t: Table, d: Durable) {
    forall i :: Referenced(t, i) && i !in d.owned ==> i !in d.kernel
  }

  ghost predicate DurableInv(d: Durable) {
    && WriteAhead(d)
    && d.legacy !! d.owned && d.legacy <= d.kernel.Keys
    && forall r :: r in SavedRecords(d) ==> ValidRecord(r)
  }

  ghost predicate Inv(s: World) {
    && TableInv(s.mem, s.clock) && DurableInv(s.dur)
    && OwnedReferenced(s.mem, s.dur) && UnownedAbsent(s.mem, s.dur)
    && (!s.alive ==> s.mem == map[] && s.dur.owned == {})
  }

  // ----- saving -----

  lemma SaveKeepsDurable(t: Table, d: Durable)
    requires Savable(t) && OwnedReferenced(t, d)
    requires d.legacy !! d.owned && d.legacy <= d.kernel.Keys
    ensures DurableInv(Save(d, t))
  {
    var s := Save(d, t);
    RecordsExact(t);
    forall r | r in Records(t) ensures ValidRecord(r) {
      assert Entry(t, r.key, r.ip).Some?;
    }
    forall i | i in d.owned ensures Recorded(s, i) {
      ReferencedIsSaved(t, d, i);
    }
  }

  lemma ReferencedIsSaved(t: Table, d: Durable, i: string)
    requires i in d.kernel && Referenced(t, i) && GatewayIs(t, i, d.kernel[i])
    ensures Recorded(Save(d, t), i)
  {
    RecordsExact(t);
    var k :| Entry(t, k, i).Some?;
    var r := RecordOf(k, i, Entry(t, k, i).value);
    assert IsRecord(t, r);
    assert r in SavedRecords(Save(d, t));
  }

  // ----- add -----

  lemma PutKeepsInv(t: Table, clock: nat, k: string, i: string, m: Meta)
    requires TableInv(t, clock) && GatewayIs(t, i, m.gateway)
    requires ValidRecord(RecordOf(k, i, m)) && m.lastAttempt == 0
    ensures TableInv(Put(t, k, i, m), clock)
  {
  }

  lemma CandidateInv(s: World, a: Op)
    requires Inv(s) && a.Add? && Legal(s, a) && AddAccepted(s, a)
    ensures TableInv(Candidate(s.mem, a), a.now)
    ensures OwnedReferenced(Candidate(s.mem, a), s.dur)
  {
    PutKeepsInv(s.mem, s.clock, a.key, a.ip, NewMeta(a.now, a.gateway, a.ttl));
    PutReferences(s.mem, a.key, a.ip, NewMeta(a.now, a.gateway, a.ttl));
  }

  lemma {:induction false} AddKeepsInv(s: World, a: Op)
    requires Inv(s) && a.Add? && Legal(s, a)
    ensures Inv(Next(s, a))
    ensures forall d :: CrashPoint(s, a, d) ==> DurableInv(d)
  {
    AddedInv(s, a);
    if AddAccepted(s, a) {
      AttemptInv(s, a);
    }
    forall d | CrashPoint(s, a, d) ensures DurableInv(d) {
      assert d == s.dur || d == Next(s, a).dur || (AddAccepted(s, a) && d == Credited(s.dur, s.mem, a));
    }
  }

  /** Right after the candidate table has been saved. */
  lemma {:induction false} AttemptInv(s: World, a: Op)
    requires Inv(s) && a.Add? && Legal(s, a) && AddAccepted(s, a)
    ensures DurableInv(Credited(s.dur, s.mem, a))
  {
    var t := Candidate(s.mem, a);
    var d := Credited(s.dur, s.mem, a);
    CandidateInv(s, a);
    SaveKeepsDurable(t, s.dur);
    assert SavedRecords(d) == SavedRecords(Save(s.dur, t));
    forall i | i in d.owned ensures Recorded(d, i) { assert Recorded(Save(s.dur, t), i); }
  }

  lemma {:induction false} AddedInv(s: World, a: Op)
    requires Inv(s) && a.Add? && Legal(s, a)
    ensures Inv(Next(s, a))
  {
    AddCases(s, a);
    if AddAccepted(s, a) && a.saveOk {
      CandidateInv(s, a);
      AttemptInv(s, a);
      SaveKeepsDurable(s.mem, s.dur);
      PutReferences(s.mem, a.key, a.ip, NewMeta(a.now, a.gateway, a.ttl));
      if !Referenced(s.mem, a.ip) && a.addOk {
        FreshRouteInv(s, a);
      }
    }
  }

  /** What holds once a fresh route is installed after its record has been saved. */
  lemma {:induction false} FreshRouteInv(s: World, a: Op)
    requires Inv(s) && a.Add? && Legal(s, a) && AddAccepted(s, a) && !Referenced(s.mem, a.ip)
    ensures var d := KernelAdd(Credited(s.dur, s.mem, a), a.ip, a.gateway);
      var t := Candidate(s.mem, a);
      DurableInv(d) && OwnedReferenced(t, d) && UnownedAbsent(t, d)
  {
    var t := Candidate(s.mem, a);
    var d := KernelAdd(Credited(s.dur, s.mem, a), a.ip, a.gateway);
    CandidateInv(s, a);
    FreshOwned(s, a, d);
    assert d.legacy !! d.owned && d.legacy <= d.kernel.Keys;
    SaveKeepsDurable(t, d);
    assert Save(d, t) == d;
  }

  lemma {:induction false} FreshOwned(s: World, a: Op, d: Durable)
    requires a.Add? && GatewayIs(s.mem, a.ip, a.gateway) && d.kernel == s.dur.kernel[a.ip := a.gateway]
    requires OwnedReferenced(s.mem, s.dur) && UnownedAbsent(s.mem, s.dur) && d.owned == s.dur.owned + {a.ip}
    ensures OwnedReferenced(Candidate(s.mem, a), d) && UnownedAbsent(Candidate(s.mem, a), d)
  {
    var t := Candidate(s.mem, a);
    PutReferences(s.mem, a.key, a.ip, NewMeta(a.now, a.gateway, a.ttl));
    assert GatewayIs(t, a.ip, a.gateway);
    forall i | i in d.owned && i != a.ip ensures Referenced(t, i) && GatewayIs(t, i, d.kernel[i]) {
      assert i in s.dur.owned;
    }
  }

  // ----- remove and remove_system -----

  lemma EraseReferences(t: Table, i: string, g: string)
    requires GatewayIs(t, i, g)
    ensures forall j :: Referenced(Unreference(t, i, g), j) <==> Referenced(t, j) && j != i
  {
    var u := Unreference(t, i, g);
    forall j | Referenced(t, j) && j != i ensures Referenced(u, j) {
      var k :| Entry(t, k, j).Some?;
      assert Entry(u, k, j).Some?;
    }
    forall j | Referenced(u, j) ensures Referenced(t, j) && j != i {
      var k :| Entry(u, k, j).Some?;
      assert Entry(t, k, j).Some?;
    }
  }

  /** A route present in the kernel is what every reference to its destination points at. */
  lemma PresentGateway(s: World, i: string, g: string)
    requires Inv(s) && InKernel(s.dur, i, g)
    ensures GatewayIs(s.mem, i, g)
  {
    if i !in s.dur.owned {
      assert !Referenced(s.mem, i);
    }
  }

  lemma DeletedDurable(d: Durable, gone: set<string>)
    requires DurableInv(d)
    ensures DurableInv(KernelDelete(d, gone))
  {
    var e := KernelDelete(d, gone);
    forall i | i in e.owned ensures Recorded(e, i) {
      assert Recorded(d, i);
    }
  }

  lemma EraseKeepsInv(s: World, i: string, g: string, saveOk: bool, readdOk: bool)
    requires Inv(s) && InKernel(s.dur, i, g)
    ensures Inv(EraseStep(s, i, g, saveOk, readdOk).0)
    ensures DurableInv(KernelDelete(s.dur, {i}))
  {
    var t := Unreference(s.mem, i, g);
    var d := KernelDelete(s.dur, {i});
    PresentGateway(s, i, g);
    EraseReferences(s.mem, i, g);
    DeletedDurable(s.dur, {i});
    assert OwnedReferenced(t, d);
    SaveKeepsDurable(t, d);
  }

  // ----- sweep -----

  lemma SweptReferences(t: Table, now: nat, deleted: set<string>)
    requires SingleGateway(t)
    requires forall i :: i in deleted ==> AllDue(t, i, now)
    ensures forall i :: Referenced(SweptTable(t, now, deleted), i) <==> Referenced(t, i) && i !in deleted
  {
    var u := SweptTable(t, now, deleted);
    forall i | Referenced(t, i) && i !in deleted ensures Referenced(u, i) {
      if AllDue(t, i, now) {
        var k := LastReference(t, i);
        assert Entry(u, k, i).Some?;
      } else {
        var k :| Entry(t, k, i).Some? && !Due(Entry(t, k, i).value, now);
        assert Entry(u, k, i).Some?;
      }
    }
    forall i | Referenced(u, i) ensures Referenced(t, i) && i !in deleted {
      var k :| Entry(u, k, i).Some?;
      assert Entry(t, k, i).Some?;
    }
  }

  lemma LastReference(t: Table, i: string) returns (k: string)
    requires Referenced(t, i)
    ensures IsLast(t, k, i)
  {
    var keys := set k | k in t && i in t[k];
    var k0 :| Entry(t, k0, i).Some?;
    assert k0 in keys;
    var order := Sorted(keys);
    assert |order| > 0;
    k := order[|order| - 1];
    assert k in keys;
    forall k' | Entry(t, k', i).Some? ensures k' == k || Less(k', k) {
      assert k' in keys;
      var n :| 0 <= n < |order| && order[n] == k';
    }
  }

  lemma SweepKeepsInv(s: World, o: Op)
    requires Inv(s) && o.Sweep? && Legal(s, o)
    ensures Inv(Next(s, o))
    ensures forall d :: CrashPoint(s, o, d) ==> DurableInv(d)
  {
    var deleted := Deleted(s.mem, s.dur, o.now, o.failing);
    var t := SweptTable(s.mem, o.now, deleted);
    var d := KernelDelete(s.dur, deleted);
    SweptReferences(s.mem, o.now, deleted);
    forall gone: set<string> ensures DurableInv(KernelDelete(s.dur, gone)) {
      DeletedDurable(s.dur, gone);
    }
    assert OwnedReferenced(t, d) by {
      forall i | i in d.owned ensures GatewayIs(t, i, d.kernel[i]) {
        assert GatewayIs(s.mem, i, s.dur.kernel[i]);
      }
    }
    SweptTableInv(s.mem, o.now, deleted, s.clock);
    SaveKeepsDurable(t, d);
  }

  lemma SweptTableInv(t: Table, now: nat, deleted: set<string>, clock: nat)
    requires TableInv(t, clock) && clock <= now
    ensures TableInv(SweptTable(t, now, deleted), now)
  {
    var u := SweptTable(t, now, deleted);
    forall k, i | Entry(u, k, i).Some?
      ensures Entry(t, k, i).Some? && RecordOf(k, i, Entry(u, k, i).value) == RecordOf(k, i, Entry(t, k, i).value)
      ensures Entry(u, k, i).value.lastAttempt <= now {
    }
  }

  // ----- load -----

  ghost predicate RestoredInv(x: Restored) {
    && TableInv(x.mem, 0)
    && (forall i :: Referenced(x.mem, i) <==> i in x.active)
    && forall i :: i in x.active ==> GatewayIs(x.mem, i, x.active[i])
  }

  lemma RestoreOneKeepsInv(x: Restored, r: SavedRoute, now: nat, addOk: bool)
    requires RestoredInv(x) && ValidRecord(r)
    ensures RestoredInv(RestoreOne(x, r, now, addOk))
  {
    var y := RestoreOne(x, r, now, addOk);
    if y != x && y != x.(failed := true) {
      var m := SavedMeta(r);
      assert y == Restored(Put(x.mem, r.key, r.ip, m), x.active[r.ip := r.gateway], x.failed);
      assert GatewayIs(x.mem, r.ip, r.gateway) by {
        if r.ip !in x.active {
          assert !Referenced(x.mem, r.ip);
        }
      }
      PutKeepsInv(x.mem, 0, r.key, r.ip, m);
      PutReferences(x.mem, r.key, r.ip, m);
      PutKeepsGateways(x.mem, r.key, r.ip, m, x.active);
    }
  }

  lemma PutKeepsGateways(t: Table, k: string, i: string, m: Meta, active: map<string, string>)
    requires forall j :: j in active ==> GatewayIs(t, j, active[j])
    requires GatewayIs(t, i, m.gateway)
    ensures var g := active[i := m.gateway];
      forall j :: j in g ==> GatewayIs(Put(t, k, i, m), j, g[j])
  {
  }

  /** Whatever the file says, the restored table has one gateway per destination. */
  lemma {:induction false} RestoreKeepsInv(saved: seq<SavedRoute>, n: nat, now: nat, failing: set<nat>)
    requires n <= |saved| && forall r :: r in saved ==> ValidRecord(r)
    ensures RestoredInv(Restore(saved, n, now, failing))
  {
    if n > 0 {
      RestoreKeepsInv(saved, n - 1, now, failing);
      RestoreOneKeepsInv(Restore(saved, n - 1, now, failing), saved[n - 1], now, n - 1 !in failing);
    }
  }

  /** Every restored route comes from a record in the file. */
  lemma {:induction false} RestoredFromFile(saved: seq<SavedRoute>, n: nat, now: nat, failing: set<nat>, i: string)
    requires n <= |saved| && i in Restore(saved, n, now, failing).active
    ensures exists r :: r in saved && r.ip == i && r.gateway == Restore(saved, n, now, failing).active[i]
  {
    if i in Restore(saved, n - 1, now, failing).active {
      RestoredFromFile(saved, n - 1, now, failing, i);
    } else {
      assert saved[n - 1] in saved;
    }
  }

  lemma RestoringDurable(d: Durable, now: nat, n: nat, failing: set<nat>)
    requires DurableInv(d) && d.disk.Some? && n <= |d.disk.value|
    ensures DurableInv(WithActive(Reborn(d), Restore(d.disk.value, n, now, failing).active))
  {
    var active := Restore(d.disk.value, n, now, failing).active;
    var e := WithActive(Reborn(d), active);
    forall i | i in e.owned ensures Recorded(e, i) {
      RestoredFromFile(d.disk.value, n, now, failing, i);
    }
    forall i | i in d.owned ensures i in d.kernel.Keys { assert Recorded(d, i); }
  }

  lemma RebornDurable(d: Durable)
    requires DurableInv(d)
    ensures DurableInv(Reborn(d))
  {
    forall i | i in d.owned ensures i in d.kernel { assert Recorded(d, i); }
  }

  lemma RestartMomentsSafe(s: World, o: Op)
    requires Inv(s) && o.Restart?
    ensures forall d :: RestartCrashPoint(Reborn(s.dur), o, d) ==> DurableInv(d)
  {
    RebornDurable(s.dur);
    if s.dur.disk.Some? && o.readOk {
      var saved := s.dur.disk.value;
      forall n: nat | n <= |saved|
        ensures DurableInv(WithActive(Reborn(s.dur), Restore(saved, n, o.now, o.failingAdds).active)) {
        RestoringDurable(s.dur, o.now, n, o.failingAdds);
      }
      var restored := WithActive(Reborn(s.dur), Restore(saved, |saved|, o.now, o.failingAdds).active);
      forall gone: set<string> ensures DurableInv(KernelDelete(restored, gone)) {
        DeletedDurable(restored, gone);
      }
    }
  }

  /** The world after the restore loop and the expired deletes, before the file is rewritten. */
  lemma RestoredWorldInv(base: Durable, x: Restored, gone: set<string>)
    requires RestoredInv(x) && base.owned == {} && gone !! x.active.Keys
    ensures var d := KernelDelete(WithActive(base, x.active), gone);
      OwnedReferenced(x.mem, d) && UnownedAbsent(x.mem, d)
  {
  }

  lemma RestartKeepsInv(s: World, o: Op)
    requires Inv(s) && o.Restart?
    ensures Inv(Next(s, o))
    ensures forall d :: CrashPoint(s, o, d) ==> DurableInv(d)
  {
    RestartMomentsSafe(s, o);
    RebornDurable(s.dur);
    assert forall i :: !Referenced(map[], i);
    if s.dur.disk.Some? && o.readOk {
      var saved := s.dur.disk.value;
      var x := Restore(saved, |saved|, o.now, o.failingAdds);
      RestoreKeepsInv(saved, |saved|, o.now, o.failingAdds);
      var restored := WithActive(Reborn(s.dur), x.active);
      var gone := ExpiredDeleted(restored, x.active.Keys, ExpiredPairs(saved, o.now), o.failingDeletes);
      var d := KernelDelete(restored, gone);
      assert d == KernelDelete(restored, gone) && gone <= gone;
      assert DurableInv(d);
      RestoredWorldInv(Reborn(s.dur), x, gone);
      SaveKeepsDurable(x.mem, d);
    }
  }

  // ----- all operations, all runs -----

  /** One completed operation keeps the invariant, and every moment of it is safe. */
  lemma StepKeepsInv(s: World, o: Op)
    requires Inv(s) && Legal(s, o)
    ensures Inv(Next(s, o))
    ensures forall d :: CrashPoint(s, o, d) ==> DurableInv(d)
  {
    match o
    case Add(_, _, _, _, _, _, _, _) => AddKeepsInv(s, o);
    case Remove(_, _, _, _, _, _) => RemoveKeepsInv(s, o);
    case RemoveSystem(_, _, _, _, _, _) => RemoveSystemKeepsInv(s, o);
    case Sweep(_, _, _) => SweepKeepsInv(s, o);
    case Restart(_, _, _, _, _) => RestartKeepsInv(s, o);
  }

  lemma RemoveKeepsInv(s: World, r: Op)
    requires Inv(s) && r.Remove?
    ensures Inv(Next(s, r))
    ensures forall d :: CrashPoint(s, r, d) ==> DurableInv(d)
  {
    if InKernel(s.dur, r.ip, r.gateway) {
      EraseKeepsInv(s, r.ip, r.gateway, r.saveOk, r.readdOk);
    }
  }

  lemma RemoveSystemKeepsInv(s: World, r: Op)
    requires Inv(s) && r.RemoveSystem? && s.alive
    ensures Inv(Next(s, r))
    ensures forall d :: CrashPoint(s, r, d) ==> DurableInv(d)
  {
    if InKernel(s.dur, r.ip, r.gateway) {
      EraseKeepsInv(s, r.ip, r.gateway, r.saveOk, r.readdOk);
    }
  }

  lemma EventKeepsInv(s: World, e: Event)
    requires Inv(s) && LegalEvent(s, e)
    ensures Inv(After(s, e))
  {
    StepKeepsInv(s, e.op);
    if e.Cut? {
      RebornDurable(e.left);
      assert forall i :: !Referenced(map[], i);
    }
  }

  /** Write-ahead safety over every run, whatever saves and kernel calls fail and wherever the
      process is cut short: at the end and at every moment of one more operation, each kernel
      route the process owns is recorded in the file, and all keys agree on each gateway. */
  lemma {:induction false} RunIsWriteAhead(s: World, es: seq<Event>)
    requires Inv(s) && LegalRun(s, es)
    ensures Inv(Run(s, es)) && SingleGateway(Run(s, es).mem) && WriteAhead(Run(s, es).dur)
    ensures forall o, d :: Legal(Run(s, es), o) && CrashPoint(Run(s, es), o, d) ==> WriteAhead(d)
    decreases |es|
  {
    if es == [] {
      forall o, d | Legal(s, o) && CrashPoint(s, o, d) ensures WriteAhead(d) {
        StepKeepsInv(s, o);
      }
    } else {
      EventKeepsInv(s, es[0]);
      RunIsWriteAhead(After(s, es[0]), es[1..]);
    }
  }

  /** Before the first start: any kernel table, any file or none, and no process. */
  function Installed(disk: Option<string>, kernel: map<string, string>): World {
    var saved := if disk.Some? then Some(ParseFile(disk.value)) else None;
    World(map[], Durable(saved, kernel, {}, {}, map[]), 0, false)
  }

  lemma InstalledInv(disk: Option<string>, kernel: map<string, string>)
    ensures Inv(Installed(disk, kernel))
  {
    assert forall i :: !Referenced(map[], i);
  }
}
