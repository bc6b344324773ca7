/** Shared references, expiration times and retries over whole runs. */
module RouteLifetimes {
  import opened Text
  import opened RouteTable
  import opened RouteFile
  import opened RouteModel
  import opened RouteInvariants
  import opened RouteRecovery

  // ----- reference count and kernel ownership -----

  /** A destination is owned in the kernel exactly when some key references it. */
  ghost predicate CountExact(s: World) {
    forall i :: Referenced(s.mem, i) <==> i in s.dur.owned
  }

  /** The kernel route was deleted, the save failed, and putting the route back failed too. */
  ghost predicate ReaddFails(s: World, o: Op) {
    match o
    case Remove(key, ip, gateway, deleteOk, saveOk, readdOk) =>
      && Entry(s.mem, key, ip).Some? && Entry(s.mem, key, ip).value.gateway == gateway
      && deleteOk && InKernel(s.dur, ip, gateway) && !saveOk && !readdOk
    case RemoveSystem(ip, gateway, listOk, deleteOk, saveOk, readdOk) =>
      listOk && deleteOk && InKernel(s.dur, ip, gateway) && !saveOk && !readdOk
    case _ => false
  }

  lemma {:induction false} EraseCount(s: World, i: string, g: string, saveOk: bool, readdOk: bool)
    requires Inv(s) && CountExact(s) && InKernel(s.dur, i, g)
    ensures CountExact(EraseStep(s, i, g, saveOk, readdOk).0) <==> saveOk || readdOk || !Referenced(s.mem, i)
  {
    PresentGateway(s, i, g);
    EraseReferences(s.mem, i, g);
    var w := EraseStep(s, i, g, saveOk, readdOk).0;
    if !saveOk && !readdOk {
      assert w.mem == s.mem && w.dur.owned == s.dur.owned - {i};
    }
  }

  lemma {:induction false} AddCount(s: World, a: Op)
    requires Inv(s) && CountExact(s) && a.Add?
    ensures CountExact(Next(s, a))
  {
    AddOwns(s, a);
    PutReferences(s.mem, a.key, a.ip, NewMeta(a.now, a.gateway, a.ttl));
  }

  /** An add makes its destination owned exactly when it succeeds for an unreferenced one. */
  lemma {:induction false} AddOwns(s: World, a: Op)
    requires a.Add?
    ensures var (w, reply) := Step(s, a);
      && w.mem == (if reply == Done then Candidate(s.mem, a) else s.mem)
      && w.dur.owned == if reply != Done || Referenced(s.mem, a.ip) then s.dur.owned else s.dur.owned + {a.ip}
  {
    AddCases(s, a);
  }

  lemma {:induction false} SweepCount(s: World, o: Op)
    requires Inv(s) && CountExact(s) && o.Sweep?
    ensures CountExact(Next(s, o))
  {
    SweptReferences(s.mem, o.now, Deleted(s.mem, s.dur, o.now, o.failing));
  }

  /** One operation keeps the count exact unless, and only unless, a re-add fails for a
      destination that some key still references. */
  lemma {:induction false} StepCount(s: World, o: Op)
    requires Inv(s) && Legal(s, o) && CountExact(s)
    ensures CountExact(Next(s, o)) <==> !(ReaddFails(s, o) && Referenced(s.mem, o.ip))
  {
    match o
    case Add(_, _, _, _, _, _, _, _) => AddCount(s, o);
    case Remove(_, ip, gateway, _, saveOk, readdOk) =>
      if InKernel(s.dur, ip, gateway) {
        EraseCount(s, ip, gateway, saveOk, readdOk);
      }
    case RemoveSystem(ip, gateway, _, _, saveOk, readdOk) =>
      if InKernel(s.dur, ip, gateway) {
        EraseCount(s, ip, gateway, saveOk, readdOk);
      }
    case Sweep(_, _, _) => SweepCount(s, o);
    case Restart(_, _, _, _, _) => RestoredIsOwned(s, o);
  }

  ghost predicate NoReaddFails(s: World, es: seq<Event>)
    decreases |es|
  {
    es != [] ==> (es[0].Completed? ==> !ReaddFails(s, es[0].op)) && NoReaddFails(After(s, es[0]), es[1..])
  }

  /** Over every run, crashes and failed loads included: owned routes are referenced; and when no
      rollback re-add fails, referenced routes are owned. */
  lemma {:induction false} RunCount(s: World, es: seq<Event>)
    requires Inv(s) && CountExact(s) && LegalRun(s, es)
    ensures forall i :: i in Run(s, es).dur.owned ==> Referenced(Run(s, es).mem, i)
    ensures NoReaddFails(s, es) ==> CountExact(Run(s, es))
    decreases |es|
  {
    RunIsWriteAhead(s, es);
    if es != [] && NoReaddFails(s, es) {
      EventKeepsInv(s, es[0]);
      if es[0].Completed? {
        StepCount(s, es[0].op);
      } else {
        assert forall i :: !Referenced(map[], i);
      }
      RunCount(After(s, es[0]), es[1..]);
    }
  }

  /** A referenced destination whose kernel route a failed re-add has lost. */
  ghost predicate Lost(s: World, i: string) {
    Referenced(s.mem, i) && i !in s.dur.owned && i !in s.dur.kernel
  }

  lemma {:induction false} ReaddFailureLoses(s: World, o: Op)
    requires Inv(s) && Legal(s, o) && ReaddFails(s, o) && Referenced(s.mem, o.ip)
    ensures Lost(Next(s, o), o.ip)
  {
    if o.Remove? {
      assert Step(s, o) == RemoveStep(s, o);
    } else {
      assert Step(s, o) == RemoveSystemStep(s, o);
    }
  }

  lemma {:induction false} EraseKeepsLost(s: World, i: string, j: string, g: string, saveOk: bool, readdOk: bool)
    requires Inv(s) && Lost(s, i) && InKernel(s.dur, j, g)
    ensures Lost(EraseStep(s, j, g, saveOk, readdOk).0, i)
  {
    PresentGateway(s, j, g);
    EraseReferences(s.mem, j, g);
  }

  /** Such a destination can neither be removed nor expire, and adding it again does not bring its
      route back. */
  lemma {:induction false} StepKeepsLost(s: World, o: Op, i: string)
    requires Inv(s) && Legal(s, o) && !o.Restart? && Lost(s, i)
    ensures Lost(Next(s, o), i)
    ensures (o.Remove? || o.RemoveSystem?) && o.ip == i ==> Step(s, o).1 != Done
  {
    match o
    case Add(_, _, _, _, _, _, _, _) =>
      AddCases(s, o);
      PutReferences(s.mem, o.key, o.ip, NewMeta(o.now, o.gateway, o.ttl));
    case Remove(_, ip, gateway, _, saveOk, readdOk) =>
      assert Step(s, o) == RemoveStep(s, o);
      if InKernel(s.dur, ip, gateway) {
        EraseKeepsLost(s, i, ip, gateway, saveOk, readdOk);
      }
    case RemoveSystem(ip, gateway, _, _, saveOk, readdOk) =>
      assert Step(s, o) == RemoveSystemStep(s, o);
      if InKernel(s.dur, ip, gateway) {
        EraseKeepsLost(s, i, ip, gateway, saveOk, readdOk);
      }
    case Sweep(_, _, _) =>
      assert Step(s, o) == SweepStep(s, o);
      SweptReferences(s.mem, o.now, Deleted(s.mem, s.dur, o.now, o.failing));
  }

  ghost predicate NoRestart(s: World, os: seq<Op>)
    decreases |os|
  {
    os != [] ==> Legal(s, os[0]) && !os[0].Restart? && NoRestart(Next(s, os[0]), os[1..])
  }

  /** A route lost to a failed re-add stays referenced and out of the kernel, whatever the process
      does, until it restarts. */
  lemma {:induction false} LostUntilRestart(s: World, os: seq<Op>, i: string)
    requires Inv(s) && Lost(s, i) && NoRestart(s, os)
    ensures Lost(RunOps(s, os), i)
    decreases |os|
  {
    if os != [] {
      StepKeepsInv(s, os[0]);
      StepKeepsLost(s, os[0], i);
      LostUntilRestart(Next(s, os[0]), os[1..], i);
    }
  }

  /** A successful remove, or system remove, clears every reference to its destination under any
      key, and no other destination. */
  lemma {:induction false} RemoveClears(s: World, o: Op)
    requires Inv(s) && Legal(s, o) && (o.Remove? || o.RemoveSystem?) && Step(s, o).1 == Done
    ensures forall j :: Referenced(Next(s, o).mem, j) <==> Referenced(s.mem, j) && j != o.ip
    ensures o.ip !in Next(s, o).dur.kernel
  {
    if o.Remove? {
      assert Step(s, o) == RemoveStep(s, o);
    } else {
      assert Step(s, o) == RemoveSystemStep(s, o);
    }
    PresentGateway(s, o.ip, o.gateway);
    EraseReferences(s.mem, o.ip, o.gateway);
  }

  // ----- routes of other programs -----

  /** The kernel has a route at `i` that the process did not install. */
  ghost predicate External(d: Durable, i: string, g: string) {
    InKernel(d, i, g) && i !in d.owned
  }

  /** Only an add or a system remove that names the destination can touch such a route. */
  lemma {:induction false} ExternalSpared(s: World, o: Op, i: string, g: string)
    requires UnownedAbsent(s.mem, s.dur) && !o.Restart? && External(s.dur, i, g)
    requires o.Add? || o.RemoveSystem? ==> o.ip != i
    ensures External(Next(s, o).dur, i, g)
  {
    assert !Referenced(s.mem, i);
    match o
    case Add(_, _, _, _, _, _, _, _) => AddSpares(s, o, i, g);
    case Remove(_, _, _, _, _, _) => RemoveSpares(s, o, i, g);
    case RemoveSystem(_, _, _, _, _, _) => RemoveSystemSpares(s, o, i, g);
    case Sweep(_, _, _) => SweepSpares(s, o, i, g);
  }

  lemma {:induction false} AddSpares(s: World, o: Op, i: string, g: string)
    requires o.Add? && External(s.dur, i, g) && o.ip != i
    ensures External(Next(s, o).dur, i, g)
  {
    AddInstalls(s, o);
  }

  /** An add changes the kernel exactly when it succeeds for a destination nobody references. */
  lemma {:induction false} AddInstalls(s: World, a: Op)
    requires a.Add?
    ensures var d := Next(s, a).dur;
      if Step(s, a).1 == Done && !Referenced(s.mem, a.ip) then
        d.kernel == s.dur.kernel[a.ip := a.gateway] && d.owned == s.dur.owned + {a.ip}
        && d.legacy == s.dur.legacy - {a.ip}
      else d.kernel == s.dur.kernel && d.owned == s.dur.owned && d.legacy == s.dur.legacy
  {
    AddCases(s, a);
  }

  lemma {:induction false} RemoveSystemSpares(s: World, o: Op, i: string, g: string)
    requires o.RemoveSystem? && External(s.dur, i, g) && o.ip != i
    ensures External(Next(s, o).dur, i, g)
  {
    assert Step(s, o) == RemoveSystemStep(s, o);
    EraseSpares(s, o.ip, o.gateway, o.saveOk, o.readdOk, i, g);
  }

  lemma {:induction false} EraseSpares(s: World, j: string, h: string, saveOk: bool, readdOk: bool,
                                       i: string, g: string)
    requires External(s.dur, i, g) && i != j
    ensures External(EraseStep(s, j, h, saveOk, readdOk).0.dur, i, g)
  {
  }

  lemma {:induction false} RemoveSpares(s: World, o: Op, i: string, g: string)
    requires o.Remove? && External(s.dur, i, g) && !Referenced(s.mem, i)
    ensures External(Next(s, o).dur, i, g)
  {
    assert Step(s, o) == RemoveStep(s, o);
    if o.ip == i {
      assert Entry(s.mem, o.key, i).None?;
    } else {
      EraseSpares(s, o.ip, o.gateway, o.saveOk, o.readdOk, i, g);
    }
  }

  lemma {:induction false} SweepSpares(s: World, o: Op, i: string, g: string)
    requires o.Sweep? && External(s.dur, i, g) && !Referenced(s.mem, i)
    ensures External(Next(s, o).dur, i, g)
  {
    assert Step(s, o) == SweepStep(s, o);
  }

  ghost predicate NeverNamed(s: World, os: seq<Op>, i: string)
    decreases |os|
  {
    os != [] ==>
      && Legal(s, os[0]) && !os[0].Restart? && (os[0].Add? || os[0].RemoveSystem? ==> os[0].ip != i)
      && NeverNamed(Next(s, os[0]), os[1..], i)
  }

  /** The expiration worker and deletions by key never take away a route of another program. */
  lemma {:induction false} ExternalSparedOverRuns(s: World, os: seq<Op>, i: string, g: string)
    requires Inv(s) && External(s.dur, i, g) && NeverNamed(s, os, i)
    ensures External(RunOps(s, os).dur, i, g)
    decreases |os|
  {
    if os != [] {
      StepKeepsInv(s, os[0]);
      ExternalSpared(s, os[0], i, g);
      ExternalSparedOverRuns(Next(s, os[0]), os[1..], i, g);
    }
  }

  /** A route of another program that the file says nothing of. */
  ghost predicate Unknown(d: Durable, i: string, g: string) {
    External(d, i, g) && Unrecorded(SavedRecords(d), i)
  }

  predicate Unrecorded(saved: seq<SavedRoute>, i: string) {
    forall r :: r in saved ==> r.ip != i
  }

  lemma UnreferencedUnrecorded(t: Table, i: string)
    requires !Referenced(t, i)
    ensures Unrecorded(Records(t), i)
  {
    RecordsExact(t);
    forall r | r in Records(t) ensures r.ip != i {
      assert Entry(t, r.key, r.ip).Some?;
    }
  }

  /** A load restores no destination without a record. */
  lemma {:induction false} NotRestored(saved: seq<SavedRoute>, n: nat, now: nat, failing: set<nat>, i: string)
    requires n <= |saved| && Unrecorded(saved, i)
    ensures i !in Restore(saved, n, now, failing).active
  {
    if n > 0 {
      NotRestored(saved, n - 1, now, failing, i);
      assert saved[n - 1] in saved;
    }
  }

  /** Every moment of a load leaves such a route alone. */
  lemma {:induction false} LoadSparesUnknown(base: Durable, o: Op, d: Durable, i: string, g: string)
    requires o.Restart? && Unknown(base, i, g) && RestartCrashPoint(base, o, d)
    ensures Unknown(d, i, g)
  {
    LoadMoment(base, o, d);
    if d != base {
      var saved := base.disk.value;
      NotRestored(saved, |saved|, o.now, o.failingAdds, i);
      if n :| 0 <= n <= |saved| && d == WithActive(base, Restore(saved, n, o.now, o.failingAdds).active) {
        NotRestored(saved, n, o.now, o.failingAdds, i);
      }
    }
  }

  lemma {:induction false} LoadedSparesUnknown(s: World, o: Op, i: string, g: string)
    requires Inv(s) && o.Restart? && Legal(s, o) && Unknown(Reborn(s.dur), i, g)
    ensures Unknown(Next(s, o).dur, i, g)
  {
    var base := Reborn(s.dur);
    assert Step(s, o) == RestartStep(s, o);
    if base.disk.Some? && o.readOk {
      var saved := base.disk.value;
      var x := Restore(saved, |saved|, o.now, o.failingAdds);
      var restored := WithActive(base, x.active);
      var gone := ExpiredDeleted(restored, x.active.Keys, ExpiredPairs(saved, o.now), o.failingDeletes);
      assert RestartCrashPoint(base, o, KernelDelete(restored, gone)) by {
        assert gone <= gone && KernelDelete(restored, gone) == KernelDelete(restored, gone);
      }
      LoadSparesUnknown(base, o, KernelDelete(restored, gone), i, g);
      RestoredIsOwned(s, o);
      assert i !in Next(s, o).dur.owned;
      UnreferencedUnrecorded(Next(s, o).mem, i);
    }
  }

  /** Every moment of any operation that does not name the destination leaves it alone. */
  lemma {:induction false} MomentSparesUnknown(s: World, o: Op, d: Durable, i: string, g: string)
    requires Inv(s) && Legal(s, o) && CrashPoint(s, o, d) && Unknown(s.dur, i, g)
    requires o.Add? || o.RemoveSystem? ==> o.ip != i
    ensures InKernel(d, i, g) && (o.Restart? || i !in d.owned) && Unrecorded(SavedRecords(d), i)
    ensures Unknown(Reborn(d), i, g)
  {
    if d == s.dur {
    } else if o.Restart? {
      if d == Next(s, o).dur {
        LoadedSparesUnknown(s, o, i, g);
      } else {
        LoadSparesUnknown(Reborn(s.dur), o, d, i, g);
      }
    } else {
      CutSparesExternal(s, o, d, i, g);
      UnnamedUnrecorded(s, o, d, i, g);
    }
  }

  lemma {:induction false} CutSparesExternal(s: World, o: Op, d: Durable, i: string, g: string)
    requires UnownedAbsent(s.mem, s.dur) && !o.Restart? && CrashPoint(s, o, d) && External(s.dur, i, g)
    requires o.Add? || o.RemoveSystem? ==> o.ip != i
    ensures External(d, i, g)
  {
    assert !Referenced(s.mem, i);
    if d == Next(s, o).dur {
      ExternalSpared(s, o, i, g);
    } else if o.Sweep? {
      assert i !in Deleted(s.mem, s.dur, o.now, o.failing);
    }
  }

  lemma {:induction false} UnnamedUnrecorded(s: World, o: Op, d: Durable, i: string, g: string)
    requires Inv(s) && Legal(s, o) && !o.Restart? && CrashPoint(s, o, d) && Unknown(s.dur, i, g)
    requires o.Add? || o.RemoveSystem? ==> o.ip != i
    ensures Unrecorded(SavedRecords(d), i)
  {
    var v := FileAtMoment(s, o, d);
    if v.Attempt? {
      PutReferences(s.mem, o.key, o.ip, NewMeta(o.now, o.gateway, o.ttl));
      assert !Referenced(s.mem, i);
      UnreferencedUnrecorded(Candidate(s.mem, o), i);
    } else if v.Later? {
      ExternalSpared(s, o, i, g);
      assert !Referenced(Next(s, o).mem, i) by { StepKeepsInv(s, o); }
      UnreferencedUnrecorded(Next(s, o).mem, i);
    }
  }

  ghost predicate NeverNamedIn(s: World, es: seq<Event>, i: string)
    decreases |es|
  {
    es != [] ==>
      && (es[0].op.Add? || es[0].op.RemoveSystem? ==> es[0].op.ip != i)
      && NeverNamedIn(After(s, es[0]), es[1..], i)
  }

  /** Over every run, restarts, crashes and failures included, no kernel route of another program is
      taken away or changed whose destination the file does not record and no add or system remove
      names. */
  lemma {:induction false} UnknownSparedOverRuns(s: World, es: seq<Event>, i: string, g: string)
    requires Inv(s) && LegalRun(s, es) && Unknown(s.dur, i, g) && NeverNamedIn(s, es, i)
    ensures Unknown(Run(s, es).dur, i, g)
    decreases |es|
  {
    if es != [] {
      var e := es[0];
      EventKeepsInv(s, e);
      EventSparesUnknown(s, e, i, g);
      UnknownSparedOverRuns(After(s, e), es[1..], i, g);
    }
  }

  lemma {:induction false} EventSparesUnknown(s: World, e: Event, i: string, g: string)
    requires Inv(s) && LegalEvent(s, e) && Unknown(s.dur, i, g)
    requires e.op.Add? || e.op.RemoveSystem? ==> e.op.ip != i
    ensures Unknown(After(s, e).dur, i, g)
  {
    match e
    case Completed(o) =>
      if o.Restart? {
        LoadedSparesUnknown(s, o, i, g);
      } else {
        MomentSparesUnknown(s, o, Next(s, o).dur, i, g);
      }
    case Cut(o, d) => MomentSparesUnknown(s, o, d, i, g);
  }

  // ----- failed operations are invisible -----

  lemma {:induction false} EraseFailure(s: World, i: string, g: string, saveOk: bool, readdOk: bool)
    ensures var (w, reply) := EraseStep(s, i, g, saveOk, readdOk);
      && (reply == Done <==> saveOk)
      && (!saveOk ==> w.mem == s.mem && w.dur.disk == s.dur.disk)
      && (!saveOk ==> w.dur.kernel == if readdOk then s.dur.kernel else s.dur.kernel - {i})
  {
  }

  /** When add, remove or remove_system fails, memory is as before; the kernel is as before except
      that a failed re-add loses the one route; and the file is unchanged or encodes the unchanged
      memory, except that a failed rollback save leaves it with the candidate. */
  lemma {:induction false} FailureIsInvisible(s: World, o: Op)
    requires (o.Add? || o.Remove? || o.RemoveSystem?) && Step(s, o).1 != Done
    ensures Next(s, o).mem == s.mem
    ensures Next(s, o).dur.kernel == if ReaddFails(s, o) then s.dur.kernel - {o.ip} else s.dur.kernel
    ensures var disk := Next(s, o).dur.disk;
      if RollbackSaveFails(s, o) then disk == Some(Records(Candidate(s.mem, o)))
      else disk == s.dur.disk || disk == Some(Records(s.mem))
  {
    match o
    case Add(_, _, _, _, _, _, _, _) => AddCases(s, o);
    case Remove(_, _, _, _, _, _) => FailedRemove(s, o);
    case RemoveSystem(_, _, _, _, _, _) => FailedRemoveSystem(s, o);
  }

  lemma {:induction false} FailedRemove(s: World, o: Op)
    requires o.Remove? && Step(s, o).1 != Done
    ensures Next(s, o).mem == s.mem && Next(s, o).dur.disk == s.dur.disk
    ensures Next(s, o).dur.kernel == if ReaddFails(s, o) then s.dur.kernel - {o.ip} else s.dur.kernel
  {
    assert Step(s, o) == RemoveStep(s, o);
    EraseFailure(s, o.ip, o.gateway, o.saveOk, o.readdOk);
    if Step(s, o).1 in {KeyNotFound, RouteNotFound, SystemFailed} {
      assert Next(s, o) == s;
    } else {
      assert Step(s, o) == EraseStep(s, o.ip, o.gateway, o.saveOk, o.readdOk);
    }
  }

  lemma {:induction false} FailedRemoveSystem(s: World, o: Op)
    requires o.RemoveSystem? && Step(s, o).1 != Done
    ensures Next(s, o).mem == s.mem && Next(s, o).dur.disk == s.dur.disk
    ensures Next(s, o).dur.kernel == if ReaddFails(s, o) then s.dur.kernel - {o.ip} else s.dur.kernel
  {
    assert Step(s, o) == RemoveSystemStep(s, o);
    EraseFailure(s, o.ip, o.gateway, o.saveOk, o.readdOk);
    if Step(s, o).1 in {ListFailed, NotInSystem, SystemFailed} {
      assert Next(s, o) == s;
    } else {
      assert Step(s, o) == EraseStep(s, o.ip, o.gateway, o.saveOk, o.readdOk);
    }
  }

  // ----- the sweep, destination by destination -----

  /** Of all references to `i` only that of key `k` is left, with the attempt noted. */
  ghost predicate OnlyLeft(before: Table, t: Table, k: string, i: string, now: nat) {
    && Entry(before, k, i).Some?
    && Entry(t, k, i) == Some(Entry(before, k, i).value.(lastAttempt := now))
    && forall k' :: k' != k ==> Entry(t, k', i).None?
  }

  /** Entries not due stay as they are. If some reference to `i` is not due, all due ones go and
      the kernel is not asked. If all are due, the kernel is asked; on success none remains; on
      failure only the last in key order remains, with the attempt noted. */
  lemma {:induction false} SweepRule(s: World, o: Op, i: string)
    requires Inv(s) && o.Sweep? && Legal(s, o) && Referenced(s.mem, i)
    ensures var t := Next(s, o).mem;
      && NoEmptyGroup(t)
      && (forall k :: Entry(s.mem, k, i).Some? && !Due(Entry(s.mem, k, i).value, o.now) ==>
            Entry(t, k, i) == Entry(s.mem, k, i))
      && (i !in Attempted(s.mem, o.now) ==>
            && (forall k :: Entry(s.mem, k, i).Some? && Due(Entry(s.mem, k, i).value, o.now) ==> Entry(t, k, i).None?)
            && (exists k :: Entry(t, k, i).Some?) && (i in Next(s, o).dur.kernel <==> i in s.dur.kernel))
      && (i in Attempted(s.mem, o.now) ==>
            && (forall k :: Entry(s.mem, k, i).Some? ==> Due(Entry(s.mem, k, i).value, o.now))
            && if i in s.dur.owned && i !in o.failing then !Referenced(t, i) && i !in Next(s, o).dur.kernel
               else exists k :: IsLast(s.mem, k, i) && OnlyLeft(s.mem, t, k, i, o.now))
  {
    var deleted := Deleted(s.mem, s.dur, o.now, o.failing);
    var t := SweptTable(s.mem, o.now, deleted);
    if i in Attempted(s.mem, o.now) {
      var k := LastReference(s.mem, i);
      assert i in deleted <==> i in s.dur.owned && i !in o.failing;
      forall k' | k' != k ensures Entry(t, k', i).None? {
        if IsLast(s.mem, k', i) {
          LessAsymmetric(k, k');
        }
      }
      if i !in deleted {
        assert OnlyLeft(s.mem, t, k, i, o.now);
      }
    } else {
      var k :| Entry(s.mem, k, i).Some? && !Due(Entry(s.mem, k, i).value, o.now);
      assert Entry(t, k, i).Some?;
    }
  }

  // ----- retry spacing -----

  /** The entry is refreshed by a successful add, or its destination successfully removed. */
  ghost predicate Touches(s: World, o: Op, k: string, i: string) {
    Step(s, o).1 == Done &&
    match o
    case Add(_, key, ip, _, _, _, _, _) => key == k && ip == i
    case Remove(_, ip, _, _, _, _) => ip == i
    case RemoveSystem(ip, _, _, _, _, _) => ip == i
    case _ => false
  }

  /** A run of one process in which the entry is neither refreshed nor removed by request. */
  ghost predicate Untouched(s: World, os: seq<Op>, k: string, i: string)
    decreases |os|
  {
    os != [] ==>
      && Legal(s, os[0]) && !os[0].Restart? && !Touches(s, os[0], k, i)
      && Untouched(Next(s, os[0]), os[1..], k, i)
  }

  /** No sweep of the run asks the kernel to delete `i` before `limit`. */
  ghost predicate NoAttemptBefore(s: World, os: seq<Op>, i: string, limit: nat)
    decreases |os|
  {
    os != [] ==>
      && (os[0].Sweep? && i in Attempted(s.mem, os[0].now) ==> os[0].now >= limit)
      && NoAttemptBefore(Next(s, os[0]), os[1..], i, limit)
  }

  lemma {:induction false} LateRun(s: World, os: seq<Op>, k: string, i: string, limit: nat)
    requires s.clock >= limit && Untouched(s, os, k, i)
    ensures NoAttemptBefore(s, os, i, limit)
    decreases |os|
  {
    if os != [] {
      LateRun(Next(s, os[0]), os[1..], k, i, limit);
    }
  }

  /** The survivor itself keeps every other key's reference to its destination from being tried. */
  lemma {:induction false} SurvivorStays(s: World, o: Op, k: string, i: string, t0: nat)
    requires Legal(s, o) && !o.Restart? && !Touches(s, o, k, i)
    requires Entry(s.mem, k, i).Some? && Entry(s.mem, k, i).value.lastAttempt == t0 && t0 > 0
    requires o.Sweep? ==> o.now < t0 + RETRY_SECONDS
    ensures o.Sweep? ==> i !in Attempted(s.mem, o.now)
    ensures Entry(Next(s, o).mem, k, i).Some? && Entry(Next(s, o).mem, k, i).value.lastAttempt == t0
  {
    match o
    case Add(_, _, _, _, _, _, _, _) => AddOwns(s, o);
    case Remove(_, _, _, _, _, _) => RemoveLeaves(s, o, k, i);
    case RemoveSystem(_, _, _, _, _, _) => RemoveLeaves(s, o, k, i);
    case Sweep(_, _, _) => WaitingStays(s, o, k, i);
  }

  lemma {:induction false} RemoveLeaves(s: World, o: Op, k: string, i: string)
    requires (o.Remove? || o.RemoveSystem?) && !(Step(s, o).1 == Done && o.ip == i)
    ensures Entry(Next(s, o).mem, k, i) == Entry(s.mem, k, i)
  {
    ErasedEntries(s, o.ip, o.gateway, o.saveOk, o.readdOk);
    if o.Remove? {
      assert Step(s, o) == RemoveStep(s, o);
    } else {
      assert Step(s, o) == RemoveSystemStep(s, o);
    }
  }

  lemma {:induction false} WaitingStays(s: World, o: Op, k: string, i: string)
    requires o.Sweep? && Entry(s.mem, k, i).Some? && !Due(Entry(s.mem, k, i).value, o.now)
    ensures i !in Attempted(s.mem, o.now) && Entry(Next(s, o).mem, k, i) == Entry(s.mem, k, i)
  {
    assert Step(s, o) == SweepStep(s, o);
  }

  lemma {:induction false} ErasedEntries(s: World, i: string, g: string, saveOk: bool, readdOk: bool)
    ensures var (w, reply) := EraseStep(s, i, g, saveOk, readdOk);
      && (reply != Done ==> w.mem == s.mem)
      && forall k, j :: j != i ==> Entry(w.mem, k, j) == Entry(s.mem, k, j)
  {
  }

  lemma {:induction false} SurvivorBlocks(s: World, os: seq<Op>, k: string, i: string, t0: nat)
    requires Untouched(s, os, k, i) && t0 > 0
    requires Entry(s.mem, k, i).Some? && Entry(s.mem, k, i).value.lastAttempt == t0
    ensures NoAttemptBefore(s, os, i, t0 + RETRY_SECONDS)
    decreases |os|
  {
    if os != [] {
      var o := os[0];
      if o.Sweep? && o.now >= t0 + RETRY_SECONDS {
        LateRun(Next(s, o), os[1..], k, i, t0 + RETRY_SECONDS);
      } else {
        SurvivorStays(s, o, k, i, t0);
        SurvivorBlocks(Next(s, o), os[1..], k, i, t0);
      }
    }
  }

  lemma {:induction false} FailedAttempt(s: World, sweep: Op, k: string, i: string)
    requires sweep.Sweep? && IsLast(s.mem, k, i)
    requires i in Attempted(s.mem, sweep.now) && i !in Deleted(s.mem, s.dur, sweep.now, sweep.failing)
    ensures Entry(Next(s, sweep).mem, k, i).Some?
    ensures Entry(Next(s, sweep).mem, k, i).value.lastAttempt == sweep.now
  {
    assert Next(s, sweep).mem == SweptTable(s.mem, sweep.now, Deleted(s.mem, s.dur, sweep.now, sweep.failing)) by {
      assert Step(s, sweep) == SweepStep(s, sweep);
    }
    assert SweptEntry(s.mem, sweep.now, Deleted(s.mem, s.dur, sweep.now, sweep.failing), k, i)
      == Some(Entry(s.mem, k, i).value.(lastAttempt := sweep.now));
  }

  /** After a sweep fails to delete `i`, its last reference survives, and whatever the process does
      next without refreshing or removing it, no sweep tries `i` again, under any key, for 30
      seconds. */
  lemma {:induction false} RetrySpacing(s: World, sweep: Op, os: seq<Op>, k: string, i: string)
    requires sweep.Sweep? && sweep.now > 0 && IsLast(s.mem, k, i)
    requires i in Attempted(s.mem, sweep.now) && i !in Deleted(s.mem, s.dur, sweep.now, sweep.failing)
    requires Untouched(Next(s, sweep), os, k, i)
    ensures NoAttemptBefore(Next(s, sweep), os, i, sweep.now + RETRY_SECONDS)
  {
    assert Entry(Next(s, sweep).mem, k, i).Some? && Entry(Next(s, sweep).mem, k, i).value.lastAttempt == sweep.now by {
      FailedAttempt(s, sweep, k, i);
    }
    SurvivorBlocks(Next(s, sweep), os, k, i, sweep.now);
  }

  // ----- never early, never for permanent routes -----

  /** The expiration time is that of the credited add, and no sum overflows. */
  predicate Backed(credits: map<(string, string), Credit>, k: string, i: string, expiresAt: nat) {
    && (k, i) in credits
    && !TooLarge(credits[(k, i)].time, credits[(k, i)].ttl)
    && expiresAt == Expiration(credits[(k, i)].time, credits[(k, i)].ttl)
  }

  ghost predicate TableBacked(t: Table, credits: map<(string, string), Credit>) {
    forall k, i :: Entry(t, k, i).Some? ==> Backed(credits, k, i, Entry(t, k, i).value.expiresAt)
  }

  ghost predicate FileBacked(d: Durable) {
    RecordsBacked(SavedRecords(d), d.credits)
  }

  ghost predicate RecordsBacked(saved: seq<SavedRoute>, credits: map<(string, string), Credit>) {
    forall r :: r in saved ==> Backed(credits, r.key, r.ip, r.expiresAt)
  }

  ghost predicate WorldBacked(s: World) {
    TableBacked(s.mem, s.dur.credits) && FileBacked(s.dur)
  }

  /** What a credit is: the latest add that returned true, or whose record a failed rollback save
      left in the file. Nothing else changes credits. */
  lemma {:induction false} CreditsFollowAdds(s: World, o: Op)
    ensures Next(s, o).dur.credits ==
      if o.Add? && (Step(s, o).1 == Done || RollbackSaveFails(s, o))
      then s.dur.credits[(o.key, o.ip) := Credit(o.now, o.ttl)]
      else s.dur.credits
  {
    if o.Add? {
      AddCases(s, o);
    } else {
      OtherCredits(s, o);
    }
  }

  lemma {:induction false} OtherCredits(s: World, o: Op)
    requires !o.Add?
    ensures Next(s, o).dur.credits == s.dur.credits
  {
    if o.Remove? {
      assert Step(s, o) == RemoveStep(s, o);
      EraseCredits(s, o.ip, o.gateway, o.saveOk, o.readdOk);
    } else if o.RemoveSystem? {
      assert Step(s, o) == RemoveSystemStep(s, o);
      EraseCredits(s, o.ip, o.gateway, o.saveOk, o.readdOk);
    } else if o.Sweep? {
      assert Step(s, o) == SweepStep(s, o);
    } else {
      RestartCredits(s, o);
    }
  }

  lemma {:induction false} EraseCredits(s: World, i: string, g: string, saveOk: bool, readdOk: bool)
    ensures EraseStep(s, i, g, saveOk, readdOk).0.dur.credits == s.dur.credits
  {
  }

  lemma {:induction false} RestartCredits(s: World, o: Op)
    requires o.Restart?
    ensures Next(s, o).dur.credits == s.dur.credits
  {
    assert Step(s, o) == RestartStep(s, o);
    if s.dur.disk.None? {
    } else if !o.readOk {
    } else {
      var x := Restore(s.dur.disk.value, |s.dur.disk.value|, o.now, o.failingAdds);
      assert WithActive(Reborn(s.dur), x.active).credits == s.dur.credits;
    }
  }

  lemma SavedTableBacked(t: Table, credits: map<(string, string), Credit>)
    requires TableBacked(t, credits)
    ensures RecordsBacked(Records(t), credits)
  {
    RecordsExact(t);
    forall r | r in Records(t) ensures Backed(credits, r.key, r.ip, r.expiresAt) {
      assert Entry(t, r.key, r.ip).Some?;
    }
  }

  lemma {:induction false} CandidateBacked(s: World, a: Op)
    requires a.Add? && TableBacked(s.mem, s.dur.credits) && AddAccepted(s, a)
    ensures var credits := Credited(s.dur, s.mem, a).credits;
      && TableBacked(Candidate(s.mem, a), credits) && RecordsBacked(Records(Candidate(s.mem, a)), credits)
      && (!Referenced(s.mem, a.ip) ==> TableBacked(s.mem, credits))
  {
    var credits := Credited(s.dur, s.mem, a).credits;
    PutBacked(s.mem, s.dur.credits, a.key, a.ip, NewMeta(a.now, a.gateway, a.ttl), Credit(a.now, a.ttl));
    SavedTableBacked(Candidate(s.mem, a), credits);
    if !Referenced(s.mem, a.ip) {
      forall k, i | Entry(s.mem, k, i).Some? ensures Backed(credits, k, i, Entry(s.mem, k, i).value.expiresAt) {
        assert i != a.ip;
      }
    }
  }

  /** An entry and its credit entered together. */
  lemma {:induction false} PutBacked(t: Table, credits: map<(string, string), Credit>, key: string, ip: string,
                                     m: Meta, c: Credit)
    requires TableBacked(t, credits) && !TooLarge(c.time, c.ttl) && m.expiresAt == Expiration(c.time, c.ttl)
    ensures TableBacked(Put(t, key, ip, m), credits[(key, ip) := c])
  {
    var u, all := Put(t, key, ip, m), credits[(key, ip) := c];
    forall k, i | Entry(u, k, i).Some? ensures Backed(all, k, i, Entry(u, k, i).value.expiresAt) {
      if (k, i) != (key, ip) {
        assert Entry(u, k, i) == Entry(t, k, i);
      }
    }
  }

  /** What an add leaves in memory, in the file and as credit. */
  lemma {:induction false} AddLeaves(s: World, a: Op)
    requires a.Add?
    ensures var w := Next(s, a); var t := Candidate(s.mem, a); var c := Credited(s.dur, s.mem, a).credits;
      || (w.mem == s.mem && w.dur.disk == s.dur.disk && w.dur.credits == s.dur.credits)
      || (w.mem == s.mem && w.dur.disk == Some(Records(s.mem)) && w.dur.credits == s.dur.credits)
      || (AddAccepted(s, a) && w.dur.disk == Some(Records(t)) && w.dur.credits == c
          && (w.mem == t || (w.mem == s.mem && !Referenced(s.mem, a.ip))))
  {
    AddCases(s, a);
  }

  lemma {:induction false} AddBacked(s: World, a: Op)
    requires a.Add? && WorldBacked(s)
    ensures WorldBacked(Next(s, a))
    ensures forall d :: CrashPoint(s, a, d) ==> FileBacked(d)
  {
    AddedBacked(s, a);
    if AddAccepted(s, a) {
      CandidateBacked(s, a);
      assert FileBacked(Credited(s.dur, s.mem, a));
    }
    forall d | CrashPoint(s, a, d) ensures FileBacked(d) {
      assert d == s.dur || d == Next(s, a).dur || (AddAccepted(s, a) && d == Credited(s.dur, s.mem, a));
    }
  }

  lemma {:induction false} AddedBacked(s: World, a: Op)
    requires a.Add? && WorldBacked(s)
    ensures WorldBacked(Next(s, a))
  {
    var w := Next(s, a);
    AddLeaves(s, a);
    SavedTableBacked(s.mem, s.dur.credits);
    if AddAccepted(s, a) {
      CandidateBacked(s, a);
    }
    assert RecordsBacked(SavedRecords(w.dur), w.dur.credits);
    assert TableBacked(w.mem, w.dur.credits);
  }

  lemma {:induction false} RestoredBacked(saved: seq<SavedRoute>, n: nat, now: nat, failing: set<nat>,
                                          credits: map<(string, string), Credit>)
    requires n <= |saved| && forall r :: r in saved ==> Backed(credits, r.key, r.ip, r.expiresAt)
    ensures TableBacked(Restore(saved, n, now, failing).mem, credits)
  {
    if n > 0 {
      RestoredBacked(saved, n - 1, now, failing, credits);
      var x := Restore(saved, n - 1, now, failing);
      var r := saved[n - 1];
      assert r in saved;
      var y := Restore(saved, n, now, failing);
      assert y.mem == x.mem || y.mem == Put(x.mem, r.key, r.ip, SavedMeta(r));
    }
  }

  lemma {:induction false} StepBacked(s: World, o: Op)
    requires Inv(s) && Legal(s, o) && WorldBacked(s)
    ensures WorldBacked(Next(s, o))
    ensures forall d :: CrashPoint(s, o, d) ==> FileBacked(d)
  {
    match o
    case Add(_, _, _, _, _, _, _, _) => AddBacked(s, o);
    case Remove(_, _, _, _, _, _) => RemoveBacked(s, o);
    case RemoveSystem(_, _, _, _, _, _) => RemoveSystemBacked(s, o);
    case Sweep(_, _, _) => SweepBacked(s, o);
    case Restart(_, _, _, _, _) => RestartBacked(s, o);
  }

  lemma {:induction false} SweepBacked(s: World, o: Op)
    requires o.Sweep? && WorldBacked(s)
    ensures WorldBacked(Next(s, o))
    ensures forall d :: CrashPoint(s, o, d) ==> FileBacked(d)
  {
    var deleted := Deleted(s.mem, s.dur, o.now, o.failing);
    SweptBacked(s.mem, s.dur.credits, o.now, deleted);
    SavedTableBacked(SweptTable(s.mem, o.now, deleted), s.dur.credits);
    var w := Next(s, o);
    assert w == SweepStep(s, o).0;
    assert w.mem == SweptTable(s.mem, o.now, deleted) && w.dur.credits == s.dur.credits;
    assert FileBacked(w.dur);
  }

  lemma {:induction false} SweptBacked(t: Table, credits: map<(string, string), Credit>, now: nat, deleted: set<string>)
    requires TableBacked(t, credits)
    ensures TableBacked(SweptTable(t, now, deleted), credits)
  {
    var u := SweptTable(t, now, deleted);
    forall k, i | Entry(u, k, i).Some? ensures Backed(credits, k, i, Entry(u, k, i).value.expiresAt) {
      assert Entry(u, k, i) == SweptEntry(t, now, deleted, k, i);
    }
  }

  lemma {:induction false} RemoveBacked(s: World, o: Op)
    requires o.Remove? && WorldBacked(s)
    ensures WorldBacked(Next(s, o))
    ensures forall d :: CrashPoint(s, o, d) ==> FileBacked(d)
  {
    EraseBacked(s, o.ip, o.gateway);
    assert Step(s, o) == RemoveStep(s, o);
  }

  lemma {:induction false} RemoveSystemBacked(s: World, o: Op)
    requires o.RemoveSystem? && WorldBacked(s)
    ensures WorldBacked(Next(s, o))
    ensures forall d :: CrashPoint(s, o, d) ==> FileBacked(d)
  {
    EraseBacked(s, o.ip, o.gateway);
    assert Step(s, o) == RemoveSystemStep(s, o);
  }

  lemma EraseBacked(s: World, i: string, g: string)
    requires WorldBacked(s)
    ensures TableBacked(Unreference(s.mem, i, g), s.dur.credits)
    ensures FileBacked(Save(KernelDelete(s.dur, {i}), Unreference(s.mem, i, g)))
  {
    var t := Unreference(s.mem, i, g);
    forall k, j | Entry(t, k, j).Some? ensures Backed(s.dur.credits, k, j, Entry(t, k, j).value.expiresAt) {
      assert Entry(t, k, j) == Entry(s.mem, k, j);
    }
    SavedTableBacked(t, s.dur.credits);
  }

  lemma {:induction false} RestartBacked(s: World, o: Op)
    requires o.Restart? && WorldBacked(s)
    ensures WorldBacked(Next(s, o))
    ensures forall d :: CrashPoint(s, o, d) ==> FileBacked(d)
  {
    LoadBacked(Reborn(s.dur), o);
    assert Step(s, o) == RestartStep(s, o);
    forall d | CrashPoint(s, o, d) ensures FileBacked(d) {
      if d != s.dur && d != Next(s, o).dur {
        LoadMoment(Reborn(s.dur), o, d);
      }
    }
  }

  lemma {:induction false} LoadBacked(base: Durable, o: Op)
    requires o.Restart? && FileBacked(base)
    ensures WorldBacked(LoadFrom(base, o).0)
  {
    if base.disk.Some? && o.readOk {
      var saved := base.disk.value;
      RestoredBacked(saved, |saved|, o.now, o.failingAdds, base.credits);
      SavedTableBacked(Restore(saved, |saved|, o.now, o.failingAdds).mem, base.credits);
    }
  }

  /** A load leaves the file alone until it rewrites it. */
  lemma {:induction false} LoadMoment(base: Durable, o: Op, d: Durable)
    requires o.Restart? && RestartCrashPoint(base, o, d)
    ensures d.disk == base.disk && d.credits == base.credits
  {
  }

  lemma {:induction false} RunBacked(s: World, es: seq<Event>)
    requires Inv(s) && WorldBacked(s) && LegalRun(s, es)
    ensures Inv(Run(s, es)) && WorldBacked(Run(s, es))
    decreases |es|
  {
    if es != [] {
      StepBacked(s, es[0].op);
      EventKeepsInv(s, es[0]);
      RunBacked(After(s, es[0]), es[1..]);
    }
  }

  // ----- the credit is the latest add -----

  /** An add whose record was left in the file, and whether it returned true. */
  datatype Trial = Trial(credit: Credit, answered: bool)

  /** The add was cut after its record was saved and before any rollback. */
  ghost predicate CutAfterSave(s: World, a: Op, d: Durable)
    requires a.Add?
  {
    var saved := Credited(s.dur, s.mem, a);
    AddAccepted(s, a) && a.saveOk && (d == saved || d == KernelAdd(saved, a.ip, a.gateway))
  }

  ghost predicate Returned(s: World, e: Event) {
    e.Completed? && e.op.Add? && Step(s, e.op).1 == Done
  }

  /** The add did not return true, but its record stayed in the file. */
  ghost predicate Unanswered(s: World, e: Event) {
    e.op.Add? && match e
      case Completed(a) => RollbackSaveFails(s, a)
      case Cut(a, d) => CutAfterSave(s, a, d)
  }

  /** The latest add of an entry whose record was left in the file, over the events of a run. */
  ghost function LatestTrial(s: World, es: seq<Event>, k: string, i: string, last: Option<Trial>): Option<Trial>
    decreases |es|
  {
    if es == [] then last
    else LatestTrial(After(s, es[0]), es[1..], k, i, TrialAfter(s, es[0], k, i, last))
  }

  ghost function TrialAfter(s: World, e: Event, k: string, i: string, last: Option<Trial>): Option<Trial> {
    if !e.op.Add? || e.op.key != k || e.op.ip != i then last
    else if Returned(s, e) then Some(Trial(Credit(e.op.now, e.op.ttl), true))
    else if Unanswered(s, e) then Some(Trial(Credit(e.op.now, e.op.ttl), false))
    else last
  }

  /** The latest add of an entry that returned true. */
  ghost function LatestSuccess(s: World, es: seq<Event>, k: string, i: string, last: Option<Credit>): Option<Credit>
    decreases |es|
  {
    if es == [] then last
    else
      var e := es[0];
      LatestSuccess(After(s, e), es[1..], k, i, if Adds(s, e, k, i) then Some(Credit(e.op.now, e.op.ttl)) else last)
  }

  /** An add of the entry that returned true. */
  ghost predicate Adds(s: World, e: Event, k: string, i: string) {
    e.op.Add? && e.op.key == k && e.op.ip == i && Returned(s, e)
  }

  lemma {:induction false} CutCredits(s: World, o: Op, d: Durable)
    requires CrashPoint(s, o, d)
    ensures d.credits ==
      if o.Add? && CutAfterSave(s, o, d) then s.dur.credits[(o.key, o.ip) := Credit(o.now, o.ttl)]
      else s.dur.credits
  {
    if o.Add? {
      CutAddCredits(s, o, d);
    } else if d == Next(s, o).dur {
      OtherCredits(s, o);
    } else if o.Restart? && d != s.dur {
      LoadMoment(Reborn(s.dur), o, d);
    }
  }

  lemma {:induction false} CutAddCredits(s: World, o: Op, d: Durable)
    requires o.Add? && CrashPoint(s, o, d)
    ensures d.credits == if CutAfterSave(s, o, d) then Credited(s.dur, s.mem, o).credits else s.dur.credits
  {
    if d == Next(s, o).dur {
      AddCases(s, o);
    }
  }

  /** What changes credits over events, cut ones included: an add that returned true, or one whose
      record stayed in the file unanswered. */
  lemma {:induction false} EventCredits(s: World, e: Event)
    requires LegalEvent(s, e)
    ensures After(s, e).dur.credits ==
      if e.op.Add? && (Returned(s, e) || Unanswered(s, e))
      then s.dur.credits[(e.op.key, e.op.ip) := Credit(e.op.now, e.op.ttl)]
      else s.dur.credits
  {
    match e
    case Completed(o) => CreditsFollowAdds(s, o);
    case Cut(o, d) => CutCredits(s, o, d);
  }

  function CreditOf(credits: map<(string, string), Credit>, k: string, i: string): Option<Credit> {
    if (k, i) in credits then Some(credits[(k, i)]) else None
  }

  /** What the trial says of the credit and of the latest success. */
  predicate TrialExplains(last: Option<Trial>, credit: Option<Credit>, success: Option<Credit>) {
    match last
    case None => credit == None && success == None
    case Some(t) => credit == Some(t.credit) && (t.answered ==> success == Some(t.credit))
  }

  /** Over every run, crashes included, the credit is the latest add that left its record; if that
      one was answered, it is the latest add that returned true. */
  lemma {:induction false} CreditIsLatest(s: World, es: seq<Event>, k: string, i: string,
                                          last: Option<Trial>, success: Option<Credit>)
    requires LegalRun(s, es) && TrialExplains(last, CreditOf(s.dur.credits, k, i), success)
    ensures TrialExplains(LatestTrial(s, es, k, i, last), CreditOf(Run(s, es).dur.credits, k, i),
                          LatestSuccess(s, es, k, i, success))
    decreases |es|
  {
    if es != [] {
      var e := es[0];
      EventCredits(s, e);
      CreditIsLatest(After(s, e), es[1..], k, i, TrialAfter(s, e, k, i, last),
                     if Adds(s, e, k, i) then Some(Credit(e.op.now, e.op.ttl)) else success);
    }
  }

  /** Over every run from a first start without a file, crashes, failures and restarts included:
      a sweep at `now` removes an entry only if its latest add whose record was left in the file had
      a positive ttl that has run out by then, and the sum never passed the largest representable
      time. If that add returned true, it is the latest that did: the entry was not permanent, and
      it goes no earlier than promised. */
  lemma {:induction false} NeverEarly(kernel: map<string, string>, es: seq<Event>, o: Op, k: string, i: string)
    requires LegalRun(Installed(None, kernel), es)
    requires var s := Run(Installed(None, kernel), es);
      o.Sweep? && Legal(s, o) && Entry(s.mem, k, i).Some? && Entry(Next(s, o).mem, k, i).None?
    ensures var t := LatestTrial(Installed(None, kernel), es, k, i, None);
      && t.Some? && t.value.credit.ttl > 0
      && t.value.credit.time + t.value.credit.ttl <= o.now
      && t.value.credit.time + t.value.credit.ttl <= MAX_INT64
      && (t.value.answered ==> LatestSuccess(Installed(None, kernel), es, k, i, None) == Some(t.value.credit))
  {
    var first := Installed(None, kernel);
    InstalledInv(None, kernel);
    RunBacked(first, es);
    CreditIsLatest(first, es, k, i, None, None);
    DroppedIsDue(Run(first, es), o, k, i);
  }

  lemma {:induction false} DroppedIsDue(s: World, o: Op, k: string, i: string)
    requires o.Sweep? && Entry(s.mem, k, i).Some? && Entry(Next(s, o).mem, k, i).None?
    ensures Due(Entry(s.mem, k, i).value, o.now)
  {
    var deleted := Deleted(s.mem, s.dur, o.now, o.failing);
    assert Next(s, o).mem == SweptTable(s.mem, o.now, deleted) by { assert Step(s, o) == SweepStep(s, o); }
    assert SweptEntry(s.mem, o.now, deleted, k, i).None?;
  }

  /** The limit of that: an add that did not return true but left its record takes effect, whatever
      earlier adds promised. A restart before it runs out brings its entry back, and a later sweep
      removes it. */
  lemma {:induction false} UnansweredExpires(s: World, e: Event, restart: Op, sweep: Op)
    requires Inv(s) && LegalEvent(s, e) && Unanswered(s, e) && e.op.ttl > 0
    requires KindRestart(After(s, e), restart) && Legal(After(s, e), restart)
    requires var w := Next(After(s, e), restart); sweep.Sweep? && Legal(w, sweep) && e.op.ip !in sweep.failing
    requires restart.now < e.op.now + e.op.ttl <= sweep.now
    ensures var w := Next(After(s, e), restart);
      && Entry(w.mem, e.op.key, e.op.ip) == Some(NewMeta(e.op.now, e.op.gateway, e.op.ttl))
      && Entry(Next(w, sweep).mem, e.op.key, e.op.ip).None?
  {
    var c := After(s, e);
    RecordLeft(s, e);
    RefreshComesBack(s, e.op, c, restart);
    EventKeepsInv(s, e);
    RestartSettles(c, restart);
    KernelDropsDue(Next(c, restart), sweep, e.op.key, e.op.ip);
  }

  lemma {:induction false} RecordLeft(s: World, e: Event)
    requires Unanswered(s, e)
    ensures SavedRecords(After(s, e).dur) == Records(Candidate(s.mem, e.op)) && After(s, e).clock == e.op.now
    ensures AddAccepted(s, e.op)
  {
    if e.Completed? {
      AddCases(s, e.op);
    }
  }

  lemma {:induction false} RefreshComesBack(s: World, a: Op, c: World, restart: Op)
    requires Inv(s) && a.Add? && Legal(s, a) && AddAccepted(s, a)
    requires SavedRecords(c.dur) == Records(Candidate(s.mem, a)) && c.clock == a.now
    requires restart.Restart? && restart.readOk && restart.failingAdds == {}
    requires a.now <= restart.now && !Expired(Expiration(a.now, a.ttl), restart.now)
    ensures Entry(Next(c, restart).mem, a.key, a.ip) == Some(NewMeta(a.now, a.gateway, a.ttl))
  {
    var t := Candidate(s.mem, a);
    SavedAgrees(t, a.now);
    CandidateInv(s, a);
    RestartRebuildsTable(c, restart, t);
    assert Entry(t, a.key, a.ip) == Some(NewMeta(a.now, a.gateway, a.ttl));
  }

  /** A due entry goes when its kernel route can be deleted. */
  lemma {:induction false} KernelDropsDue(s: World, o: Op, k: string, i: string)
    requires o.Sweep? && Entry(s.mem, k, i).Some? && Due(Entry(s.mem, k, i).value, o.now) && i !in o.failing
    requires forall k', j :: Entry(s.mem, k', j).Some? ==> InKernel(s.dur, j, Entry(s.mem, k', j).value.gateway)
    ensures Entry(Next(s, o).mem, k, i).None?
  {
    var deleted := Deleted(s.mem, s.dur, o.now, o.failing);
    assert InKernel(s.dur, i, Entry(s.mem, k, i).value.gateway);
    assert GatewayIs(s.mem, i, s.dur.kernel[i]);
    if AllDue(s.mem, i, o.now) {
      assert Referenced(s.mem, i) && i in Ips(s.mem) && i in deleted;
    }
    assert Next(s, o).mem == SweptTable(s.mem, o.now, deleted) by { assert Step(s, o) == SweepStep(s, o); }
    assert SweptEntry(s.mem, o.now, deleted, k, i).None?;
  }

  function Load(now: nat): Op {
    Restart(now, true, {}, {}, true)
  }

  /** The shortest such input: a permanent route is added at time 1 ... */
  ghost function PermanentAdd(key: string, ip: string, gateway: string): seq<Event> {
    [Completed(Load(1)), Completed(Op.Add(1, key, ip, gateway, 0, true, true, true))]
  }

  /** ... and a refresh with a ttl of one second is cut after its save; the process restarts. */
  ghost function CutRefresh(s: World, key: string, ip: string, gateway: string): seq<Event> {
    var refresh := Op.Add(2, key, ip, gateway, 1, true, true, true);
    [Cut(refresh, Credited(s.dur, s.mem, refresh)), Completed(Load(2))]
  }

  /** The route, whose only successful add was permanent, expires at time 3. */
  lemma {:induction false} PermanentExpires(kernel: map<string, string>, key: string, ip: string, gateway: string)
    requires ValidSavedKey(key) && ValidIpv4(ip) && ValidIpv4(gateway)
    ensures var first := Installed(None, kernel); var added := PermanentAdd(key, ip, gateway);
      var es := added + CutRefresh(Run(first, added), key, ip, gateway);
      && LegalRun(first, es) && LatestSuccess(first, es, key, ip, None) == Some(Credit(1, 0))
      && Entry(Run(first, es).mem, key, ip).Some?
      && Entry(Next(Run(first, es), Sweep(3, {}, true)).mem, key, ip).None?
  {
    var first := Installed(None, kernel);
    var added := PermanentAdd(key, ip, gateway);
    PermanentAdded(kernel, key, ip, gateway);
    var s := Run(first, added);
    RefreshExpires(s, key, ip, gateway);
    RunConcat(first, added, CutRefresh(s, key, ip, gateway), key, ip, None);
  }

  lemma {:induction false} RefreshExpires(s: World, key: string, ip: string, gateway: string)
    requires Inv(s) && s.alive && s.clock <= 2 && GatewayIs(s.mem, ip, gateway)
    requires ValidSavedKey(key) && ValidIpv4(ip) && ValidIpv4(gateway)
    ensures var es := CutRefresh(s, key, ip, gateway); var w := Run(s, es);
      && LegalRun(s, es) && LatestSuccess(s, es, key, ip, Some(Credit(1, 0))) == Some(Credit(1, 0))
      && Entry(w.mem, key, ip).Some? && Entry(Next(w, Sweep(3, {}, true)).mem, key, ip).None?
  {
    var a := Op.Add(2, key, ip, gateway, 1, true, true, true);
    CutExpires(s, a);
    RunOfTwo(s, Cut(a, Credited(s.dur, s.mem, a)), Completed(Load(2)), key, ip, Some(Credit(1, 0)));
  }

  lemma {:induction false} CutExpires(s: World, a: Op)
    requires Inv(s) && a.Add? && Legal(s, a) && AddAccepted(s, a) && a.saveOk && a.now == 2 && a.ttl == 1
    ensures var e := Cut(a, Credited(s.dur, s.mem, a)); var w := Next(After(s, e), Load(2));
      && LegalEvent(s, e) && Legal(After(s, e), Load(2))
      && Entry(w.mem, a.key, a.ip).Some? && Entry(Next(w, Sweep(3, {}, true)).mem, a.key, a.ip).None?
  {
    var d := Credited(s.dur, s.mem, a);
    CutIsLegal(s, a);
    LoadedAlive(Crashed(s, a, d), Load(2));
    UnansweredExpires(s, Cut(a, d), Load(2), Sweep(3, {}, true));
  }

  lemma {:induction false} CutIsLegal(s: World, a: Op)
    requires a.Add? && Legal(s, a) && AddAccepted(s, a) && a.saveOk
    ensures var d := Credited(s.dur, s.mem, a);
      LegalEvent(s, Cut(a, d)) && CrashPoint(s, a, d) && CutAfterSave(s, a, d)
  {
  }

  lemma {:induction false} LoadedAlive(s: World, o: Op)
    requires o.Restart?
    ensures Next(s, o).alive && Next(s, o).clock == o.now
  {
    assert Step(s, o) == RestartStep(s, o);
  }

  lemma {:induction false} PermanentAdded(kernel: map<string, string>, key: string, ip: string, gateway: string)
    requires ValidSavedKey(key) && ValidIpv4(ip) && ValidIpv4(gateway)
    ensures var first := Installed(None, kernel); var es := PermanentAdd(key, ip, gateway); var s := Run(first, es);
      && LegalRun(first, es) && LatestSuccess(first, es, key, ip, None) == Some(Credit(1, 0))
      && Inv(s) && s.alive && s.clock == 1 && GatewayIs(s.mem, ip, gateway)
  {
    var first := Installed(None, kernel);
    var a := Op.Add(1, key, ip, gateway, 0, true, true, true);
    InstalledInv(None, kernel);
    FirstAdd(kernel, a);
    RunOfTwo(first, Completed(Load(1)), Completed(a), key, ip, None);
    RunIsWriteAhead(first, PermanentAdd(key, ip, gateway));
  }

  lemma {:induction false} FirstAdd(kernel: map<string, string>, a: Op)
    requires a.Add? && a.now == 1 && a.ttl == 0 && a.saveOk && a.addOk
    ensures var s := Next(Installed(None, kernel), Load(1));
      && s.alive && s.clock == 1
      && Step(s, a).1 == Done && Next(s, a).alive && Next(s, a).clock == 1 && GatewayIs(Next(s, a).mem, a.ip, a.gateway)
  {
    var s := Next(Installed(None, kernel), Load(1));
    assert Step(Installed(None, kernel), Load(1)) == RestartStep(Installed(None, kernel), Load(1));
    assert s.mem == map[];
    assert forall j :: !Referenced(map[], j);
    assert AddAccepted(s, a);
    AddCases(s, a);
  }

  /** Unfolding a run of two events of which the first does not add the entry. */
  lemma {:induction false} RunOfTwo(s: World, e: Event, f: Event, k: string, i: string, last: Option<Credit>)
    requires LegalEvent(s, e) && LegalEvent(After(s, e), f) && !Adds(s, e, k, i)
    ensures LegalRun(s, [e, f]) && Run(s, [e, f]) == After(After(s, e), f)
    ensures LatestSuccess(s, [e, f], k, i, last) ==
      if Adds(After(s, e), f, k, i) then Some(Credit(f.op.now, f.op.ttl)) else last
  {
    assert [f] + [] == [f] && [e] + [f] == [e, f];
    RunCons(After(s, e), f, [], k, i, last);
    RunCons(s, e, [f], k, i, last);
  }

  lemma {:induction false} RunCons(s: World, e: Event, es: seq<Event>, k: string, i: string, last: Option<Credit>)
    requires LegalEvent(s, e) && LegalRun(After(s, e), es)
    ensures LegalRun(s, [e] + es) && Run(s, [e] + es) == Run(After(s, e), es)
    ensures LatestSuccess(s, [e] + es, k, i, last) ==
      LatestSuccess(After(s, e), es, k, i, if Adds(s, e, k, i) then Some(Credit(e.op.now, e.op.ttl)) else last)
  {
    assert ([e] + es)[1..] == es;
  }

  lemma {:induction false} RunConcat(s: World, es: seq<Event>, fs: seq<Event>,
                                     k: string, i: string, last: Option<Credit>)
    requires LegalRun(s, es) && LegalRun(Run(s, es), fs)
    ensures LegalRun(s, es + fs) && Run(s, es + fs) == Run(Run(s, es), fs)
    ensures LatestSuccess(s, es + fs, k, i, last) ==
      LatestSuccess(Run(s, es), fs, k, i, LatestSuccess(s, es, k, i, last))
    decreases |es|
  {
    if es == [] {
      assert es + fs == fs;
    } else {
      assert (es + fs)[1..] == es[1..] + fs;
      var e := es[0];
      RunConcat(After(s, e), es[1..], fs, k, i, if Adds(s, e, k, i) then Some(Credit(e.op.now, e.op.ttl)) else last);
    }
  }
}
