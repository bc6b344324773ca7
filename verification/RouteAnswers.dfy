/** What each operation answers and does, said of the entries, records and routes it meets: the
    conditions of every reply, the entry an add leaves, when a sweep asks the kernel and when it
    tries again, and which records a load takes. */
module RouteAnswers {
  import opened Text
  import opened RouteTable
  import opened RouteModel
  import opened RouteRecovery
  import opened RouteLifetimes

  // ----- add -----

  /** Some key references the destination through another gateway. */
  ghost predicate Conflicting(t: Table, ip: string, gateway: string) {
    exists k :: Entry(t, k, ip).Some? && Entry(t, k, ip).value.gateway != gateway
  }

  ghost predicate Unreferenced(t: Table, ip: string) {
    forall k :: Entry(t, k, ip).None?
  }

  /** Every reply of an add, by what it meets: a sum past the largest time, a conflicting reference, a
      failing save, and a refused kernel route of a destination nobody references. */
  lemma {:induction false} AddAnswers(s: World, a: Op)
    requires a.Add?
    ensures Step(s, a).1 ==
      if a.ttl > 0 && a.now + a.ttl > 0x7fff_ffff_ffff_ffff then TtlTooLarge
      else if Conflicting(s.mem, a.ip, a.gateway) then GatewayConflict
      else if !a.saveOk then SaveFailed
      else if Unreferenced(s.mem, a.ip) && !a.addOk then SystemFailed
      else Done
  {
    assert Step(s, a) == AddStep(s, a);
    assert Conflicting(s.mem, a.ip, a.gateway) <==> !GatewayIs(s.mem, a.ip, a.gateway);
    assert Unreferenced(s.mem, a.ip) <==> !Referenced(s.mem, a.ip);
  }

  /** Which adds return true. */
  lemma {:induction false} AddSucceeds(s: World, a: Op)
    requires a.Add?
    ensures Step(s, a).1 == Done <==>
      && (a.ttl > 0 ==> a.now + a.ttl <= 0x7fff_ffff_ffff_ffff)
      && GatewayIs(s.mem, a.ip, a.gateway) && a.saveOk && (Referenced(s.mem, a.ip) || a.addOk)
  {
    AddAnswers(s, a);
    assert Conflicting(s.mem, a.ip, a.gateway) <==> !GatewayIs(s.mem, a.ip, a.gateway);
    assert Unreferenced(s.mem, a.ip) <==> !Referenced(s.mem, a.ip);
  }

  /** The entry an add leaves: its gateway, its ttl or zero, the sum or never, no attempt; and no other
      entry changes. The file holds the new table. */
  lemma {:induction false} AddLeavesEntry(s: World, a: Op)
    requires a.Add? && Step(s, a).1 == Done
    ensures var w := Next(s, a);
      && (forall k, i :: Entry(w.mem, k, i) ==
            if k == a.key && i == a.ip then
              Some(if a.ttl > 0 then Meta(a.gateway, a.ttl, a.now + a.ttl, 0) else Meta(a.gateway, 0, 0, 0))
            else Entry(s.mem, k, i))
      && w.dur.disk == Some(Records(w.mem)) && w.clock == a.now && w.alive == s.alive
  {
    AddDone(s, a);
    assert Next(s, a).mem == Put(s.mem, a.key, a.ip, NewMeta(a.now, a.gateway, a.ttl));
  }

  lemma {:induction false} AddDone(s: World, a: Op)
    requires a.Add? && Step(s, a).1 == Done
    ensures var w := Next(s, a);
      && w.mem == Candidate(s.mem, a) && w.dur.disk == Some(Records(w.mem))
      && w.clock == a.now && w.alive == s.alive
  {
    AddCases(s, a);
  }

  // ----- remove and remove_system -----

  /** What a successful removal leaves: no reference to the pair, no kernel route at the destination,
      the file rewritten, nothing else changed. */
  ghost predicate Removed(s: World, w: World, ip: string, gateway: string) {
    && (forall k, i :: Entry(w.mem, k, i) ==
          if i == ip && Entry(s.mem, k, i).Some? && Entry(s.mem, k, i).value.gateway == gateway then None
          else Entry(s.mem, k, i))
    && w.dur.kernel == s.dur.kernel - {ip} && w.dur.owned == s.dur.owned - {ip}
    && w.dur.disk == Some(Records(w.mem)) && w.clock == s.clock && w.alive == s.alive
  }

  lemma {:induction false} EraseLeaves(s: World, ip: string, gateway: string, saveOk: bool, readdOk: bool)
    ensures var (w, reply) := EraseStep(s, ip, gateway, saveOk, readdOk);
      reply == (if saveOk then Done else SaveFailed) && (saveOk ==> Removed(s, w, ip, gateway))
  {
  }

  /** Every reply of a remove: a key without entries, no such entry, a failing or pointless kernel
      delete, a failing save; otherwise it is done. */
  lemma {:induction false} RemoveAnswers(s: World, o: Op)
    requires o.Remove? && NoEmptyGroup(s.mem)
    ensures var (w, reply) := Step(s, o);
      && reply == (
           if forall i :: Entry(s.mem, o.key, i).None? then KeyNotFound
           else if Entry(s.mem, o.key, o.ip).None? || Entry(s.mem, o.key, o.ip).value.gateway != o.gateway
           then RouteNotFound
           else if !o.deleteOk || !(o.ip in s.dur.kernel && s.dur.kernel[o.ip] == o.gateway) then SystemFailed
           else if !o.saveOk then SaveFailed
           else Done)
      && (reply == Done ==> Removed(s, w, o.ip, o.gateway))
  {
    assert Step(s, o) == RemoveStep(s, o);
    if o.key in s.mem {
      var i :| i in s.mem[o.key];
      assert Entry(s.mem, o.key, i).Some?;
    }
    EraseLeaves(s, o.ip, o.gateway, o.saveOk, o.readdOk);
  }

  /** The same for remove_system, which asks the kernel's list instead of the table. */
  lemma {:induction false} RemoveSystemAnswers(s: World, o: Op)
    requires o.RemoveSystem?
    ensures var (w, reply) := Step(s, o);
      && reply == (
           if !o.listOk then ListFailed
           else if !(o.ip in s.dur.kernel && s.dur.kernel[o.ip] == o.gateway) then NotInSystem
           else if !o.deleteOk then SystemFailed
           else if !o.saveOk then SaveFailed
           else Done)
      && (reply == Done ==> Removed(s, w, o.ip, o.gateway))
  {
    assert Step(s, o) == RemoveSystemStep(s, o);
    EraseLeaves(s, o.ip, o.gateway, o.saveOk, o.readdOk);
  }

  // ----- the sweep -----

  /** A sweep asks the kernel about a destination exactly when it is referenced and every reference
      has run out and was not tried in the last 30 seconds. */
  lemma {:induction false} SweepAsks(t: Table, now: nat, i: string)
    ensures i in Attempted(t, now) <==>
      && Referenced(t, i)
      && forall k :: Entry(t, k, i).Some? ==>
           var m := Entry(t, k, i).value;
           0 < m.expiresAt <= now && (m.lastAttempt == 0 || now - m.lastAttempt >= 30)
  {
  }

  /** A sweep rewrites the file exactly when it dropped an entry and its save works. */
  lemma {:induction false} SweepSaves(s: World, o: Op)
    requires o.Sweep?
    ensures var w := Next(s, o);
      && w.dur.disk == (
           if o.saveOk && exists k, i :: Entry(s.mem, k, i).Some? && Entry(w.mem, k, i).None?
           then Some(Records(w.mem)) else s.dur.disk)
      && w.clock == o.now && w.alive == s.alive && Step(s, o).1 == Done
  {
    assert Step(s, o) == SweepStep(s, o);
    var deleted := Deleted(s.mem, s.dur, o.now, o.failing);
    var w := Next(s, o);
    assert w.mem == SweptTable(s.mem, o.now, deleted);
    assert SweepChanged(s.mem, o.now, deleted) <==>
      exists k, i :: Entry(s.mem, k, i).Some? && Entry(w.mem, k, i).None? by {
      if SweepChanged(s.mem, o.now, deleted) {
        var k, i :| Entry(s.mem, k, i).Some? && SweptEntry(s.mem, o.now, deleted, k, i).None?;
        assert Entry(w.mem, k, i).None?;
      }
    }
  }

  /** No sweep of the run asks the kernel about the destination. */
  ghost predicate NeverAsked(s: World, os: seq<Op>, i: string)
    decreases |os|
  {
    os != [] ==>
      && !os[0].Restart? && (os[0].Sweep? ==> i !in Attempted(s.mem, os[0].now))
      && NeverAsked(Next(s, os[0]), os[1..], i)
  }

  /** Every reference to the destination was tried at `t0` or never. */
  ghost predicate TriedAt(t: Table, i: string, t0: nat) {
    forall k :: Entry(t, k, i).Some? ==> Entry(t, k, i).value.lastAttempt == 0 || Entry(t, k, i).value.lastAttempt == t0
  }

  lemma {:induction false} NotTriedSince(s: World, o: Op, i: string, t0: nat)
    requires TriedAt(s.mem, i, t0) && !o.Restart? && (o.Sweep? ==> i !in Attempted(s.mem, o.now))
    ensures TriedAt(Next(s, o).mem, i, t0)
  {
    match o
    case Add(_, _, _, _, _, _, _, _) => AddOwns(s, o);
    case Remove(_, _, _, _, _, _) =>
      assert Step(s, o) == RemoveStep(s, o);
      EraseTried(s, o.ip, o.gateway, o.saveOk, o.readdOk, i, t0);
    case RemoveSystem(_, _, _, _, _, _) =>
      assert Step(s, o) == RemoveSystemStep(s, o);
      EraseTried(s, o.ip, o.gateway, o.saveOk, o.readdOk, i, t0);
    case Sweep(_, _, _) => SweepTried(s, o, i, t0);
  }

  lemma {:induction false} EraseTried(s: World, j: string, g: string, saveOk: bool, readdOk: bool, i: string, t0: nat)
    requires TriedAt(s.mem, i, t0)
    ensures TriedAt(EraseStep(s, j, g, saveOk, readdOk).0.mem, i, t0)
  {
  }

  lemma {:induction false} SweepTried(s: World, o: Op, i: string, t0: nat)
    requires TriedAt(s.mem, i, t0) && o.Sweep? && i !in Attempted(s.mem, o.now)
    ensures TriedAt(Next(s, o).mem, i, t0)
  {
    var deleted := Deleted(s.mem, s.dur, o.now, o.failing);
    assert Next(s, o).mem == SweptTable(s.mem, o.now, deleted) by { assert Step(s, o) == SweepStep(s, o); }
    forall k | Entry(Next(s, o).mem, k, i).Some?
      ensures Entry(Next(s, o).mem, k, i).value.lastAttempt in {0, t0} {
      assert Entry(Next(s, o).mem, k, i) == SweptEntry(s.mem, o.now, deleted, k, i);
      assert Referenced(s.mem, i) && !AllDue(s.mem, i, o.now);
    }
  }

  lemma {:induction false} NotTriedInRun(s: World, os: seq<Op>, i: string, t0: nat)
    requires TriedAt(s.mem, i, t0) && NeverAsked(s, os, i)
    ensures TriedAt(RunOps(s, os).mem, i, t0)
    decreases |os|
  {
    if os != [] {
      NotTriedSince(s, os[0], i, t0);
      NotTriedInRun(Next(s, os[0]), os[1..], i, t0);
    }
  }

  /** A failed expiration delete is retried: the first sweep from 30 seconds on that finds the
      destination referenced and every reference run out asks the kernel again, whatever the process
      has done in between. */
  lemma {:induction false} RetryResumes(s: World, sweep: Op, os: seq<Op>, again: Op, i: string)
    requires sweep.Sweep? && again.Sweep? && again.now >= sweep.now + 30
    requires i in Attempted(s.mem, sweep.now) && i !in Deleted(s.mem, s.dur, sweep.now, sweep.failing)
    requires NeverAsked(Next(s, sweep), os, i)
    requires var t := RunOps(Next(s, sweep), os).mem;
      Referenced(t, i) && forall k :: Entry(t, k, i).Some? ==> 0 < Entry(t, k, i).value.expiresAt <= again.now
    ensures i in Attempted(RunOps(Next(s, sweep), os).mem, again.now)
  {
    var t := RunOps(Next(s, sweep), os).mem;
    OnlySurvivorTried(s, sweep, i);
    NotTriedInRun(Next(s, sweep), os, i, sweep.now);
    SweepAsks(t, again.now, i);
  }

  lemma {:induction false} OnlySurvivorTried(s: World, o: Op, i: string)
    requires o.Sweep? && i in Attempted(s.mem, o.now) && i !in Deleted(s.mem, s.dur, o.now, o.failing)
    ensures TriedAt(Next(s, o).mem, i, o.now)
  {
    var deleted := Deleted(s.mem, s.dur, o.now, o.failing);
    assert Next(s, o).mem == SweptTable(s.mem, o.now, deleted) by { assert Step(s, o) == SweepStep(s, o); }
    forall k | Entry(Next(s, o).mem, k, i).Some? ensures Entry(Next(s, o).mem, k, i).value.lastAttempt == o.now {
      assert Entry(Next(s, o).mem, k, i) == SweptEntry(s.mem, o.now, deleted, k, i);
      assert AllDue(s.mem, i, o.now);
    }
  }

  // ----- load -----

  /** The record is permanent or runs out later. */
  predicate Lasts(r: SavedRoute, now: nat) {
    r.expiresAt == 0 || now < r.expiresAt
  }

  /** The kernel refuses record `n`: it lasts, its add fails, and no earlier record of its destination
      brought it back. */
  ghost predicate Refused(saved: seq<SavedRoute>, now: nat, failing: set<nat>, n: nat) {
    && n < |saved| && Lasts(saved[n], now) && n in failing
    && forall m :: 0 <= m < n && saved[m].ip == saved[n].ip && Lasts(saved[m], now) ==> m in failing
  }

  ghost predicate SomeRefused(saved: seq<SavedRoute>, n: nat, now: nat, failing: set<nat>)
    requires n <= |saved|
  {
    exists m :: 0 <= m < n && Refused(saved, now, failing, m)
  }

  lemma {:induction false} RestoreFails(saved: seq<SavedRoute>, n: nat, now: nat, failing: set<nat>)
    requires n <= |saved|
    ensures Restore(saved, n, now, failing).failed <==> SomeRefused(saved, n, now, failing)
  {
    if n > 0 {
      RestoreFails(saved, n - 1, now, failing);
      RestoreExact(saved, n - 1, now, failing);
      FailsStep(saved, n - 1, now, failing, Restore(saved, n - 1, now, failing));
    }
  }

  lemma {:induction false} FailsStep(saved: seq<SavedRoute>, n: nat, now: nat, failing: set<nat>, x: Restored)
    requires n < |saved| && ActiveExact(saved, n, now, failing, x.active)
    requires x.failed <==> SomeRefused(saved, n, now, failing)
    ensures RestoreOne(x, saved[n], now, n !in failing).failed <==> SomeRefused(saved, n + 1, now, failing)
  {
    RefusedExactly(saved, n, now, failing, x.active);
    OneFails(x, saved[n], now, n !in failing);
    OneMoreRefused(saved, n, now, failing);
  }

  lemma OneMoreRefused(saved: seq<SavedRoute>, n: nat, now: nat, failing: set<nat>)
    requires n < |saved|
    ensures SomeRefused(saved, n + 1, now, failing) <==>
      SomeRefused(saved, n, now, failing) || Refused(saved, now, failing, n)
  {
  }

  lemma OneFails(x: Restored, r: SavedRoute, now: nat, addOk: bool)
    ensures RestoreOne(x, r, now, addOk).failed <==>
      x.failed || (!Expired(r.expiresAt, now) && r.ip !in x.active && !addOk)
  {
  }

  lemma {:induction false} RefusedExactly(saved: seq<SavedRoute>, n: nat, now: nat, failing: set<nat>,
                                          active: map<string, string>)
    requires n < |saved| && ActiveExact(saved, n, now, failing, active)
    ensures Refused(saved, now, failing, n) <==>
      !Expired(saved[n].expiresAt, now) && saved[n].ip !in active && n in failing
  {
    var i := saved[n].ip;
    if i in active {
      var j :| 0 <= j < n && FirstRestored(saved, now, failing, j) && saved[j].ip == i;
      assert Lasts(saved[j], now) && j !in failing;
    } else {
      forall m | 0 <= m < n && saved[m].ip == i && Lasts(saved[m], now) ensures m in failing {
        if m !in failing {
          var f := SomeFirst(saved, now, failing, m);
        }
      }
    }
  }

  /** Every reply of a load: no file, an unreadable one, a record refused by the kernel, a failing
      save; otherwise it is done. */
  lemma {:induction false} LoadAnswers(s: World, o: Op)
    requires o.Restart?
    ensures Step(s, o).1 ==
      if s.dur.disk.None? then Done
      else if !o.readOk then ReadFailed
      else if SomeRefused(s.dur.disk.value, |s.dur.disk.value|, o.now, o.failingAdds) then RestoreFailed
      else if !o.saveOk then SaveFailed
      else Done
  {
    assert Step(s, o) == RestartStep(s, o);
    if s.dur.disk.Some? {
      RestoreFails(s.dur.disk.value, |s.dur.disk.value|, o.now, o.failingAdds);
    }
  }

  /** The entry is that of a lasting record, with no attempt remembered. */
  ghost predicate TakenFrom(saved: seq<SavedRoute>, now: nat, k: string, i: string, m: Meta) {
    exists r :: r in saved && Lasts(r, now) && r.key == k && r.ip == i && m == Meta(r.gateway, r.ttl, r.expiresAt, 0)
  }

  ghost predicate OneGateway(saved: seq<SavedRoute>, i: string) {
    forall r, q :: r in saved && q in saved && r.ip == i && q.ip == i ==> r.gateway == q.gateway
  }

  /** What a load takes: only records of the file that last; and when the kernel refuses none and the
      file knows one gateway for its destination, every lasting record has its entry. */
  lemma {:induction false} LoadTakes(s: World, o: Op, saved: seq<SavedRoute>)
    requires o.Restart? && o.readOk && s.dur.disk == Some(saved)
    ensures forall k, i :: Entry(Next(s, o).mem, k, i).Some? ==>
      TakenFrom(saved, o.now, k, i, Entry(Next(s, o).mem, k, i).value)
    ensures o.failingAdds == {} ==> forall r :: r in saved && Lasts(r, o.now) && OneGateway(saved, r.ip) ==>
      Entry(Next(s, o).mem, r.key, r.ip).Some?
  {
    LoadedTable(s, o, saved);
    forall k, i | Entry(Next(s, o).mem, k, i).Some?
      ensures TakenFrom(saved, o.now, k, i, Entry(Next(s, o).mem, k, i).value) {
      LastTakes(saved, |saved|, o.now, o.failingAdds, k, i);
    }
    forall r | o.failingAdds == {} && r in saved && Lasts(r, o.now) && OneGateway(saved, r.ip)
      ensures Entry(Next(s, o).mem, r.key, r.ip).Some? {
      var n :| 0 <= n < |saved| && saved[n] == r;
      var f := SomeFirst(saved, o.now, {}, n);
      assert saved[f] in saved && Follows(saved, o.now, {}, n);
      LastFinds(saved, |saved|, o.now, {}, n);
    }
  }

  lemma {:induction false} LastTakes(saved: seq<SavedRoute>, n: nat, now: nat, failing: set<nat>, k: string, i: string)
    requires n <= |saved|
    ensures var e := LastFollowing(saved, n, now, failing, k, i); e.Some? ==> TakenFrom(saved, now, k, i, e.value)
  {
    if n > 0 {
      LastTakes(saved, n - 1, now, failing, k, i);
      assert saved[n - 1] in saved;
    }
  }

  lemma {:induction false} LastFinds(saved: seq<SavedRoute>, n: nat, now: nat, failing: set<nat>, m: nat)
    requires m < n <= |saved| && Follows(saved, now, failing, m)
    ensures LastFollowing(saved, n, now, failing, saved[m].key, saved[m].ip).Some?
  {
    if m < n - 1 {
      LastFinds(saved, n - 1, now, failing, m);
    }
  }

  /** Which kernel routes a load that reads the file deletes: of the destinations it does not own
      afterwards, exactly those with a record of that very route that has run out, unless the delete
      fails. */
  lemma {:induction false} LoadDeletes(s: World, o: Op, saved: seq<SavedRoute>, i: string)
    requires o.Restart? && o.readOk && s.dur.disk == Some(saved) && i in s.dur.kernel && i !in Next(s, o).dur.owned
    ensures i !in Next(s, o).dur.kernel <==>
      && (exists r :: r in saved && r.ip == i && r.gateway == s.dur.kernel[i] && 0 < r.expiresAt <= o.now)
      && (i, s.dur.kernel[i]) !in o.failingDeletes
  {
    LoadedKernel(s, o, saved, i);
    var pair := (i, s.dur.kernel[i]);
    assert pair in ExpiredPairs(saved, o.now) <==>
      exists r :: r in saved && r.ip == i && r.gateway == s.dur.kernel[i] && 0 < r.expiresAt <= o.now;
  }
}
