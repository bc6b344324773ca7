/** Start-up: what loading an arbitrary file yields, and what a restart rebuilds. */
module RouteRecovery {
  import opened Text
  import opened RouteTable
  import opened RouteModel
  import opened RouteInvariants

  // ----- loading an arbitrary file, record by record -----

  predicate Live(r: SavedRoute, now: nat) {
    !Expired(r.expiresAt, now)
  }

  /** Record `j` is the one whose kernel add brings its destination back. */
  ghost predicate FirstRestored(saved: seq<SavedRoute>, now: nat, failing: set<nat>, j: nat) {
    && j < |saved| && Live(saved[j], now) && j !in failing
    && forall m :: 0 <= m < j && saved[m].ip == saved[j].ip && Live(saved[m], now) ==> m in failing
  }

  /** Record `m` is unexpired and comes with or after the first restored gateway of its
      destination, through that gateway. */
  ghost predicate Follows(saved: seq<SavedRoute>, now: nat, failing: set<nat>, m: nat) {
    && m < |saved| && Live(saved[m], now)
    && exists j :: 0 <= j <= m && FirstRestored(saved, now, failing, j)
         && saved[j].ip == saved[m].ip && saved[j].gateway == saved[m].gateway
  }

  /** The last of the first `n` records that counts for a key and a destination. */
  ghost function LastFollowing(saved: seq<SavedRoute>, n: nat, now: nat, failing: set<nat>,
                               k: string, i: string): Option<Meta>
    requires n <= |saved|
  {
    if n == 0 then None
    else if Follows(saved, now, failing, n - 1) && saved[n - 1].key == k && saved[n - 1].ip == i
    then Some(SavedMeta(saved[n - 1]))
    else LastFollowing(saved, n - 1, now, failing, k, i)
  }

  lemma {:induction false} SomeFirst(saved: seq<SavedRoute>, now: nat, failing: set<nat>, j: nat) returns (f: nat)
    requires j < |saved| && Live(saved[j], now) && j !in failing
    ensures f <= j && FirstRestored(saved, now, failing, f) && saved[f].ip == saved[j].ip
  {
    if m: nat :| m < j && saved[m].ip == saved[j].ip && Live(saved[m], now) && m !in failing {
      f := SomeFirst(saved, now, failing, m);
    } else {
      f := j;
    }
  }

  /** At most one record of a destination is the first restored one. */
  lemma FirstUnique(saved: seq<SavedRoute>, now: nat, failing: set<nat>, j: nat, f: nat)
    requires FirstRestored(saved, now, failing, j) && FirstRestored(saved, now, failing, f)
    requires saved[j].ip == saved[f].ip
    ensures j == f
  {
  }

  ghost predicate ActiveExact(saved: seq<SavedRoute>, n: nat, now: nat, failing: set<nat>, active: map<string, string>)
    requires n <= |saved|
  {
    && (forall j :: 0 <= j < n && FirstRestored(saved, now, failing, j) ==>
          saved[j].ip in active && active[saved[j].ip] == saved[j].gateway)
    && (forall i :: i in active ==>
          exists j :: 0 <= j < n && FirstRestored(saved, now, failing, j) && saved[j].ip == i)
  }

  /** The loop over the first `n` records computes exactly this, whatever the file says. */
  lemma {:induction false} RestoreExact(saved: seq<SavedRoute>, n: nat, now: nat, failing: set<nat>)
    requires n <= |saved|
    ensures ActiveExact(saved, n, now, failing, Restore(saved, n, now, failing).active)
    ensures var mem := Restore(saved, n, now, failing).mem;
      forall k, i :: Entry(mem, k, i) == LastFollowing(saved, n, now, failing, k, i)
  {
    if n > 0 {
      RestoreExact(saved, n - 1, now, failing);
      RestoreExactStep(saved, n - 1, now, failing,
                       Restore(saved, n - 1, now, failing), Restore(saved, n, now, failing));
    }
  }

  lemma {:induction false} FollowsExactly(saved: seq<SavedRoute>, n: nat, now: nat, failing: set<nat>, x: Restored)
    requires n < |saved| && ActiveExact(saved, n, now, failing, x.active)
    ensures var r := saved[n];
      && (FirstRestored(saved, now, failing, n) <==> Live(r, now) && n !in failing && r.ip !in x.active)
      && (Follows(saved, now, failing, n) <==>
            Live(r, now) && if r.ip in x.active then x.active[r.ip] == r.gateway else n !in failing)
  {
    var r := saved[n];
    if Live(r, now) && r.ip !in x.active {
      forall m | 0 <= m < n && saved[m].ip == r.ip && Live(saved[m], now) ensures m in failing {
        if m !in failing {
          var f := SomeFirst(saved, now, failing, m);
        }
      }
    }
    if r.ip in x.active {
      var j :| 0 <= j < n && FirstRestored(saved, now, failing, j) && saved[j].ip == r.ip;
      forall f | 0 <= f <= n && FirstRestored(saved, now, failing, f) && saved[f].ip == r.ip ensures f == j {
        FirstUnique(saved, now, failing, j, f);
      }
    }
  }

  lemma {:induction false} RestoreExactStep(saved: seq<SavedRoute>, n: nat, now: nat, failing: set<nat>,
                                            x: Restored, y: Restored)
    requires n < |saved| && ActiveExact(saved, n, now, failing, x.active)
    requires forall k, i :: Entry(x.mem, k, i) == LastFollowing(saved, n, now, failing, k, i)
    requires y == RestoreOne(x, saved[n], now, n !in failing)
    ensures ActiveExact(saved, n + 1, now, failing, y.active)
    ensures forall k, i :: Entry(y.mem, k, i) == LastFollowing(saved, n + 1, now, failing, k, i)
  {
    var r := saved[n];
    FollowsExactly(saved, n, now, failing, x);
    ActiveExactStep(saved, n, now, failing, x.active, y.active);
    assert y.mem == if Follows(saved, now, failing, n) then Put(x.mem, r.key, r.ip, SavedMeta(r)) else x.mem;
    forall k, i ensures Entry(y.mem, k, i) == LastFollowing(saved, n + 1, now, failing, k, i) {
      assert Entry(x.mem, k, i) == LastFollowing(saved, n, now, failing, k, i);
    }
  }

  lemma {:induction false} ActiveExactStep(saved: seq<SavedRoute>, n: nat, now: nat, failing: set<nat>,
                                           active: map<string, string>, more: map<string, string>)
    requires n < |saved| && ActiveExact(saved, n, now, failing, active)
    requires FirstRestored(saved, now, failing, n) ==>
      saved[n].ip !in active && more == active[saved[n].ip := saved[n].gateway]
    requires !FirstRestored(saved, now, failing, n) ==> more == active
    ensures ActiveExact(saved, n + 1, now, failing, more)
  {
    forall i | i in more
      ensures exists j :: 0 <= j < n + 1 && FirstRestored(saved, now, failing, j) && saved[j].ip == i {
      if i !in active {
        assert FirstRestored(saved, now, failing, n);
      } else {
        var j :| 0 <= j < n && FirstRestored(saved, now, failing, j) && saved[j].ip == i;
      }
    }
  }

  /** The load deletes the kernel route at `i` because a record of that route has expired. */
  ghost predicate ExpiryDeletes(s: World, o: Op, saved: seq<SavedRoute>, i: string)
    requires o.Restart? && i in s.dur.kernel
  {
    var pair := (i, s.dur.kernel[i]);
    pair in ExpiredPairs(saved, o.now) && pair !in o.failingDeletes
  }

  /** Loading any readable file: memory is exactly the unexpired records that follow the first
      restored gateway of their destination, the last one winning for a key and a destination. */
  lemma LoadedTable(s: World, o: Op, saved: seq<SavedRoute>)
    requires o.Restart? && o.readOk && s.dur.disk == Some(saved)
    ensures forall k, i :: Entry(Next(s, o).mem, k, i) == LastFollowing(saved, |saved|, o.now, o.failingAdds, k, i)
  {
    RestoreExact(saved, |saved|, o.now, o.failingAdds);
  }

  /** The kernel after a load: every restored route, added once by the first record that could add
      it and never deleted as expired; of the others, exactly the routes of expired records go. */
  lemma {:induction false} LoadedKernel(s: World, o: Op, saved: seq<SavedRoute>, i: string)
    requires o.Restart? && o.readOk && s.dur.disk == Some(saved)
    ensures var w := Next(s, o);
      if i in w.dur.owned then
        exists j :: 0 <= j < |saved| && FirstRestored(saved, o.now, o.failingAdds, j)
          && saved[j].ip == i && InKernel(w.dur, i, saved[j].gateway)
      else
        && (forall j :: 0 <= j < |saved| && FirstRestored(saved, o.now, o.failingAdds, j) ==> saved[j].ip != i)
        && (i in w.dur.kernel <==> i in s.dur.kernel && !ExpiryDeletes(s, o, saved, i))
        && (i in w.dur.kernel ==> w.dur.kernel[i] == s.dur.kernel[i])
  {
    RestoreExact(saved, |saved|, o.now, o.failingAdds);
    var active := Restore(saved, |saved|, o.now, o.failingAdds).active;
    var w := Next(s, o);
    LoadKernel(s, o, saved);
    if i in active {
      var j :| 0 <= j < |saved| && FirstRestored(saved, o.now, o.failingAdds, j) && saved[j].ip == i;
      assert InKernel(w.dur, i, saved[j].gateway);
    } else {
      assert i in w.dur.kernel <==> i in s.dur.kernel && !ExpiryDeletes(s, o, saved, i);
    }
  }

  lemma {:induction false} LoadKernel(s: World, o: Op, saved: seq<SavedRoute>)
    requires o.Restart? && o.readOk && s.dur.disk == Some(saved)
    ensures var active := Restore(saved, |saved|, o.now, o.failingAdds).active; var w := Next(s, o);
      && w.dur.owned == active.Keys
      && (forall i :: i in active ==> InKernel(w.dur, i, active[i]))
      && (forall i :: i !in active ==>
            (i in w.dur.kernel <==> i in s.dur.kernel && !ExpiryDeletes(s, o, saved, i))
            && (i in w.dur.kernel ==> w.dur.kernel[i] == s.dur.kernel[i]))
  {
    var active := Restore(saved, |saved|, o.now, o.failingAdds).active;
    var d := WithActive(Reborn(s.dur), active);
    var gone := ExpiredDeleted(d, active.Keys, ExpiredPairs(saved, o.now), o.failingDeletes);
    LoadSteps(s, o, saved);
    assert d.owned == active.Keys && d.owned - gone == active.Keys;
    forall i | i !in active && i in s.dur.kernel ensures i in gone <==> ExpiryDeletes(s, o, saved, i) {
      assert d.kernel[i] == s.dur.kernel[i];
    }
  }

  lemma {:induction false} LoadSteps(s: World, o: Op, saved: seq<SavedRoute>)
    requires o.Restart? && o.readOk && s.dur.disk == Some(saved)
    ensures var active := Restore(saved, |saved|, o.now, o.failingAdds).active;
      var d := WithActive(Reborn(s.dur), active);
      var gone := ExpiredDeleted(d, active.Keys, ExpiredPairs(saved, o.now), o.failingDeletes);
      Next(s, o).dur.kernel == KernelDelete(d, gone).kernel && Next(s, o).dur.owned == KernelDelete(d, gone).owned
  {
    var x := Restore(saved, |saved|, o.now, o.failingAdds);
    assert Step(s, o) == RestartStep(s, o);
    if x.failed {
    } else if !o.saveOk {
    } else {
    }
  }

  // ----- disk and memory agree -----

  /** The unexpired records in the file are the unexpired entries in memory. */
  ghost predicate Agree(s: World) {
    SameLive(s.mem, SavedRecords(s.dur), s.clock)
  }

  ghost predicate SameLive(t: Table, saved: seq<SavedRoute>, now: nat) {
    && (forall r :: r in saved && Live(r, now) ==> IsRecord(t, r))
    && (forall r :: IsRecord(t, r) && Live(r, now) ==> r in saved)
  }

  /** The one failure that leaves the file ahead of memory: a refused kernel add whose record
      cannot be taken back. */
  ghost predicate RollbackSaveFails(s: World, o: Op) {
    && o.Add? && AddAccepted(s, o) && o.saveOk && !Referenced(s.mem, o.ip)
    && !o.addOk && !o.rollbackOk
  }

  lemma SavedAgrees(t: Table, now: nat)
    ensures SameLive(t, Records(t), now)
  {
    RecordsExact(t);
  }

  /** Sweeping only drops what is expired; a retry time is not part of a record. */
  lemma {:induction false} SweptSameLive(t: Table, now: nat, deleted: set<string>, r: SavedRoute)
    requires Live(r, now)
    ensures IsRecord(SweptTable(t, now, deleted), r) <==> IsRecord(t, r)
  {
    assert Entry(SweptTable(t, now, deleted), r.key, r.ip) == SweptEntry(t, now, deleted, r.key, r.ip);
  }

  lemma {:induction false} SweepAgrees(s: World, o: Op)
    requires o.Sweep? && Agree(s) && s.clock <= o.now
    ensures Agree(Next(s, o))
  {
    var deleted := Deleted(s.mem, s.dur, o.now, o.failing);
    var t := SweptTable(s.mem, o.now, deleted);
    SweepWrites(s, o);
    assert Next(s, o).mem == t && Next(s, o).clock == o.now by { assert Step(s, o) == SweepStep(s, o); }
    if WritesFile(s, o) {
      SavedAgrees(t, o.now);
    } else {
      forall r | Live(r, o.now) ensures IsRecord(t, r) <==> IsRecord(s.mem, r) {
        SweptSameLive(s.mem, o.now, deleted, r);
      }
    }
  }

  /** What an `add` can leave in memory and in the file. */
  lemma {:induction false} AddOutcomes(s: World, o: Op)
    requires o.Add?
    ensures var w := Next(s, o); var t := Candidate(s.mem, o);
      && w.clock == o.now
      && (|| (w.mem == s.mem && w.dur == s.dur)
          || (w.mem == s.mem && SavedRecords(w.dur) == Records(s.mem))
          || (w.mem == t && SavedRecords(w.dur) == Records(t))
          || RollbackSaveFails(s, o))
  {
    AddCases(s, o);
  }

  lemma AddAgrees(s: World, o: Op)
    requires o.Add? && Agree(s) && s.clock <= o.now && !RollbackSaveFails(s, o)
    ensures Agree(Next(s, o))
  {
    AddOutcomes(s, o);
    var w := Next(s, o);
    if w.dur == s.dur && w.mem == s.mem {
      assert SameLive(s.mem, SavedRecords(s.dur), o.now);
    } else {
      SavedAgrees(w.mem, o.now);
    }
  }

  /** A failed rollback save leaves an unexpired record of an add that was refused. */
  lemma {:induction false} RollbackDisagrees(s: World, o: Op)
    requires RollbackSaveFails(s, o)
    ensures !Agree(Next(s, o))
  {
    AddCases(s, o);
    var t := Candidate(s.mem, o);
    var r := RecordOf(o.key, o.ip, NewMeta(o.now, o.gateway, o.ttl));
    RecordsExact(t);
    assert IsRecord(t, r) && r in Records(t);
    assert Entry(s.mem, o.key, o.ip).None?;
    assert Live(r, o.now) && !IsRecord(Next(s, o).mem, r) && r in SavedRecords(Next(s, o).dur);
  }

  lemma EraseAgrees(s: World, i: string, g: string, saveOk: bool, readdOk: bool)
    requires Agree(s)
    ensures Agree(EraseStep(s, i, g, saveOk, readdOk).0)
  {
    SavedAgrees(Unreference(s.mem, i, g), s.clock);
  }

  /** An operation keeps file and memory in agreement exactly when it is not such a failure. */
  lemma StepKeepsAgree(s: World, o: Op)
    requires Legal(s, o) && Agree(s) && !o.Restart?
    ensures Agree(Next(s, o)) <==> !RollbackSaveFails(s, o)
  {
    match o
    case Add(_, _, _, _, _, _, _, _) =>
      if RollbackSaveFails(s, o) {
        RollbackDisagrees(s, o);
      } else {
        AddAgrees(s, o);
      }
    case Remove(_, ip, gateway, _, saveOk, readdOk) => EraseAgrees(s, ip, gateway, saveOk, readdOk);
    case RemoveSystem(ip, gateway, _, _, saveOk, readdOk) => EraseAgrees(s, ip, gateway, saveOk, readdOk);
    case Sweep(_, _, _) => SweepAgrees(s, o);
  }

  /** A load that restored everything and rewrote the file (or found none) starts in agreement. */
  lemma LoadAgrees(s: World, o: Op)
    requires o.Restart? && Step(s, o).1 == Done
    ensures Agree(Next(s, o))
  {
    if s.dur.disk.Some? {
      var w := Next(s, o);
      SavedAgrees(w.mem, w.clock);
    }
  }

  // ----- what a restart rebuilds -----

  /** An entry after a restart at `now`. */
  function Rebuilt(e: Option<Meta>, now: nat): Option<Meta> {
    if e.Some? && !Expired(e.value.expiresAt, now) then Some(e.value.(lastAttempt := 0)) else None
  }

  /** Restoring records that are all entries of one single-gateway table finds no conflict. */
  lemma {:induction false} RestoreRebuilds(t: Table, saved: seq<SavedRoute>, n: nat, now: nat)
    requires SingleGateway(t) && n <= |saved|
    requires forall r :: r in saved && Live(r, now) ==> IsRecord(t, r)
    ensures var x := Restore(saved, n, now, {});
      && !x.failed
      && (forall i :: i in x.active ==> GatewayIs(t, i, x.active[i]))
      && (forall k, i :: Entry(x.mem, k, i).Some? ==> Entry(x.mem, k, i) == Rebuilt(Entry(t, k, i), now))
      && (forall m :: 0 <= m < n && Live(saved[m], now) ==> Entry(x.mem, saved[m].key, saved[m].ip).Some?)
  {
    if n > 0 {
      RestoreRebuilds(t, saved, n - 1, now);
      var r := saved[n - 1];
      assert r in saved;
      if Live(r, now) {
        var x := Restore(saved, n - 1, now, {});
        assert GatewayIs(t, r.ip, r.gateway) && Entry(t, r.key, r.ip).Some?;
        assert Restore(saved, n, now, {}).mem == Put(x.mem, r.key, r.ip, SavedMeta(r));
      }
    }
  }

  /** A restart with working kernel adds, from a file whose live records are those of a table. */
  lemma {:induction false} RestartRebuildsTable(s: World, o: Op, t: Table)
    requires o.Restart? && s.clock <= o.now && o.readOk && o.failingAdds == {}
    requires SingleGateway(t) && SameLive(t, SavedRecords(s.dur), s.clock)
    ensures Step(s, o).1 != RestoreFailed
    ensures forall k, i :: Entry(Next(s, o).mem, k, i) == Rebuilt(Entry(t, k, i), o.now)
  {
    var saved := SavedRecords(s.dur);
    RestoreRebuilds(t, saved, |saved|, o.now);
    assert Step(s, o) == RestartStep(s, o);
    forall k, i ensures Entry(Next(s, o).mem, k, i) == Rebuilt(Entry(t, k, i), o.now) {
      var e := Entry(t, k, i);
      if e.Some? && !Expired(e.value.expiresAt, o.now) {
        assert IsRecord(t, RecordOf(k, i, e.value));
        var m :| 0 <= m < |saved| && saved[m] == RecordOf(k, i, e.value);
      }
    }
  }

  /** From a state where file and memory agree, it rebuilds exactly the entries that are permanent
      or expire later, with no failed attempt remembered. */
  lemma {:induction false} RestartRebuilds(s: World, o: Op)
    requires Inv(s) && Agree(s) && o.Restart? && Legal(s, o) && o.readOk && o.failingAdds == {}
    ensures Step(s, o).1 != RestoreFailed
    ensures forall k, i :: Entry(Next(s, o).mem, k, i) == Rebuilt(Entry(s.mem, k, i), o.now)
  {
    RestartRebuildsTable(s, o, s.mem);
  }

  ghost predicate QuietRun(s: World, os: seq<Op>)
    decreases |os|
  {
    os != [] ==>
      && Legal(s, os[0]) && !os[0].Restart? && !RollbackSaveFails(s, os[0])
      && QuietRun(Next(s, os[0]), os[1..])
  }

  ghost function RunOps(s: World, os: seq<Op>): World
    decreases |os|
  {
    if os == [] then s else RunOps(Next(s, os[0]), os[1..])
  }

  lemma {:induction false} QuietRunAgrees(s: World, os: seq<Op>)
    requires Inv(s) && Agree(s) && QuietRun(s, os)
    ensures Inv(RunOps(s, os)) && Agree(RunOps(s, os))
    decreases |os|
  {
    if os != [] {
      StepKeepsInv(s, os[0]);
      StepKeepsAgree(s, os[0]);
      QuietRunAgrees(Next(s, os[0]), os[1..]);
    }
  }

  /** Recovery refines memory: load, then any run of operations with any failures but the
      rollback save, then a later restart. */
  lemma RecoveryRefinesMemory(s: World, load: Op, os: seq<Op>, restart: Op)
    requires Inv(s) && load.Restart? && Legal(s, load) && Step(s, load).1 == Done
    requires QuietRun(Next(s, load), os)
    requires restart.Restart? && restart.readOk && restart.failingAdds == {}
    requires Legal(RunOps(Next(s, load), os), restart)
    ensures var last := RunOps(Next(s, load), os);
      forall k, i :: Entry(Next(last, restart).mem, k, i) == Rebuilt(Entry(last.mem, k, i), restart.now)
  {
    StepKeepsInv(s, load);
    LoadAgrees(s, load);
    QuietRunAgrees(Next(s, load), os);
    RestartRebuilds(RunOps(Next(s, load), os), restart);
  }

  lemma {:induction false} RestoredFresh(saved: seq<SavedRoute>, n: nat, now: nat, failing: set<nat>,
                                         k: string, i: string)
    requires n <= |saved|
    ensures var e := Entry(Restore(saved, n, now, failing).mem, k, i); Rebuilt(e, now) == e
  {
    if n > 0 {
      RestoredFresh(saved, n - 1, now, failing, k, i);
      var x := Restore(saved, n - 1, now, failing);
      var r := saved[n - 1];
      var y := RestoreOne(x, r, now, n - 1 !in failing);
      assert y.mem == x.mem || (Live(r, now) && y.mem == Put(x.mem, r.key, r.ip, SavedMeta(r)));
    }
  }

  /** Loading an already loaded table changes nothing in it. */
  lemma LoadedRebuilds(s: World, o: Op, k: string, i: string)
    requires o.Restart?
    ensures Rebuilt(Entry(Next(s, o).mem, k, i), o.now) == Entry(Next(s, o).mem, k, i)
  {
    if s.dur.disk.Some? && o.readOk {
      var saved := s.dur.disk.value;
      RestoredFresh(saved, |saved|, o.now, o.failingAdds, k, i);
    }
  }

  /** A second load at the same time gives the same table as a load that succeeded. */
  lemma LoadIsIdempotent(s: World, first: Op, second: Op)
    requires Inv(s) && first.Restart? && second.Restart? && Legal(s, first) && Step(s, first).1 == Done
    requires second.now == first.now && second.readOk && second.failingAdds == {}
    ensures Next(Next(s, first), second).mem == Next(s, first).mem
  {
    var w := Next(s, first);
    assert Inv(w) by { StepKeepsInv(s, first); }
    assert Agree(w) by { LoadAgrees(s, first); }
    assert w.clock == first.now && Legal(w, second);
    RestartRebuilds(w, second);
    assert Inv(Next(w, second)) by { StepKeepsInv(w, second); }
    forall k, i ensures Entry(Next(w, second).mem, k, i) == Entry(w.mem, k, i) {
      LoadedRebuilds(s, first, k, i);
    }
    TableEquality(Next(w, second).mem, w.mem);
  }

  // ----- no kernel route is orphaned -----

  /** The kernel routes this or an earlier process installed and nobody deleted. */
  function EverInstalled(d: Durable): set<string> {
    d.owned + d.legacy
  }

  ghost predicate AllRecorded(d: Durable) {
    WriteAhead(d) && LegacyRecorded(d)
  }

  /** A restart in which no add fails and no delete of a present route fails. */
  predicate KindRestart(s: World, o: Op) {
    && o.Restart? && o.readOk && o.failingAdds == {}
    && forall p :: p in o.failingDeletes ==> !InKernel(s.dur, p.0, p.1)
  }

  lemma {:induction false} LiveIsActive(saved: seq<SavedRoute>, n: nat, now: nat, m: nat)
    requires m < n <= |saved| && Live(saved[m], now)
    ensures saved[m].ip in Restore(saved, n, now, {}).active
  {
    if m < n - 1 {
      LiveIsActive(saved, n - 1, now, m);
    }
  }

  lemma {:induction false} NothingFails(saved: seq<SavedRoute>, n: nat, now: nat)
    requires n <= |saved|
    ensures !Restore(saved, n, now, {}).failed
  {
    if n > 0 {
      NothingFails(saved, n - 1, now);
    }
  }

  /** Whatever kernel route the file records is installed again or deleted. */
  lemma {:induction false} NothingOrphaned(s: World, o: Op, i: string)
    requires Recorded(s.dur, i) && KindRestart(s, o)
    ensures i in Next(s, o).dur.owned || i !in Next(s, o).dur.kernel
  {
    var saved := s.dur.disk.value;
    var w := Next(s, o);
    var x := Restore(saved, |saved|, o.now, {});
    assert Step(s, o) == RestartStep(s, o);
    assert w.dur.owned == x.active.Keys;
    var m :| 0 <= m < |saved| && saved[m].ip == i && saved[m].gateway == s.dur.kernel[i];
    if Live(saved[m], o.now) {
      LiveIsActive(saved, |saved|, o.now, m);
    } else {
      assert saved[m] in saved;
      assert (i, s.dur.kernel[i]) in ExpiredPairs(saved, o.now);
    }
  }

  /** After a kind restart every entry is in the kernel, and no route of an earlier process is
      left there on its own. */
  lemma {:induction false} KindRestartSettles(s: World, o: Op)
    requires Inv(s) && AllRecorded(s.dur) && KindRestart(s, o) && Legal(s, o)
    ensures Step(s, o).1 != RestoreFailed
    ensures var w := Next(s, o);
      && w.dur.legacy == {} && AllRecorded(w.dur)
      && (forall i :: Referenced(w.mem, i) <==> i in w.dur.owned)
      && (forall k, i :: Entry(w.mem, k, i).Some? ==> InKernel(w.dur, i, Entry(w.mem, k, i).value.gateway))
      && (forall i :: i in EverInstalled(s.dur) ==> i in w.dur.owned || i !in w.dur.kernel)
  {
    var w := Next(s, o);
    assert Inv(w) by { StepKeepsInv(s, o); }
    if s.dur.disk.Some? {
      NothingFails(s.dur.disk.value, |s.dur.disk.value|, o.now);
    }
    forall i | i in EverInstalled(s.dur) ensures i in w.dur.owned || i !in w.dur.kernel {
      assert Recorded(s.dur, i);
      NothingOrphaned(s, o, i);
    }
    LegacyShrinks(s, o);
    assert forall i :: Referenced(w.mem, i) <==> i in w.dur.owned by { RestoredIsOwned(s, o); }
    forall k, i | Entry(w.mem, k, i).Some? ensures InKernel(w.dur, i, Entry(w.mem, k, i).value.gateway) {
      assert Referenced(w.mem, i);
    }
  }

  /** A load takes over earlier routes or deletes them; the others stay as they were. */
  lemma {:induction false} LegacyShrinks(s: World, o: Op)
    requires o.Restart? && s.dur.legacy <= s.dur.kernel.Keys && s.dur.owned <= s.dur.kernel.Keys
    ensures var w := Next(s, o); w.dur.legacy == EverInstalled(s.dur) * w.dur.kernel.Keys - w.dur.owned
  {
    assert Step(s, o) == RestartStep(s, o);
  }

  lemma {:induction false} RestoredIsOwned(s: World, o: Op)
    requires Inv(s) && o.Restart?
    ensures forall i :: Referenced(Next(s, o).mem, i) <==> i in Next(s, o).dur.owned
  {
    assert Step(s, o) == RestartStep(s, o);
    assert forall i :: !Referenced(map[], i);
    if s.dur.disk.Some? && o.readOk {
      RestoreKeepsInv(s.dur.disk.value, |s.dur.disk.value|, o.now, o.failingAdds);
    }
  }

  /** While a load is under way the file is untouched, so earlier routes stay recorded. */
  lemma RestartMomentRecorded(s: World, o: Op, d: Durable)
    requires AllRecorded(s.dur) && o.Restart? && RestartCrashPoint(Reborn(s.dur), o, d)
    ensures LegacyRecorded(d)
  {
    forall i | i in d.legacy ensures Recorded(d, i) {
      assert Recorded(s.dur, i);
      assert d.disk == s.dur.disk && i in d.kernel && d.kernel[i] == s.dur.kernel[i];
    }
  }

  /** A running process that found nothing of its predecessors never gains such routes. */
  lemma {:induction false} MomentLegacy(s: World, o: Op, d: Durable)
    requires !o.Restart? && s.dur.legacy == {} && CrashPoint(s, o, d)
    ensures d.legacy == {}
  {
    if d == Next(s, o).dur {
      NoNewLegacy(s, o);
    }
  }

  lemma {:induction false} NoNewLegacy(s: World, o: Op)
    requires !o.Restart?
    ensures Next(s, o).dur.legacy <= s.dur.legacy
  {
    match o
    case Add(_, _, _, _, _, _, _, _) => AddCases(s, o);
    case Remove(_, _, _, _, _, _) =>
      assert Step(s, o) == RemoveStep(s, o);
      EraseLegacy(s, o.ip, o.gateway, o.saveOk, o.readdOk);
    case RemoveSystem(_, _, _, _, _, _) =>
      assert Step(s, o) == RemoveSystemStep(s, o);
      EraseLegacy(s, o.ip, o.gateway, o.saveOk, o.readdOk);
    case Sweep(_, _, _) => assert Step(s, o) == SweepStep(s, o);
  }

  lemma {:induction false} EraseLegacy(s: World, i: string, g: string, saveOk: bool, readdOk: bool)
    ensures EraseStep(s, i, g, saveOk, readdOk).0.dur.legacy <= s.dur.legacy
  {
  }

  /** At every moment of an operation, everything ever installed and not deleted is recorded. */
  lemma MomentsRecorded(s: World, o: Op, d: Durable)
    requires Inv(s) && AllRecorded(s.dur) && (s.alive ==> s.dur.legacy == {}) && Legal(s, o)
    requires o.Restart? ==> KindRestart(s, o)
    requires CrashPoint(s, o, d)
    ensures AllRecorded(d)
  {
    assert WriteAhead(d) by { StepKeepsInv(s, o); }
    if o.Restart? {
      if d == Next(s, o).dur {
        KindRestartSettles(s, o);
      } else if d != s.dur {
        RestartMomentRecorded(s, o, d);
      }
    } else {
      MomentLegacy(s, o, d);
    }
  }

  ghost predicate KindRun(s: World, es: seq<Event>)
    decreases |es|
  {
    es != [] ==> (es[0].op.Restart? ==> KindRestart(s, es[0].op)) && KindRun(After(s, es[0]), es[1..])
  }

  ghost predicate Settled(s: World) {
    AllRecorded(s.dur) && (s.alive ==> s.dur.legacy == {})
  }

  lemma EventKeepsSettled(s: World, e: Event)
    requires Inv(s) && Settled(s) && LegalEvent(s, e) && (e.op.Restart? ==> KindRestart(s, e.op))
    ensures Settled(After(s, e))
  {
    match e
    case Completed(o) =>
      MomentsRecorded(s, o, Next(s, o).dur);
      if o.Restart? {
        KindRestartSettles(s, o);
      } else {
        MomentLegacy(s, o, Next(s, o).dur);
      }
    case Cut(o, d) =>
      MomentsRecorded(s, o, d);
      RebornRecorded(d);
  }

  lemma RebornRecorded(d: Durable)
    requires AllRecorded(d)
    ensures AllRecorded(Reborn(d))
  {
    forall i | i in Reborn(d).legacy ensures Recorded(Reborn(d), i) {
      assert Recorded(d, i);
    }
  }

  lemma {:induction false} RunKeepsSettled(s: World, es: seq<Event>)
    requires Inv(s) && Settled(s) && LegalRun(s, es) && KindRun(s, es)
    ensures Inv(Run(s, es)) && Settled(Run(s, es))
    decreases |es|
  {
    if es != [] {
      EventKeepsInv(s, es[0]);
      EventKeepsSettled(s, es[0]);
      RunKeepsSettled(After(s, es[0]), es[1..]);
    }
  }

  /** Crash recovery over every run, whatever saves, kernel calls and earlier loads failed in it: cut
      any operation, a load included, at any moment, and let one restart meet no failing add and no
      failing delete of a present route. Every recovered entry is in the kernel, and no route the
      process owned, nor any other route the file records, is orphaned. */
  lemma {:induction false} CrashRecovery(s: World, es: seq<Event>, o: Op, d: Durable, restart: Op)
    requires Inv(s) && LegalRun(s, es) && Legal(Run(s, es), o) && CrashPoint(Run(s, es), o, d)
    requires var c := Crashed(Run(s, es), o, d); KindRestart(c, restart) && Legal(c, restart)
    ensures var w := Next(Crashed(Run(s, es), o, d), restart);
      && (forall k, i :: Entry(w.mem, k, i).Some? ==> InKernel(w.dur, i, Entry(w.mem, k, i).value.gateway))
      && (forall i :: Referenced(w.mem, i) <==> i in w.dur.owned)
      && (forall i :: i in d.owned ==> Recorded(d, i))
      && (forall i :: Recorded(d, i) ==> i in w.dur.owned || i !in w.dur.kernel)
  {
    var last := Run(s, es);
    var c := Crashed(last, o, d);
    assert Inv(last) && WriteAhead(d) by { RunIsWriteAhead(s, es); }
    assert Inv(c) by {
      assert After(last, Cut(o, d)) == c;
      EventKeepsInv(last, Cut(o, d));
    }
    RestartSettles(c, restart);
    forall i | Recorded(d, i) ensures i in Next(c, restart).dur.owned || i !in Next(c, restart).dur.kernel {
      assert c.dur.disk == d.disk && c.dur.kernel == d.kernel;
      NothingOrphaned(c, restart, i);
    }
  }

  lemma {:induction false} RestartSettles(s: World, o: Op)
    requires Inv(s) && o.Restart? && Legal(s, o)
    ensures var w := Next(s, o);
      && (forall i :: Referenced(w.mem, i) <==> i in w.dur.owned)
      && (forall k, i :: Entry(w.mem, k, i).Some? ==> InKernel(w.dur, i, Entry(w.mem, k, i).value.gateway))
  {
    var w := Next(s, o);
    assert Inv(w) by { StepKeepsInv(s, o); }
    assert forall i :: Referenced(w.mem, i) <==> i in w.dur.owned by { RestoredIsOwned(s, o); }
    forall k, i | Entry(w.mem, k, i).Some? ensures InKernel(w.dur, i, Entry(w.mem, k, i).value.gateway) {
      assert Referenced(w.mem, i);
    }
  }

  /** When all earlier loads were as kind, the routes of all earlier processes are recorded too, so
      nothing ever installed and not deleted is orphaned. */
  lemma {:induction false} NothingEverOrphaned(s: World, es: seq<Event>, o: Op, d: Durable, restart: Op)
    requires Inv(s) && Settled(s) && LegalRun(s, es) && KindRun(s, es)
    requires Legal(Run(s, es), o) && CrashPoint(Run(s, es), o, d)
    requires o.Restart? ==> KindRestart(Run(s, es), o)
    requires var c := Crashed(Run(s, es), o, d); KindRestart(c, restart) && Legal(c, restart)
    ensures var w := Next(Crashed(Run(s, es), o, d), restart);
      forall i :: i in EverInstalled(d) ==> i in w.dur.owned || i !in w.dur.kernel
  {
    RunKeepsSettled(s, es);
    var last := Run(s, es);
    EventKeepsInv(last, Cut(o, d));
    EventKeepsSettled(last, Cut(o, d));
    KindRestartSettles(Crashed(last, o, d), restart);
  }

  /** Which earlier routes a load leaves orphaned, exactly: no unexpired record of the destination
      can be added, and the route itself has no expired record or its delete fails. */
  lemma {:induction false} OrphanExactly(s: World, o: Op, saved: seq<SavedRoute>, i: string)
    requires o.Restart? && o.readOk && s.dur.disk == Some(saved) && i in EverInstalled(s.dur)
    requires i in s.dur.kernel
    ensures i in Next(s, o).dur.legacy <==>
      && (forall j :: 0 <= j < |saved| && saved[j].ip == i && Live(saved[j], o.now) ==> j in o.failingAdds)
      && ((i, s.dur.kernel[i]) !in ExpiredPairs(saved, o.now) || (i, s.dur.kernel[i]) in o.failingDeletes)
  {
    ActiveExactly(saved, o.now, o.failingAdds, i);
    LoadLegacy(s, o, saved, i);
  }

  /** A destination is restored exactly when some unexpired record of it can be added. */
  lemma {:induction false} ActiveExactly(saved: seq<SavedRoute>, now: nat, failing: set<nat>, i: string)
    ensures i in Restore(saved, |saved|, now, failing).active <==>
      exists j :: 0 <= j < |saved| && saved[j].ip == i && Live(saved[j], now) && j !in failing
  {
    RestoreExact(saved, |saved|, now, failing);
    if j :| 0 <= j < |saved| && saved[j].ip == i && Live(saved[j], now) && j !in failing {
      var f := SomeFirst(saved, now, failing, j);
    }
  }

  lemma {:induction false} LoadLegacy(s: World, o: Op, saved: seq<SavedRoute>, i: string)
    requires o.Restart? && o.readOk && s.dur.disk == Some(saved) && i in EverInstalled(s.dur) && i in s.dur.kernel
    ensures i in Next(s, o).dur.legacy <==>
      i !in Restore(saved, |saved|, o.now, o.failingAdds).active && !ExpiryDeletes(s, o, saved, i)
  {
    var active := Restore(saved, |saved|, o.now, o.failingAdds).active;
    var d := WithActive(Reborn(s.dur), active);
    var gone := ExpiredDeleted(d, active.Keys, ExpiredPairs(saved, o.now), o.failingDeletes);
    assert Next(s, o).dur.legacy == KernelDelete(d, gone).legacy by { assert Step(s, o) == RestartStep(s, o); }
    assert i !in active ==> (i in gone <==> ExpiryDeletes(s, o, saved, i));
  }

  /** A load that succeeds forgets its orphans: no record of them stays in the file. */
  lemma OrphanForgotten(s: World, o: Op, i: string)
    requires Inv(s) && o.Restart? && Legal(s, o) && s.dur.disk.Some? && Step(s, o).1 == Done
    requires i in Next(s, o).dur.legacy
    ensures forall r :: r in SavedRecords(Next(s, o).dur) ==> r.ip != i
  {
    var w := Next(s, o);
    StepKeepsInv(s, o);
    RecordsExact(w.mem);
    forall r | r in SavedRecords(w.dur) ensures r.ip != i {
      assert Referenced(w.mem, r.ip);
    }
  }

  // ----- how long the records of a failed restore are kept -----

  /** The operation replaces the file with a table's records. */
  ghost predicate WritesFile(s: World, o: Op)
    requires !o.Restart?
  {
    match o
    case Add(_, _, _, _, _, saveOk, _, _) => AddAccepted(s, o) && saveOk
    case Remove(key, ip, gateway, deleteOk, saveOk, _) =>
      Entry(s.mem, key, ip).Some? && Entry(s.mem, key, ip).value.gateway == gateway
      && deleteOk && InKernel(s.dur, ip, gateway) && saveOk
    case RemoveSystem(ip, gateway, listOk, deleteOk, saveOk, _) =>
      listOk && deleteOk && InKernel(s.dur, ip, gateway) && saveOk
    case Sweep(now, failing, saveOk) => SweepChanged(s.mem, now, Deleted(s.mem, s.dur, now, failing)) && saveOk
  }

  /** What is written is memory after the operation, unless a rollback save has failed. */
  lemma {:induction false} WrittenFile(s: World, o: Op)
    requires !o.Restart?
    ensures !WritesFile(s, o) ==> Next(s, o).dur.disk == s.dur.disk
    ensures WritesFile(s, o) ==> SavedRecords(Next(s, o).dur) == Records(Written(s, o))
  {
    match o
    case Add(_, _, _, _, _, _, _, _) => AddWrites(s, o);
    case Remove(_, _, _, _, _, _) => RemoveWrites(s, o);
    case RemoveSystem(_, _, _, _, _, _) => RemoveSystemWrites(s, o);
    case Sweep(_, _, _) => SweepWrites(s, o);
  }

  ghost function Written(s: World, o: Op): Table {
    if RollbackSaveFails(s, o) then Candidate(s.mem, o) else Next(s, o).mem
  }

  lemma {:induction false} AddWrites(s: World, o: Op)
    requires o.Add?
    ensures !WritesFile(s, o) ==> Next(s, o).dur.disk == s.dur.disk
    ensures WritesFile(s, o) ==> SavedRecords(Next(s, o).dur) == Records(Written(s, o))
  {
    AddCases(s, o);
  }

  lemma {:induction false} RemoveWrites(s: World, o: Op)
    requires o.Remove?
    ensures if WritesFile(s, o) then SavedRecords(Next(s, o).dur) == Records(Next(s, o).mem)
            else Next(s, o).dur.disk == s.dur.disk
  {
    assert Step(s, o) == RemoveStep(s, o);
    EraseWrites(s, o.ip, o.gateway, o.saveOk, o.readdOk);
  }

  lemma {:induction false} RemoveSystemWrites(s: World, o: Op)
    requires o.RemoveSystem?
    ensures if WritesFile(s, o) then SavedRecords(Next(s, o).dur) == Records(Next(s, o).mem)
            else Next(s, o).dur.disk == s.dur.disk
  {
    assert Step(s, o) == RemoveSystemStep(s, o);
    EraseWrites(s, o.ip, o.gateway, o.saveOk, o.readdOk);
  }

  lemma {:induction false} SweepWrites(s: World, o: Op)
    requires o.Sweep?
    ensures if WritesFile(s, o) then SavedRecords(Next(s, o).dur) == Records(Next(s, o).mem)
            else Next(s, o).dur.disk == s.dur.disk
  {
    assert Step(s, o) == SweepStep(s, o);
  }

  lemma {:induction false} EraseWrites(s: World, i: string, g: string, saveOk: bool, readdOk: bool)
    ensures var w := EraseStep(s, i, g, saveOk, readdOk).0;
      if saveOk then SavedRecords(w.dur) == Records(w.mem) else w.dur.disk == s.dur.disk
  {
  }

  /** However far file and memory have drifted apart, the next operation that writes the file
      brings them back together, unless its own rollback save fails. */
  lemma {:induction false} WriteHeals(s: World, o: Op)
    requires !o.Restart? && WritesFile(s, o)
    ensures Agree(Next(s, o)) <==> !RollbackSaveFails(s, o)
  {
    WrittenFile(s, o);
    if RollbackSaveFails(s, o) {
      RollbackDisagrees(s, o);
    } else {
      SavedAgrees(Next(s, o).mem, Next(s, o).clock);
    }
  }

  /** The add enters this very record. */
  predicate Enters(o: Op, r: SavedRoute) {
    o.Add? && r == RecordOf(o.key, o.ip, NewMeta(o.now, o.gateway, o.ttl))
  }

  /** Memory never gains a record but by the add that enters it. */
  lemma {:induction false} NoNewRecord(s: World, o: Op, r: SavedRoute)
    requires !o.Restart? && !Enters(o, r) && !IsRecord(s.mem, r)
    ensures !IsRecord(Next(s, o).mem, r)
    ensures o.Add? ==> !IsRecord(Candidate(s.mem, o), r)
  {
    match o
    case Add(_, _, _, _, _, _, _, _) => AddCases(s, o);
    case Remove(_, _, _, _, _, _) =>
      assert Step(s, o) == RemoveStep(s, o);
      ErasedRecord(s, o.ip, o.gateway, o.saveOk, o.readdOk, r);
    case RemoveSystem(_, _, _, _, _, _) =>
      assert Step(s, o) == RemoveSystemStep(s, o);
      ErasedRecord(s, o.ip, o.gateway, o.saveOk, o.readdOk, r);
    case Sweep(_, _, _) => SweptRecord(s, o, r);
  }

  lemma {:induction false} ErasedRecord(s: World, i: string, g: string, saveOk: bool, readdOk: bool, r: SavedRoute)
    requires !IsRecord(s.mem, r)
    ensures !IsRecord(EraseStep(s, i, g, saveOk, readdOk).0.mem, r)
  {
  }

  lemma {:induction false} SweptRecord(s: World, o: Op, r: SavedRoute)
    requires o.Sweep? && !IsRecord(s.mem, r)
    ensures !IsRecord(Next(s, o).mem, r)
  {
    assert Step(s, o) == SweepStep(s, o);
  }

  /** A record that memory does not hold stays in the file exactly when the operation does not
      write the file. */
  lemma {:induction false} UnrestoredStep(s: World, o: Op, r: SavedRoute)
    requires !o.Restart? && !Enters(o, r) && !IsRecord(s.mem, r)
    ensures !IsRecord(Next(s, o).mem, r)
    ensures r in SavedRecords(Next(s, o).dur) <==> r in SavedRecords(s.dur) && !WritesFile(s, o)
  {
    NoNewRecord(s, o, r);
    WrittenFile(s, o);
    RecordsExact(Written(s, o));
    assert !IsRecord(Written(s, o), r);
  }

  /** A run of one process in which no add, successful or not, enters the record itself. */
  ghost predicate NeverEntered(s: World, os: seq<Op>, r: SavedRoute)
    decreases |os|
  {
    os != [] ==>
      && Legal(s, os[0]) && !os[0].Restart? && !Enters(os[0], r)
      && NeverEntered(Next(s, os[0]), os[1..], r)
  }

  ghost predicate NeverWrites(s: World, os: seq<Op>, r: SavedRoute)
    requires NeverEntered(s, os, r)
    decreases |os|
  {
    os != [] ==> !WritesFile(s, os[0]) && NeverWrites(Next(s, os[0]), os[1..], r)
  }

  lemma {:induction false} UnrestoredRun(s: World, os: seq<Op>, r: SavedRoute)
    requires NeverEntered(s, os, r) && !IsRecord(s.mem, r)
    ensures r in SavedRecords(RunOps(s, os).dur) <==> r in SavedRecords(s.dur) && NeverWrites(s, os, r)
    decreases |os|
  {
    if os != [] {
      UnrestoredStep(s, os[0], r);
      UnrestoredRun(Next(s, os[0]), os[1..], r);
    }
  }

  /** Whatever a load does not bring into memory, a record it could not restore or every record of a
      file it could not read, is in the file at the end of a run exactly when the load did not succeed
      and no operation wrote the file: the first write saves memory alone, and the record is gone
      unless an add enters the very same one. */
  lemma {:induction false} UnrestoredKeptUntilWrite(s: World, load: Op, os: seq<Op>, r: SavedRoute)
    requires load.Restart? && r in SavedRecords(s.dur) && !IsRecord(Next(s, load).mem, r)
    requires NeverEntered(Next(s, load), os, r)
    ensures r in SavedRecords(RunOps(Next(s, load), os).dur) <==>
      Step(s, load).1 != Done && NeverWrites(Next(s, load), os, r)
  {
    var w := Next(s, load);
    LoadWrites(s, load);
    RecordsExact(w.mem);
    UnrestoredRun(w, os, r);
  }

  /** A load rewrites the file exactly when it succeeds. */
  lemma {:induction false} LoadWrites(s: World, load: Op)
    requires load.Restart? && s.dur.disk.Some?
    ensures Next(s, load).dur.disk == if Step(s, load).1 == Done then Some(Records(Next(s, load).mem)) else s.dur.disk
  {
    assert Step(s, load) == RestartStep(s, load);
  }

  /** A load that cannot read the file leaves memory empty: it keeps every record until the first
      write, and that write discards every record that no add has entered. */
  lemma {:induction false} UnreadableKeptUntilWrite(s: World, load: Op, os: seq<Op>, r: SavedRoute)
    requires load.Restart? && !load.readOk && r in SavedRecords(s.dur) && NeverEntered(Next(s, load), os, r)
    ensures Next(s, load).mem == map[]
    ensures r in SavedRecords(RunOps(Next(s, load), os).dur) <==> NeverWrites(Next(s, load), os, r)
  {
    assert Step(s, load) == RestartStep(s, load);
    UnrestoredKeptUntilWrite(s, load, os, r);
  }

  // ----- what a crash leaves -----

  /** The table whose live records the file holds after a crash. */
  datatype Survivor = Before | Attempt | Later

  ghost function TableOf(s: World, o: Op, v: Survivor): Table
    requires v.Attempt? ==> o.Add?
  {
    match v
    case Before => s.mem
    case Attempt => Candidate(s.mem, o)
    case Later => Next(s, o).mem
  }

  /** From agreement, a crash at any moment of an operation leaves the live records of memory
      before it, of the table an accepted add attempts, or of memory after it: never a mixture. */
  lemma {:induction false} CrashLeavesOneTable(s: World, o: Op, d: Durable) returns (v: Survivor)
    requires Agree(s) && Legal(s, o) && !o.Restart? && CrashPoint(s, o, d)
    ensures v.Attempt? ==> o.Add? && AddAccepted(s, o) && o.saveOk
    ensures SameLive(TableOf(s, o, v), SavedRecords(d), Next(s, o).clock)
  {
    v := FileAtMoment(s, o, d);
    ClockMoves(s, o);
    SurvivorAgrees(s, TableOf(s, o, v), d, v, Next(s, o).clock);
  }

  lemma {:induction false} SurvivorAgrees(s: World, t: Table, d: Durable, v: Survivor, now: nat)
    requires Agree(s) && s.clock <= now
    requires if v.Before? then t == s.mem && d.disk == s.dur.disk else SavedRecords(d) == Records(t)
    ensures SameLive(t, SavedRecords(d), now)
  {
    if v.Before? {
      KeptAgrees(s, d, now);
    } else {
      SavedAgrees(t, now);
    }
  }

  /** The file at any moment of an operation. */
  lemma {:induction false} FileAtMoment(s: World, o: Op, d: Durable) returns (v: Survivor)
    requires !o.Restart? && CrashPoint(s, o, d)
    ensures v.Attempt? ==> o.Add? && AddAccepted(s, o) && o.saveOk
    ensures if v.Before? then d.disk == s.dur.disk else SavedRecords(d) == Records(TableOf(s, o, v))
  {
    if d == Next(s, o).dur {
      WrittenFile(s, o);
      v := if !WritesFile(s, o) then Before else if RollbackSaveFails(s, o) then Attempt else Later;
    } else if d.disk == s.dur.disk {
      v := Before;
    } else {
      v := Attempt;
    }
  }

  lemma {:induction false} KeptAgrees(s: World, d: Durable, now: nat)
    requires Agree(s) && d.disk == s.dur.disk && s.clock <= now
    ensures SameLive(s.mem, SavedRecords(d), now)
  {
  }

  /** So a restart whose kernel adds succeed rebuilds one of the three. */
  lemma {:induction false} CrashRebuildsOneTable(s: World, o: Op, d: Durable, restart: Op) returns (v: Survivor)
    requires Inv(s) && Agree(s) && Legal(s, o) && !o.Restart? && CrashPoint(s, o, d)
    requires restart.Restart? && restart.readOk && restart.failingAdds == {} && Legal(Crashed(s, o, d), restart)
    ensures v.Attempt? ==> o.Add? && AddAccepted(s, o) && o.saveOk
    ensures var w := Next(Crashed(s, o, d), restart);
      forall k, i :: Entry(w.mem, k, i) == Rebuilt(Entry(TableOf(s, o, v), k, i), restart.now)
  {
    v := CrashLeavesOneTable(s, o, d);
    assert SingleGateway(TableOf(s, o, v)) by {
      if v.Attempt? {
        CandidateInv(s, o);
      } else {
        StepKeepsInv(s, o);
      }
    }
    ClockMoves(s, o);
    RestartRebuildsTable(Crashed(s, o, d), restart, TableOf(s, o, v));
  }

  lemma {:induction false} ClockMoves(s: World, o: Op)
    requires !o.Restart?
    ensures Next(s, o).clock == if o.Add? || o.Sweep? then o.now else s.clock
  {
    match o
    case Add(_, _, _, _, _, _, _, _) => AddCases(s, o);
    case Remove(_, _, _, _, _, _) => assert Step(s, o) == RemoveStep(s, o);
    case RemoveSystem(_, _, _, _, _, _) => assert Step(s, o) == RemoveSystemStep(s, o);
    case Sweep(_, _, _) => assert Step(s, o) == SweepStep(s, o);
  }
}
