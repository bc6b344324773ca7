/** The route manager as a transition system over memory, the file and the kernel table.
    Every operation carries the outcomes of its own saves and kernel calls. */
module RouteModel {
  import opened Text
  import opened RouteTable
  import opened RouteFile

  const RETRY_SECONDS := 30

  /** The time and ttl of the latest `add` of a (key, IP) whose record was left on disk. */
  datatype Credit = Credit(time: nat, ttl: int)

  /** What survives a crash. `owned` are the kernel routes the running process installed and has
      not deleted, `legacy` those of earlier processes; `owned`, `legacy` and `credits` are
      bookkeeping the program itself does not hold. */
  datatype Durable = Durable(
    disk: Option<seq<SavedRoute>>,
    kernel: map<string, string>,
    owned: set<string>,
    legacy: set<string>,
    credits: map<(string, string), Credit>)

  datatype World = World(mem: Table, dur: Durable, clock: nat, alive: bool)

  datatype Reply =
    | Done
    | TtlTooLarge | GatewayConflict
    | KeyNotFound | RouteNotFound | ListFailed | NotInSystem
    | SystemFailed | SaveFailed
    | ReadFailed | RestoreFailed

  datatype Op =
    | Add(now: nat, key: string, ip: string, gateway: string, ttl: int,
          saveOk: bool, addOk: bool, rollbackOk: bool)
    | Remove(key: string, ip: string, gateway: string, deleteOk: bool, saveOk: bool, readdOk: bool)
    | RemoveSystem(ip: string, gateway: string, listOk: bool, deleteOk: bool, saveOk: bool, readdOk: bool)
    | Sweep(now: nat, failing: set<string>, saveOk: bool)
    | Restart(now: nat, readOk: bool, failingAdds: set<nat>, failingDeletes: set<(string, string)>, saveOk: bool)

  // ----- the durable copies -----

  function SavedRecords(d: Durable): seq<SavedRoute> {
    if d.disk.Some? then d.disk.value else []
  }

  function Save(d: Durable, t: Table): Durable {
    d.(disk := Some(Records(t)))
  }

  function KernelAdd(d: Durable, i: string, g: string): Durable {
    d.(kernel := d.kernel[i := g], owned := d.owned + {i}, legacy := d.legacy - {i})
  }

  function KernelDelete(d: Durable, ips: set<string>): Durable {
    d.(kernel := d.kernel - ips, owned := d.owned - ips, legacy := d.legacy - ips)
  }

  predicate InKernel(d: Durable, i: string, g: string) {
    i in d.kernel && d.kernel[i] == g
  }

  // ----- add -----

  predicate TooLarge(now: nat, ttl: int) {
    ttl > 0 && ttl > MAX_INT64 - now
  }

  function Expiration(now: nat, ttl: int): nat {
    if ttl > 0 then now + ttl else 0
  }

  function NewMeta(now: nat, gateway: string, ttl: int): Meta {
    Meta(gateway, if ttl > 0 then ttl else 0, Expiration(now, ttl), 0)
  }

  function Candidate(t: Table, a: Op): Table
    requires a.Add?
  {
    Put(t, a.key, a.ip, NewMeta(a.now, a.gateway, a.ttl))
  }

  /** The durable state right after the candidate table has been saved. */
  function Credited(d: Durable, t: Table, a: Op): Durable
    requires a.Add?
  {
    Save(d, Candidate(t, a)).(credits := d.credits[(a.key, a.ip) := Credit(a.now, a.ttl)])
  }

  ghost predicate AddAccepted(s: World, a: Op)
    requires a.Add?
  {
    !TooLarge(a.now, a.ttl) && GatewayIs(s.mem, a.ip, a.gateway)
  }

  ghost function AddStep(w: World, a: Op): (World, Reply)
    requires a.Add?
  {
    var s := w.(clock := a.now);
    if TooLarge(a.now, a.ttl) then (s, TtlTooLarge)
    else if !GatewayIs(s.mem, a.ip, a.gateway) then (s, GatewayConflict)
    else if !a.saveOk then (s, SaveFailed)
    else
      var mem := Candidate(s.mem, a);
      var dur := Credited(s.dur, s.mem, a);
      if Referenced(s.mem, a.ip) then (s.(mem := mem, dur := dur), Done)
      else if a.addOk then (s.(mem := mem, dur := KernelAdd(dur, a.ip, a.gateway)), Done)
      else if a.rollbackOk then (s.(dur := Save(s.dur, s.mem)), SystemFailed)
      else (s.(dur := dur), SystemFailed)
  }

  // ----- remove and remove_system -----

  /** The kernel route is gone; drop every reference, save, and put the route back if that fails. */
  ghost function EraseStep(s: World, i: string, g: string, saveOk: bool, readdOk: bool): (World, Reply) {
    var mem := Unreference(s.mem, i, g);
    var dur := KernelDelete(s.dur, {i});
    if saveOk then (s.(mem := mem, dur := Save(dur, mem)), Done)
    else if readdOk then (s, SaveFailed)
    else (s.(dur := dur), SaveFailed)
  }

  ghost function RemoveStep(s: World, r: Op): (World, Reply)
    requires r.Remove?
  {
    var e := Entry(s.mem, r.key, r.ip);
    if r.key !in s.mem then (s, KeyNotFound)
    else if e.None? || e.value.gateway != r.gateway then (s, RouteNotFound)
    else if !r.deleteOk || !InKernel(s.dur, r.ip, r.gateway) then (s, SystemFailed)
    else EraseStep(s, r.ip, r.gateway, r.saveOk, r.readdOk)
  }

  ghost function RemoveSystemStep(s: World, r: Op): (World, Reply)
    requires r.RemoveSystem?
  {
    if !r.listOk then (s, ListFailed)
    else if !InKernel(s.dur, r.ip, r.gateway) then (s, NotInSystem)
    else if !r.deleteOk then (s, SystemFailed)
    else EraseStep(s, r.ip, r.gateway, r.saveOk, r.readdOk)
  }

  // ----- the expiration sweep, as a rule per destination -----

  predicate Due(m: Meta, now: int) {
    m.expiresAt > 0 && m.expiresAt <= now
    && !(m.lastAttempt > 0 && now - m.lastAttempt < RETRY_SECONDS)
  }

  /** The destination is referenced, and every reference to it is due. */
  ghost predicate AllDue(t: Table, i: string, now: int) {
    && Referenced(t, i)
    && forall k :: Entry(t, k, i).Some? ==> Due(Entry(t, k, i).value, now)
  }

  /** `k` is the last key, in key order, that references `i`. */
  ghost predicate IsLast(t: Table, k: string, i: string) {
    && Entry(t, k, i).Some?
    && forall k' :: Entry(t, k', i).Some? ==> k' == k || Less(k', k)
  }

  /** The destinations one sweep asks the kernel to delete. */
  ghost function Attempted(t: Table, now: int): set<string> {
    set i | i in Ips(t) && AllDue(t, i, now)
  }

  /** The destinations one sweep gets deleted from the kernel. */
  ghost function Deleted(t: Table, d: Durable, now: int, failing: set<string>): set<string> {
    set i | i in Attempted(t, now) && i !in failing && i in d.kernel && GatewayIs(t, i, d.kernel[i])
  }

  ghost function SweptEntry(t: Table, now: nat, deleted: set<string>, k: string, i: string): Option<Meta> {
    var e := Entry(t, k, i);
    if e.None? || !Due(e.value, now) then e
    else if AllDue(t, i, now) && IsLast(t, k, i) && i !in deleted then Some(e.value.(lastAttempt := now))
    else None
  }

  ghost function SweptTable(t: Table, now: nat, deleted: set<string>): (r: Table)
    ensures NoEmptyGroup(r)
    ensures forall k, i :: Entry(r, k, i) == SweptEntry(t, now, deleted, k, i)
  {
    var left := map k | k in t ::
      map i | i in t[k] && SweptEntry(t, now, deleted, k, i).Some? :: SweptEntry(t, now, deleted, k, i).value;
    var r: Table := map k | k in left && left[k] != map[] :: left[k];
    forall k, i ensures Entry(r, k, i) == SweptEntry(t, now, deleted, k, i) {
      if k in left && i in left[k] {
        assert left[k] != map[];
      }
    }
    r
  }

  /** The sweep removed at least one entry. */
  ghost predicate SweepChanged(t: Table, now: nat, deleted: set<string>) {
    exists k, i :: Entry(t, k, i).Some? && SweptEntry(t, now, deleted, k, i).None?
  }

  ghost function SweepStep(w: World, o: Op): (World, Reply)
    requires o.Sweep?
  {
    var deleted := Deleted(w.mem, w.dur, o.now, o.failing);
    var mem := SweptTable(w.mem, o.now, deleted);
    var dur := KernelDelete(w.dur, deleted);
    var changed := SweepChanged(w.mem, o.now, deleted);
    (w.(mem := mem, clock := o.now, dur := if changed && o.saveOk then Save(dur, mem) else dur), Done)
  }

  // ----- load -----

  predicate Expired(expiresAt: nat, now: int) {
    expiresAt > 0 && expiresAt <= now
  }

  datatype Restored = Restored(mem: Table, active: map<string, string>, failed: bool)

  function SavedMeta(r: SavedRoute): Meta {
    Meta(r.gateway, r.ttl, r.expiresAt, 0)
  }

  function RestoreOne(x: Restored, r: SavedRoute, now: nat, addOk: bool): Restored {
    if Expired(r.expiresAt, now) then x
    else if r.ip in x.active && x.active[r.ip] != r.gateway then x
    else if r.ip !in x.active && !addOk then x.(failed := true)
    else Restored(Put(x.mem, r.key, r.ip, SavedMeta(r)), x.active[r.ip := r.gateway], x.failed)
  }

  /** The restore loop after its first `n` records. */
  function Restore(saved: seq<SavedRoute>, n: nat, now: nat, failing: set<nat>): Restored
    requires n <= |saved|
  {
    if n == 0 then Restored(map[], map[], false)
    else RestoreOne(Restore(saved, n - 1, now, failing), saved[n - 1], now, n - 1 !in failing)
  }

  function ExpiredPairs(saved: seq<SavedRoute>, now: nat): set<(string, string)> {
    set r | r in saved && Expired(r.expiresAt, now) :: (r.ip, r.gateway)
  }

  /** A new process: nothing is its own yet. */
  function Reborn(d: Durable): Durable {
    d.(owned := {}, legacy := d.legacy + d.owned)
  }

  function WithActive(d: Durable, active: map<string, string>): Durable {
    d.(kernel := d.kernel + active, owned := d.owned + active.Keys, legacy := d.legacy - active.Keys)
  }

  /** The kernel routes of expired records that the load deletes. */
  ghost function ExpiredDeleted(d: Durable, active: set<string>, expired: set<(string, string)>,
                                failing: set<(string, string)>): set<string> {
    set i | i in d.kernel && i !in active && (i, d.kernel[i]) in expired && (i, d.kernel[i]) !in failing
  }

  ghost function RestartStep(w: World, o: Op): (World, Reply)
    requires o.Restart?
  {
    LoadFrom(Reborn(w.dur), o)
  }

  /** The load of a process that owns nothing yet. */
  ghost function LoadFrom(base: Durable, o: Op): (World, Reply)
    requires o.Restart?
  {
    var empty := World(map[], base, o.now, true);
    if base.disk.None? then (empty, Done)
    else if !o.readOk then (empty, ReadFailed)
    else
      var saved := base.disk.value;
      var x := Restore(saved, |saved|, o.now, o.failingAdds);
      var restored := WithActive(base, x.active);
      var deleted := ExpiredDeleted(restored, x.active.Keys, ExpiredPairs(saved, o.now), o.failingDeletes);
      var dur := KernelDelete(restored, deleted);
      if x.failed then (World(x.mem, dur, o.now, true), RestoreFailed)
      else if !o.saveOk then (World(x.mem, dur, o.now, true), SaveFailed)
      else (World(x.mem, Save(dur, x.mem), o.now, true), Done)
  }

  // ----- steps, crash points and runs -----

  ghost function Step(s: World, o: Op): (World, Reply) {
    match o
    case Add(_, _, _, _, _, _, _, _) => AddStep(s, o)
    case Remove(_, _, _, _, _, _) => RemoveStep(s, o)
    case RemoveSystem(_, _, _, _, _, _) => RemoveSystemStep(s, o)
    case Sweep(_, _, _) => SweepStep(s, o)
    case Restart(_, _, _, _, _) => RestartStep(s, o)
  }

  ghost function Next(s: World, o: Op): World { Step(s, o).0 }

  /** The five ways an `add` can end. */
  lemma {:induction false} AddCases(s: World, a: Op)
    requires a.Add?
    ensures var (w, reply) := Step(s, a);
      var saved := AddAccepted(s, a) && a.saveOk;
      var t := Candidate(s.mem, a);
      var d := Credited(s.dur, s.mem, a);
      || (!saved && reply != Done && w == s.(clock := a.now))
      || (saved && Referenced(s.mem, a.ip) && reply == Done && w == s.(clock := a.now, mem := t, dur := d))
      || (saved && !Referenced(s.mem, a.ip) && a.addOk && reply == Done
          && w == s.(clock := a.now, mem := t, dur := KernelAdd(d, a.ip, a.gateway)))
      || (saved && !Referenced(s.mem, a.ip) && !a.addOk && a.rollbackOk && reply != Done
          && w == s.(clock := a.now, dur := Save(s.dur, s.mem)))
      || (saved && !Referenced(s.mem, a.ip) && !a.addOk && !a.rollbackOk && reply != Done
          && w == s.(clock := a.now, dur := d))
  {
    assert Step(s, a) == AddStep(s, a);
    if TooLarge(a.now, a.ttl) {
    } else if !GatewayIs(s.mem, a.ip, a.gateway) {
    } else if !a.saveOk {
    } else if Referenced(s.mem, a.ip) {
    } else if a.addOk {
    } else if a.rollbackOk {
    } else {
    }
  }

  /** What the operation's callers guarantee: the HTTP layer validates key and addresses, numbers
      fit 64 bits, the clock is positive and does not step back, and a dead process only restarts. */
  predicate Legal(s: World, o: Op) {
    match o
    case Add(now, key, ip, gateway, ttl, _, _, _) =>
      && s.alive && 0 < now && s.clock <= now <= MAX_INT64
      && ValidSavedKey(key) && ValidIpv4(ip) && ValidIpv4(gateway)
      && MIN_INT64 <= ttl <= MAX_INT64
    case Remove(_, _, _, _, _, _) => s.alive
    case RemoveSystem(_, _, _, _, _, _) => s.alive
    case Sweep(now, _, _) => s.alive && 0 < now && s.clock <= now <= MAX_INT64
    case Restart(now, _, _, _, _) => 0 < now && s.clock <= now <= MAX_INT64
  }

  /** `d` is a durable state that some moment of the operation leaves behind. */
  ghost predicate CrashPoint(s: World, o: Op, d: Durable) {
    || d == s.dur
    || d == Next(s, o).dur
    || match o
       case Add(_, _, _, _, _, saveOk, _, _) =>
         AddAccepted(s, o) && saveOk && d == Credited(s.dur, s.mem, o)
       case Remove(_, ip, gateway, _, _, _) =>
         InKernel(s.dur, ip, gateway) && Entry(s.mem, o.key, ip).Some?
         && Entry(s.mem, o.key, ip).value.gateway == gateway && d == KernelDelete(s.dur, {ip})
       case RemoveSystem(ip, gateway, _, _, _, _) =>
         InKernel(s.dur, ip, gateway) && d == KernelDelete(s.dur, {ip})
       case Sweep(now, failing, _) =>
         exists gone: set<string> {:trigger KernelDelete(s.dur, gone)} ::
           gone <= Deleted(s.mem, s.dur, now, failing) && d == KernelDelete(s.dur, gone)
       case Restart(_, _, _, _, _) => RestartCrashPoint(Reborn(s.dur), o, d)
  }

  ghost predicate RestartCrashPoint(base: Durable, o: Op, d: Durable)
    requires o.Restart?
  {
    || d == base
    || (base.disk.Some? && o.readOk &&
       var saved := base.disk.value;
       (|| (exists n :: 0 <= n <= |saved| && d == WithActive(base, Restore(saved, n, o.now, o.failingAdds).active))
        || (var x := Restore(saved, |saved|, o.now, o.failingAdds);
            var restored := WithActive(base, x.active);
            exists gone: set<string> {:trigger KernelDelete(restored, gone)} ::
              gone <= ExpiredDeleted(restored, x.active.Keys, ExpiredPairs(saved, o.now), o.failingDeletes)
              && d == KernelDelete(restored, gone))))
  }

  /** The world a crash leaves: no memory, and the kernel routes belong to a dead process. */
  function Crashed(s: World, o: Op, d: Durable): World {
    var now := match o
      case Add(now, _, _, _, _, _, _, _) => now
      case Sweep(now, _, _) => now
      case Restart(now, _, _, _, _) => now
      case _ => s.clock;
    World(map[], Reborn(d), now, false)
  }

  /** One event of a run: an operation that completes, or one cut short at a crash point. */
  datatype Event = Completed(op: Op) | Cut(op: Op, left: Durable)

  ghost predicate LegalEvent(s: World, e: Event) {
    Legal(s, e.op) && (e.Cut? ==> CrashPoint(s, e.op, e.left))
  }

  ghost function After(s: World, e: Event): World {
    match e
    case Completed(o) => Next(s, o)
    case Cut(o, d) => Crashed(s, o, d)
  }

  ghost predicate LegalRun(s: World, es: seq<Event>)
    decreases |es|
  {
    es != [] ==> LegalEvent(s, es[0]) && LegalRun(After(s, es[0]), es[1..])
  }

  ghost function Run(s: World, es: seq<Event>): World
    decreases |es|
  {
    if es == [] then s else Run(After(s, es[0]), es[1..])
  }
}
