/** The route manager itself: fields changed in place, loops that erase while they iterate, and
    whole-table restores on failure, each operation proved to be one step of `RouteModel`. */
module RouteManagement {
  import opened Text
  import opened RouteTable
  import opened RouteFile
  import opened RouteModel
  import opened RouteInvariants

  /** Who references a destination: nobody, keys with the same gateway, or keys with another one. */
  datatype Presence = Nobody | Same | Other

  class RouteManager {
    var mem: Table
    var disk: Option<string>
    var kernel: map<string, string>

    ghost var clock: nat
    ghost var alive: bool
    ghost var owned: set<string>
    ghost var legacy: set<string>
    ghost var credits: map<(string, string), Credit>

    /** The durable states the current operation has passed through. */
    ghost var trail: seq<Durable>
    /** The destinations the current operation has asked the kernel to delete. */
    ghost var attempts: seq<string>
    /** The destinations the current operation has successfully added to the kernel. */
    ghost var additions: seq<string>

    ghost function Dur(): Durable
      reads this`disk, this`kernel, this`owned, this`legacy, this`credits
    {
      var saved := if disk.Some? then Some(ParseFile(disk.value)) else None;
      Durable(saved, kernel, owned, legacy, credits)
    }

    ghost function Current(): World
      reads this
    {
      World(mem, Dur(), clock, alive)
    }

    constructor (disk: Option<string>, kernel: map<string, string>)
      ensures Current() == Installed(disk, kernel) && Inv(Current())
    {
      this.mem, this.disk, this.kernel := map[], disk, kernel;
      clock, alive, owned, legacy, credits := 0, false, {}, {}, map[];
      trail, attempts, additions := [], [], [];
      new;
      InstalledInv(disk, kernel);
    }

    // ----- the file and the kernel -----

    method SaveRoutes(ok: bool, ghost credited: map<(string, string), Credit>) returns (saved: bool)
      requires Savable(mem)
      modifies this`disk, this`credits, this`trail
      ensures saved == ok
      ensures ok ==> Dur() == Save(old(Dur()), mem).(credits := credited) && trail == old(trail) + [Dur()]
      ensures !ok ==> Dur() == old(Dur()) && trail == old(trail)
    {
      saved := ok;
      if ok {
        var text := Render(mem);
        disk := Some(text);
        credits := credited;
        TableRoundTrip(mem);
        trail := trail + [Dur()];
      }
    }

    /** `mine` tells a route the process installs from one it merely puts back. */
    method AddSystemRoute(ip: string, gateway: string, ok: bool, ghost mine: Durable) returns (done: bool)
      requires mine.disk == Dur().disk && mine.kernel == kernel[ip := gateway] && mine.credits == credits
      modifies this`kernel, this`owned, this`legacy, this`trail, this`additions
      ensures done == ok
      ensures ok ==> Dur() == mine && trail == old(trail) + [mine] && additions == old(additions) + [ip]
      ensures !ok ==> Dur() == old(Dur()) && trail == old(trail) && additions == old(additions)
    {
      done := ok;
      if ok {
        additions := additions + [ip];
        kernel, owned, legacy := kernel[ip := gateway], mine.owned, mine.legacy;
        trail := trail + [Dur()];
      }
    }

    method DeleteSystemRoute(ip: string, gateway: string, ok: bool) returns (done: bool)
      modifies this`kernel, this`owned, this`legacy, this`trail, this`attempts
      ensures done <==> ok && InKernel(old(Dur()), ip, gateway)
      ensures attempts == old(attempts) + [ip]
      ensures done ==> Dur() == KernelDelete(old(Dur()), {ip}) && trail == old(trail) + [Dur()]
      ensures !done ==> Dur() == old(Dur()) && trail == old(trail)
    {
      attempts := attempts + [ip];
      done := ok && ip in kernel && kernel[ip] == gateway;
      if done {
        kernel, owned, legacy := kernel - {ip}, owned - {ip}, legacy - {ip};
        trail := trail + [Dur()];
      }
    }

    // ----- add -----

    /** The first key, in key order, that references the destination. */
    method FindReference(ip: string) returns (found: bool, gateway: string)
      requires SingleGateway(mem)
      ensures found <==> Referenced(mem, ip)
      ensures found ==> forall g :: GatewayIs(mem, ip, g) <==> g == gateway
      ensures !found ==> forall g :: GatewayIs(mem, ip, g)
    {
      var keys := Sorted(mem.Keys);
      var n := 0;
      while n < |keys|
        invariant 0 <= n <= |keys|
        invariant forall m :: 0 <= m < n ==> Entry(mem, keys[m], ip).None?
      {
        assert keys[n] in mem.Keys;
        var group := mem[keys[n]];
        if ip in group {
          assert Entry(mem, keys[n], ip) == Some(group[ip]);
          return true, group[ip].gateway;
        }
        n := n + 1;
      }
      forall k ensures Entry(mem, k, ip).None? {
        if k in mem.Keys {
          var m :| 0 <= m < |keys| && keys[m] == k;
        }
      }
      return false, "";
    }

    /** Enters the candidate record and saves; a failed save restores the whole table. */
    method SaveCandidate(key: string, ip: string, meta: Meta, ok: bool,
                         ghost credited: map<(string, string), Credit>) returns (saved: bool)
      requires Savable(Put(mem, key, ip, meta))
      modifies this`mem, this`disk, this`credits, this`trail
      ensures saved == ok
      ensures ok ==> mem == Put(old(mem), key, ip, meta)
      ensures ok ==> Dur() == Save(old(Dur()), mem).(credits := credited) && trail == old(trail) + [Dur()]
      ensures !ok ==> mem == old(mem) && Dur() == old(Dur()) && trail == old(trail)
    {
      var previous := mem;
      mem := Put(mem, key, ip, meta);
      saved := SaveRoutes(ok, credited);
      if !saved {
        mem := previous;
      }
    }

    method Add(now: nat, key: string, ip: string, gateway: string, ttl: int,
               saveOk: bool, addOk: bool, rollbackOk: bool) returns (reply: Reply)
      requires Inv(Current())
      requires Legal(Current(), Op.Add(now, key, ip, gateway, ttl, saveOk, addOk, rollbackOk))
      modifies this
      ensures var o := Op.Add(now, key, ip, gateway, ttl, saveOk, addOk, rollbackOk);
        && (Current(), reply) == Step(old(Current()), o) && Inv(Current())
        && forall d :: d in trail ==> CrashPoint(old(Current()), o, d)
    {
      var o := Op.Add(now, key, ip, gateway, ttl, saveOk, addOk, rollbackOk);
      ghost var s := Current();
      StepKeepsInv(s, o);
      trail, clock := [], now;
      assert AddStep(s, o) == AddStep(s.(clock := now), o);
      reply := AddWithTtl(o);
      assert Step(s, o) == AddStep(s, o);
    }

    /** The expiration time, which must not overflow, and then the route. */
    method AddWithTtl(o: Op) returns (reply: Reply)
      requires o.Add? && o.now <= MAX_INT64 && o.ttl <= MAX_INT64 && trail == [] && clock == o.now
      requires ValidSavedKey(o.key) && ValidIpv4(o.ip) && ValidIpv4(o.gateway) && SingleGateway(mem) && Savable(mem)
      modifies this`mem, this`disk, this`kernel, this`owned, this`legacy, this`credits, this`trail, this`additions
      ensures (Current(), reply) == AddStep(old(Current()), o)
      ensures forall d :: d in trail ==>
        d == Dur() || (AddAccepted(old(Current()), o) && o.saveOk && d == Credited(old(Dur()), old(mem), o))
    {
      var expiresAt: nat := 0;
      if o.ttl > 0 {
        if o.ttl > MAX_INT64 - o.now {
          assert AddStep(Current(), o) == (Current(), TtlTooLarge) by {
            assert Current().(clock := o.now) == Current();
          }
          return TtlTooLarge;
        }
        expiresAt := o.now + o.ttl;
      }
      CandidateSavable(mem, o);
      reply := AddRoute(Meta(o.gateway, if o.ttl > 0 then o.ttl else 0, expiresAt, 0), o);
    }

    /** The two searches of `add`: the key's own entry first, then any key's reference. */
    method Classify(key: string, ip: string, gateway: string) returns (presence: Presence)
      requires SingleGateway(mem)
      ensures presence == if !Referenced(mem, ip) then Nobody else if GatewayIs(mem, ip, gateway) then Same else Other
    {
      if key in mem && ip in mem[key] && mem[key][ip].gateway == gateway {
        assert Entry(mem, key, ip) == Some(mem[key][ip]);
        return Same;
      }
      var referenced, present := FindReference(ip);
      return if !referenced then Nobody else if present == gateway then Same else Other;
    }

    /** The ttl is acceptable; what is left depends on who references the destination already. */
    method AddRoute(meta: Meta, o: Op) returns (reply: Reply)
      requires o.Add? && trail == [] && clock == o.now
      requires !TooLarge(o.now, o.ttl) && meta == NewMeta(o.now, o.gateway, o.ttl)
      requires SingleGateway(mem) && Savable(mem) && Savable(Candidate(mem, o))
      modifies this`mem, this`disk, this`kernel, this`owned, this`legacy, this`credits, this`trail, this`additions
      ensures (Current(), reply) == AddStep(old(Current()), o)
      ensures forall d :: d in trail ==>
        d == Dur() || (AddAccepted(old(Current()), o) && o.saveOk && d == Credited(old(Dur()), old(mem), o))
    {
      ghost var s := Current();
      var presence := Classify(o.key, o.ip, o.gateway);
      assert presence == Other ==> AddStep(s, o) == (s, GatewayConflict) by { assert s.(clock := o.now) == s; }
      match presence {
        case Nobody =>
          FreshStep(s, o);
          reply := AddFresh(meta, o);
        case Same =>
          SharedStep(s, o);
          reply := AddReference(meta, o);
        case Other => reply := GatewayConflict;
      }
    }

    /** What an accepted add of a destination that nobody references comes to. */
    static ghost function FreshOutcome(s: World, o: Op): (World, Reply)
      requires o.Add?
    {
      var saved := Credited(s.dur, s.mem, o);
      if !o.saveOk then (s, SaveFailed)
      else if o.addOk then (World(Candidate(s.mem, o), KernelAdd(saved, o.ip, o.gateway), s.clock, s.alive), Done)
      else (World(s.mem, if o.rollbackOk then Save(s.dur, s.mem) else saved, s.clock, s.alive), SystemFailed)
    }

    static ghost function SharedOutcome(s: World, o: Op): (World, Reply)
      requires o.Add?
    {
      if !o.saveOk then (s, SaveFailed)
      else (World(Candidate(s.mem, o), Credited(s.dur, s.mem, o), s.clock, s.alive), Done)
    }

    static lemma {:induction false} FreshStep(s: World, o: Op)
      requires o.Add? && !TooLarge(o.now, o.ttl) && !Referenced(s.mem, o.ip) && s.clock == o.now
      ensures AddStep(s, o) == FreshOutcome(s, o) && AddAccepted(s, o)
    {
      assert GatewayIs(s.mem, o.ip, o.gateway);
      assert s.(clock := o.now) == s;
    }

    static lemma {:induction false} SharedStep(s: World, o: Op)
      requires o.Add? && !TooLarge(o.now, o.ttl) && Referenced(s.mem, o.ip) && s.clock == o.now
      requires GatewayIs(s.mem, o.ip, o.gateway)
      ensures AddStep(s, o) == SharedOutcome(s, o)
    {
      assert s.(clock := o.now) == s;
    }

    /** The kernel has the route already: only memory and the file change. */
    method AddReference(meta: Meta, o: Op) returns (reply: Reply)
      requires o.Add? && meta == NewMeta(o.now, o.gateway, o.ttl) && Savable(Candidate(mem, o))
      requires trail == []
      modifies this`mem, this`disk, this`credits, this`trail
      ensures (Current(), reply) == SharedOutcome(old(Current()), o)
      ensures forall d :: d in trail ==> d == Dur()
    {
      var saved := SaveCandidate(o.key, o.ip, meta, o.saveOk, credits[(o.key, o.ip) := Credit(o.now, o.ttl)]);
      reply := if saved then Done else SaveFailed;
    }

    /** The file first, then the kernel; a refused kernel route takes the record back. */
    method AddFresh(meta: Meta, o: Op) returns (reply: Reply)
      requires o.Add? && meta == NewMeta(o.now, o.gateway, o.ttl)
      requires Savable(mem) && Savable(Candidate(mem, o)) && trail == []
      modifies this`mem, this`disk, this`kernel, this`owned, this`legacy, this`credits, this`trail, this`additions
      ensures (Current(), reply) == FreshOutcome(old(Current()), o)
      ensures forall e :: e in trail ==> e == Dur() || (o.saveOk && e == Credited(old(Dur()), old(mem), o))
    {
      ghost var s := Current();
      var previous := mem;
      var saved := SaveCandidate(o.key, o.ip, meta, o.saveOk, credits[(o.key, o.ip) := Credit(o.now, o.ttl)]);
      if !saved {
        return SaveFailed;
      }
      assert Dur() == Credited(s.dur, s.mem, o);
      reply := InstallOrRollBack(o, previous, s.dur);
    }

    /** The record is saved: install the route, or take the record back. */
    method InstallOrRollBack(o: Op, previous: Table, ghost d: Durable) returns (reply: Reply)
      requires o.Add? && Savable(previous) && kernel == d.kernel && owned == d.owned && legacy == d.legacy
      modifies this`mem, this`disk, this`kernel, this`owned, this`legacy, this`credits, this`trail, this`additions
      ensures (Current(), reply) ==
        if o.addOk then (World(old(mem), KernelAdd(old(Dur()), o.ip, o.gateway), clock, alive), Done)
        else (World(previous, if o.rollbackOk then Save(d, previous) else old(Dur()), clock, alive), SystemFailed)
      ensures forall e :: e in trail ==> e in old(trail) || e == Dur()
    {
      var added := AddSystemRoute(o.ip, o.gateway, o.addOk, KernelAdd(Dur(), o.ip, o.gateway));
      if !added {
        mem := previous;
        var rolledBack := SaveRoutes(o.rollbackOk, d.credits);
        assert rolledBack ==> Dur() == Save(d, previous);
        return SystemFailed;
      }
      return Done;
    }

    static lemma CandidateSavable(t: Table, o: Op)
      requires o.Add? && Savable(t) && !TooLarge(o.now, o.ttl) && o.now <= MAX_INT64
      requires ValidSavedKey(o.key) && ValidIpv4(o.ip) && ValidIpv4(o.gateway) && o.ttl <= MAX_INT64
      ensures Savable(Candidate(t, o))
    {
    }

    // ----- remove and remove_system -----

    /** The loop that drops every reference to a deleted route, erasing emptied groups. */
    method EraseReferences(ip: string, gateway: string)
      requires NoEmptyGroup(mem)
      modifies this`mem
      ensures mem == Unreference(old(mem), ip, gateway)
    {
      var keys := Sorted(mem.Keys);
      var n := 0;
      ghost var done: set<string> := {};
      AscendingDistinct(keys);
      while n < |keys|
        invariant 0 <= n <= |keys|
        invariant forall m :: 0 <= m < |keys| ==> (keys[m] in done <==> m < n)
        invariant NoEmptyGroup(mem)
        invariant forall k, i :: Entry(mem, k, i) == Unless(Entry(old(mem), k, i), k in done && i == ip, gateway)
      {
        assert keys[n] in old(mem).Keys;
        EraseFromGroup(old(mem), keys[n], ip, gateway);
        done := done + {keys[n]};
        n := n + 1;
      }
      forall k, i ensures Entry(mem, k, i) == Entry(Unreference(old(mem), ip, gateway), k, i) {
        if k in old(mem).Keys {
          var m :| 0 <= m < |keys| && keys[m] == k;
        }
      }
      TableEquality(mem, Unreference(old(mem), ip, gateway));
    }

    /** The body of that loop for one group, which earlier rounds have not touched. */
    method EraseFromGroup(ghost before: Table, k: string, ip: string, gateway: string)
      requires NoEmptyGroup(before) && NoEmptyGroup(mem)
      requires k in before && forall i :: Entry(mem, k, i) == Entry(before, k, i)
      modifies this`mem
      ensures NoEmptyGroup(mem)
      ensures forall k', i :: Entry(mem, k', i) == Unless(Entry(old(mem), k', i), k' == k && i == ip, gateway)
    {
      StillThere(before, mem, k);
      var left := mem[k];
      if ip in left && left[ip].gateway == gateway {
        left := left - {ip};
      }
      ghost var was := mem;
      mem := if left == map[] then mem - {k} else mem[k := left];
      forall k', i ensures Entry(mem, k', i) == Unless(Entry(was, k', i), k' == k && i == ip, gateway) {
        if k' == k {
          assert i in left <==> i in was[k] && !(i == ip && was[k][i].gateway == gateway);
        }
      }
    }

    static lemma StillThere(t: Table, u: Table, k: string)
      requires NoEmptyGroup(t) && k in t && forall i :: Entry(u, k, i) == Entry(t, k, i)
      ensures k in u
    {
      var i :| i in t[k];
      assert Entry(u, k, i) == Entry(t, k, i);
    }

    /** What `remove` and `remove_system` share once they know which route to delete. */
    method DeleteAndErase(ip: string, gateway: string, deleteOk: bool, saveOk: bool, readdOk: bool)
      returns (reply: Reply)
      requires Inv(Current())
      requires trail == []
      modifies this`mem, this`disk, this`kernel, this`owned, this`legacy, this`credits
      modifies this`trail, this`attempts, this`additions
      ensures (Current(), reply) ==
        if deleteOk && InKernel(old(Dur()), ip, gateway) then EraseStep(old(Current()), ip, gateway, saveOk, readdOk)
        else (old(Current()), SystemFailed)
      ensures forall d :: d in trail ==>
        InKernel(old(Dur()), ip, gateway)
        && (d == old(Dur()) || d == KernelDelete(old(Dur()), {ip}) || d == Dur())
    {
      ghost var s := Current();
      var deleted := DeleteSystemRoute(ip, gateway, deleteOk);
      if !deleted {
        return SystemFailed;
      }
      reply := EraseAndSave(ip, gateway, saveOk, readdOk, s);
    }

    /** The kernel route is gone: drop the references and save, or restore table and route. */
    method EraseAndSave(ip: string, gateway: string, saveOk: bool, readdOk: bool, ghost s: World) returns (reply: Reply)
      requires s.mem == mem && NoEmptyGroup(mem) && Savable(mem)
      requires InKernel(s.dur, ip, gateway) && Dur() == KernelDelete(s.dur, {ip})
      modifies this`mem, this`disk, this`kernel, this`owned, this`legacy, this`credits, this`trail, this`additions
      ensures reply == if saveOk then Done else SaveFailed
      ensures mem == if saveOk then Unreference(s.mem, ip, gateway) else s.mem
      ensures Dur() ==
        if saveOk then Save(KernelDelete(s.dur, {ip}), Unreference(s.mem, ip, gateway))
        else if readdOk then s.dur else KernelDelete(s.dur, {ip})
      ensures forall d :: d in trail ==> d in old(trail) || d == Dur()
    {
      var previous := mem;
      EraseReferences(ip, gateway);
      SavableAfterErase(s.mem, ip, gateway);
      var saved := SaveRoutes(saveOk, credits);
      if !saved {
        PutBack(previous, ip, gateway, readdOk, s.dur);
        return SaveFailed;
      }
      return Done;
    }

    /** The save failed: the whole table comes back, and the kernel route if it can be added. */
    method PutBack(previous: Table, ip: string, gateway: string, readdOk: bool, ghost d: Durable)
      requires InKernel(d, ip, gateway) && Dur() == KernelDelete(d, {ip})
      modifies this`mem, this`kernel, this`owned, this`legacy, this`trail, this`additions
      ensures mem == previous && Dur() == if readdOk then d else old(Dur())
      ensures forall e :: e in trail ==> e in old(trail) || e == Dur()
    {
      mem := previous;
      assert kernel[ip := gateway] == d.kernel;
      var readded := AddSystemRoute(ip, gateway, readdOk, d);
    }

    static lemma SavableAfterErase(t: Table, ip: string, gateway: string)
      requires Savable(t)
      ensures Savable(Unreference(t, ip, gateway))
    {
      var u := Unreference(t, ip, gateway);
      assert forall k, i :: Entry(u, k, i).Some? ==> Entry(u, k, i) == Entry(t, k, i);
    }

    method Remove(key: string, ip: string, gateway: string, deleteOk: bool, saveOk: bool, readdOk: bool)
      returns (reply: Reply)
      requires Inv(Current()) && Legal(Current(), Op.Remove(key, ip, gateway, deleteOk, saveOk, readdOk))
      modifies this
      ensures var o := Op.Remove(key, ip, gateway, deleteOk, saveOk, readdOk);
        && (Current(), reply) == Step(old(Current()), o) && Inv(Current())
        && forall d :: d in trail ==> CrashPoint(old(Current()), o, d)
    {
      ghost var o := Op.Remove(key, ip, gateway, deleteOk, saveOk, readdOk);
      StepKeepsInv(Current(), o);
      trail := [];
      if key !in mem {
        return KeyNotFound;
      }
      if ip !in mem[key] || mem[key][ip].gateway != gateway {
        return RouteNotFound;
      }
      reply := DeleteAndErase(ip, gateway, deleteOk, saveOk, readdOk);
    }

    method RemoveSystem(ip: string, gateway: string, listOk: bool, deleteOk: bool, saveOk: bool, readdOk: bool)
      returns (reply: Reply)
      requires Inv(Current()) && Legal(Current(), Op.RemoveSystem(ip, gateway, listOk, deleteOk, saveOk, readdOk))
      modifies this
      ensures var o := Op.RemoveSystem(ip, gateway, listOk, deleteOk, saveOk, readdOk);
        && (Current(), reply) == Step(old(Current()), o) && Inv(Current())
        && forall d :: d in trail ==> CrashPoint(old(Current()), o, d)
    {
      ghost var o := Op.RemoveSystem(ip, gateway, listOk, deleteOk, saveOk, readdOk);
      StepKeepsInv(Current(), o);
      trail := [];
      if !listOk {
        return ListFailed;
      }
      var found := false;
      var systemRoutes := kernel.Keys;
      while systemRoutes != {} && !found
        invariant systemRoutes <= kernel.Keys
        invariant found ==> InKernel(Dur(), ip, gateway)
        invariant !found && InKernel(Dur(), ip, gateway) ==> ip in systemRoutes
        decreases |systemRoutes|, !found
      {
        var listed :| listed in systemRoutes;
        if listed == ip && kernel[listed] == gateway {
          found := true;
        } else {
          systemRoutes := systemRoutes - {listed};
        }
      }
      if !found {
        return NotInSystem;
      }
      reply := DeleteAndErase(ip, gateway, deleteOk, saveOk, readdOk);
    }

    // ----- the expiration sweep -----

    /** The destinations whose last reference the sweep has visited. */
    static ghost predicate LastSeen(t: Table, i: string, seen: set<(string, string)>) {
      exists k :: IsLast(t, k, i) && (k, i) in seen
    }

    static ghost function Gone(s: World, o: Op, seen: set<(string, string)>): set<string>
      requires o.Sweep?
    {
      set i | i in Deleted(s.mem, s.dur, o.now, o.failing) && LastSeen(s.mem, i, seen)
    }

    /** Memory while the sweep has visited the references in `seen`. */
    static ghost predicate SweptMem(s: World, o: Op, seen: set<(string, string)>, mem: Table)
      requires o.Sweep?
    {
      forall k, i :: Entry(mem, k, i) ==
        if (k, i) in seen then SweptEntry(s.mem, o.now, Deleted(s.mem, s.dur, o.now, o.failing), k, i)
        else Entry(s.mem, k, i)
    }

    /** Kernel, file and the calls made while the sweep has visited the references in `seen`. */
    static ghost predicate SweptKernel(s: World, o: Op, seen: set<(string, string)>,
                                       dur: Durable, trail: seq<Durable>, attempts: seq<string>)
      requires o.Sweep?
    {
      && dur == KernelDelete(s.dur, Gone(s, o, seen))
      && (forall d :: d in trail ==> CrashPoint(s, o, d))
      && (forall i :: i in attempts <==> i in Attempted(s.mem, o.now) && LastSeen(s.mem, i, seen))
      && (forall a, b :: 0 <= a < b < |attempts| ==> attempts[a] != attempts[b])
    }

    /** All keys before `k` are done, none after it has begun. */
    static ghost predicate AtKey(t: Table, k: string, seen: set<(string, string)>) {
      forall k', i :: Entry(t, k', i).Some? ==>
        (Less(k', k) ==> (k', i) in seen) && (Less(k, k') ==> (k', i) !in seen)
    }

    /** The cross-key reference test of the loop decides exactly whether `k` must ask the kernel. */
    static lemma ReferencedElsewhere(s: World, o: Op, seen: set<(string, string)>, mem: Table, k: string, i: string)
      requires o.Sweep? && SweptMem(s, o, seen, mem) && AtKey(s.mem, k, seen)
      requires Entry(s.mem, k, i).Some? && Due(Entry(s.mem, k, i).value, o.now)
      ensures (exists k' :: k' != k && Entry(mem, k', i).Some?) <==> !(AllDue(s.mem, i, o.now) && IsLast(s.mem, k, i))
    {
      if AllDue(s.mem, i, o.now) && IsLast(s.mem, k, i) {
        forall k' | k' != k ensures Entry(mem, k', i).None? {
          if Entry(s.mem, k', i).Some? && IsLast(s.mem, k', i) {
            LessAsymmetric(k', k);
          }
        }
      } else if !AllDue(s.mem, i, o.now) {
        var k' :| Entry(s.mem, k', i).Some? && !Due(Entry(s.mem, k', i).value, o.now);
        assert Entry(mem, k', i).Some?;
      } else {
        var k' :| Entry(s.mem, k', i).Some? && k' != k && !Less(k', k);
        LessTotal(k', k);
        assert Entry(mem, k', i).Some?;
      }
    }

    method FindElsewhere(k: string, ip: string) returns (found: bool)
      ensures found <==> exists k' :: k' != k && Entry(mem, k', ip).Some?
    {
      var keys := Sorted(mem.Keys);
      var n := 0;
      while n < |keys|
        invariant 0 <= n <= |keys|
        invariant forall m :: 0 <= m < n ==> keys[m] == k || Entry(mem, keys[m], ip).None?
      {
        assert keys[n] in mem.Keys;
        if keys[n] != k && ip in mem[keys[n]] {
          assert Entry(mem, keys[n], ip).Some?;
          return true;
        }
        n := n + 1;
      }
      forall k' | k' != k ensures Entry(mem, k', ip).None? {
        if k' in mem.Keys {
          var m :| 0 <= m < |keys| && keys[m] == k';
        }
      }
      return false;
    }

    /** Nothing is asked of the kernel unless the last of all due references is reached. */
    static lemma NotLast(s: World, o: Op, seen: set<(string, string)>, k: string, i: string)
      requires o.Sweep? && Entry(s.mem, k, i).Some? && !(AllDue(s.mem, i, o.now) && IsLast(s.mem, k, i))
      ensures Gone(s, o, seen + {(k, i)}) == Gone(s, o, seen)
      ensures forall j :: j in Attempted(s.mem, o.now) ==>
        (LastSeen(s.mem, j, seen + {(k, i)}) <==> LastSeen(s.mem, j, seen))
    {
      forall j | j in Attempted(s.mem, o.now)
        ensures LastSeen(s.mem, j, seen + {(k, i)}) <==> LastSeen(s.mem, j, seen) {
      }
    }

    static lemma ReachedLast(s: World, o: Op, seen: set<(string, string)>, k: string, i: string)
      requires o.Sweep? && SingleGateway(s.mem) && (k, i) !in seen
      requires AllDue(s.mem, i, o.now) && IsLast(s.mem, k, i)
      ensures !LastSeen(s.mem, i, seen) && LastSeen(s.mem, i, seen + {(k, i)})
      ensures forall j :: j != i ==> (LastSeen(s.mem, j, seen + {(k, i)}) <==> LastSeen(s.mem, j, seen))
      ensures i in Deleted(s.mem, s.dur, o.now, o.failing) <==>
        i !in o.failing && InKernel(s.dur, i, Entry(s.mem, k, i).value.gateway)
    {
      if LastSeen(s.mem, i, seen) {
        var k' :| IsLast(s.mem, k', i) && (k', i) in seen;
        assert k' != k;
        LessAsymmetric(if Less(k, k') then k else k', if Less(k, k') then k' else k);
      }
    }

    /** The reference is the last one: the kernel is asked, whatever it answers. */
    method AskKernel(k: string, ip: string, o: Op, ghost s: World, ghost seen: set<(string, string)>)
      returns (deleted: bool)
      requires o.Sweep? && SingleGateway(s.mem) && SweptKernel(s, o, seen, Dur(), trail, attempts) && (k, ip) !in seen
      requires AllDue(s.mem, ip, o.now) && IsLast(s.mem, k, ip)
      requires Entry(mem, k, ip).Some? && Entry(mem, k, ip).value.gateway == Entry(s.mem, k, ip).value.gateway
      modifies this`kernel, this`owned, this`legacy, this`trail, this`attempts
      ensures SweptKernel(s, o, seen + {(k, ip)}, Dur(), trail, attempts)
      ensures deleted <==> ip in Deleted(s.mem, s.dur, o.now, o.failing)
    {
      ReachedLast(s, o, seen, k, ip);
      ghost var gone := Gone(s, o, seen);
      ghost var gone' := Gone(s, o, seen + {(k, ip)});
      deleted := DeleteSystemRoute(ip, mem[k][ip].gateway, ip !in o.failing);
      assert ip !in gone;
      assert gone' == if deleted then gone + {ip} else gone;
      assert KernelDelete(KernelDelete(s.dur, gone), {ip}) == KernelDelete(s.dur, gone + {ip});
      assert Dur() == KernelDelete(s.dur, gone');
    }

    /** No group but that of `k` is empty. */
    static ghost predicate OthersNonEmpty(t: Table, k: string) {
      forall k' :: k' in t && k' != k ==> t[k'] != map[]
    }

    /** One target of the inner loop that is due. */
    method ExpireTarget(k: string, ip: string, o: Op, ghost s: World, ghost seen: set<(string, string)>)
      returns (erased: bool)
      requires o.Sweep? && SingleGateway(s.mem) && AtKey(s.mem, k, seen)
      requires SweptMem(s, o, seen, mem) && SweptKernel(s, o, seen, Dur(), trail, attempts)
      requires Entry(s.mem, k, ip).Some? && (k, ip) !in seen && Due(Entry(s.mem, k, ip).value, o.now)
      requires OthersNonEmpty(mem, k)
      modifies this`mem, this`kernel, this`owned, this`legacy, this`trail, this`attempts
      ensures SweptMem(s, o, seen + {(k, ip)}, mem) && SweptKernel(s, o, seen + {(k, ip)}, Dur(), trail, attempts)
      ensures erased <==> Drops(s, o, k, ip)
      ensures k in mem && OthersNonEmpty(mem, k)
    {
      ghost var before := mem;
      assert Entry(mem, k, ip) == Entry(s.mem, k, ip);
      ReferencedElsewhere(s, o, seen, mem, k, ip);
      erased := TryToDrop(k, ip, o, s, seen);
      if erased {
        mem := mem[k := mem[k] - {ip}];
      }
      TargetSwept(s, o, seen, before, mem, k, ip);
    }

    /** A due target's entry is erased, or its attempt noted. */
    static lemma {:induction false} TargetSwept(s: World, o: Op, seen: set<(string, string)>,
                                                t: Table, u: Table, k: string, i: string)
      requires o.Sweep? && SweptMem(s, o, seen, t) && OthersNonEmpty(t, k)
      requires Entry(t, k, i) == Entry(s.mem, k, i) && Entry(t, k, i).Some? && Due(Entry(t, k, i).value, o.now)
      requires var noted := t[k][i := t[k][i].(lastAttempt := o.now)];
        u == t[k := if Drops(s, o, k, i) then noted - {i} else noted]
      ensures SweptMem(s, o, seen + {(k, i)}, u) && k in u && OthersNonEmpty(u, k)
    {
      SweptMemGrows(s, o, seen, t, u, k, i);
    }

    /** The attempt is noted first, then the other keys and perhaps the kernel are asked. */
    method TryToDrop(k: string, ip: string, o: Op, ghost s: World, ghost seen: set<(string, string)>)
      returns (erased: bool)
      requires o.Sweep? && SingleGateway(s.mem) && (k, ip) !in seen
      requires SweptKernel(s, o, seen, Dur(), trail, attempts)
      requires Entry(s.mem, k, ip).Some? && Due(Entry(s.mem, k, ip).value, o.now)
      requires Entry(mem, k, ip) == Entry(s.mem, k, ip)
      requires (exists k' :: k' != k && Entry(mem, k', ip).Some?) <==>
        !(AllDue(s.mem, ip, o.now) && IsLast(s.mem, k, ip))
      modifies this`mem, this`kernel, this`owned, this`legacy, this`trail, this`attempts
      ensures mem == old(mem)[k := old(mem)[k][ip := Entry(s.mem, k, ip).value.(lastAttempt := o.now)]]
      ensures SweptKernel(s, o, seen + {(k, ip)}, Dur(), trail, attempts)
      ensures erased <==> Drops(s, o, k, ip)
    {
      ghost var before := mem;
      var group := mem[k];
      mem := mem[k := group[ip := group[ip].(lastAttempt := o.now)]];
      erased := DropReference(k, ip, o, s, seen, before);
    }

    /** Whether the reference goes: at once if another key has the destination, else if the kernel
        lets its route go. */
    method DropReference(k: string, ip: string, o: Op, ghost s: World, ghost seen: set<(string, string)>,
                         ghost before: Table)
      returns (erased: bool)
      requires o.Sweep? && SingleGateway(s.mem) && (k, ip) !in seen
      requires SweptKernel(s, o, seen, Dur(), trail, attempts)
      requires Entry(s.mem, k, ip).Some? && Due(Entry(s.mem, k, ip).value, o.now)
      requires Entry(mem, k, ip).Some? && Entry(mem, k, ip).value.gateway == Entry(s.mem, k, ip).value.gateway
      requires forall k' :: k' != k ==> Entry(mem, k', ip) == Entry(before, k', ip)
      requires (exists k' :: k' != k && Entry(before, k', ip).Some?) <==>
        !(AllDue(s.mem, ip, o.now) && IsLast(s.mem, k, ip))
      modifies this`kernel, this`owned, this`legacy, this`trail, this`attempts
      ensures SweptKernel(s, o, seen + {(k, ip)}, Dur(), trail, attempts)
      ensures erased <==> Drops(s, o, k, ip)
    {
      var referencedElsewhere := FindElsewhere(k, ip);
      assert referencedElsewhere <==> exists k' :: k' != k && Entry(before, k', ip).Some?;
      if referencedElsewhere {
        NotLast(s, o, seen, k, ip);
        erased := true;
      } else {
        erased := AskKernel(k, ip, o, s, seen);
      }
    }

    static lemma SweptMemGrows(s: World, o: Op, seen: set<(string, string)>, t: Table, u: Table, k: string, i: string)
      requires o.Sweep? && SweptMem(s, o, seen, t)
      requires forall k', i' :: (k', i') != (k, i) ==> Entry(u, k', i') == Entry(t, k', i')
      requires Entry(u, k, i) == SweptEntry(s.mem, o.now, Deleted(s.mem, s.dur, o.now, o.failing), k, i)
      ensures SweptMem(s, o, seen + {(k, i)}, u)
    {
    }

    /** The sweep removes this reference. */
    static ghost predicate Drops(s: World, o: Op, k: string, i: string)
      requires o.Sweep?
    {
      && Entry(s.mem, k, i).Some?
      && SweptEntry(s.mem, o.now, Deleted(s.mem, s.dur, o.now, o.failing), k, i).None?
    }

    /** One round of the inner loop. */
    method VisitTarget(k: string, ip: string, o: Op, ghost s: World, ghost seen: set<(string, string)>)
      returns (erased: bool)
      requires o.Sweep? && SingleGateway(s.mem) && AtKey(s.mem, k, seen)
      requires SweptMem(s, o, seen, mem) && SweptKernel(s, o, seen, Dur(), trail, attempts)
      requires Entry(s.mem, k, ip).Some? && (k, ip) !in seen && OthersNonEmpty(mem, k)
      modifies this`mem, this`kernel, this`owned, this`legacy, this`trail, this`attempts
      ensures SweptMem(s, o, seen + {(k, ip)}, mem) && SweptKernel(s, o, seen + {(k, ip)}, Dur(), trail, attempts)
      ensures AtKey(s.mem, k, seen + {(k, ip)})
      ensures erased <==> Drops(s, o, k, ip)
      ensures k in mem && OthersNonEmpty(mem, k)
    {
      assert Entry(mem, k, ip) == Entry(s.mem, k, ip);
      assert !Less(k, k) by { if Less(k, k) { LessAsymmetric(k, k); } }
      if Due(mem[k][ip], o.now) {
        erased := ExpireTarget(k, ip, o, s, seen);
      } else {
        NotLast(s, o, seen, k, ip);
        SweptMemGrows(s, o, seen, mem, mem, k, ip);
        erased := false;
      }
    }

    /** The inner loop: the targets of one key. Any order inside a key gives the same result. */
    method SweepGroup(k: string, o: Op, ghost s: World, ghost seen0: set<(string, string)>)
      returns (changed: bool, ghost seen: set<(string, string)>)
      requires o.Sweep? && SingleGateway(s.mem) && NoEmptyGroup(s.mem) && k in s.mem
      requires AtKey(s.mem, k, seen0) && forall i :: (k, i) !in seen0
      requires SweptMem(s, o, seen0, mem) && SweptKernel(s, o, seen0, Dur(), trail, attempts) && NoEmptyGroup(mem)
      modifies this`mem, this`kernel, this`owned, this`legacy, this`trail, this`attempts
      ensures k in mem && OthersNonEmpty(mem, k)
      ensures SweptMem(s, o, seen, mem) && SweptKernel(s, o, seen, Dur(), trail, attempts)
      ensures forall k', i :: (k', i) in seen <==> (k', i) in seen0 || (k' == k && i in s.mem[k])
      ensures changed <==> exists i :: Drops(s, o, k, i)
    {
      StillThere(s.mem, mem, k);
      SameGroup(s.mem, mem, k);
      var todo := mem[k].Keys;
      changed, seen := false, seen0;
      while todo != {}
        invariant todo <= s.mem[k].Keys
        invariant k in mem && OthersNonEmpty(mem, k) && AtKey(s.mem, k, seen)
        invariant forall k', i :: (k', i) in seen <==> (k', i) in seen0 || (k' == k && i in s.mem[k].Keys - todo)
        invariant SweptMem(s, o, seen, mem) && SweptKernel(s, o, seen, Dur(), trail, attempts)
        invariant changed <==> exists i :: i !in todo && Drops(s, o, k, i)
        decreases |todo|
      {
        var ip :| ip in todo;
        var erased := VisitTarget(k, ip, o, s, seen);
        changed := changed || erased;
        seen, todo := seen + {(k, ip)}, todo - {ip};
      }
    }

    /** The outer loop's step: a group left empty is erased. */
    method DropIfEmpty(k: string, o: Op, ghost s: World, ghost seen: set<(string, string)>)
      requires o.Sweep? && k in mem && SweptMem(s, o, seen, mem) && OthersNonEmpty(mem, k)
      modifies this`mem
      ensures SweptMem(s, o, seen, mem) && NoEmptyGroup(mem)
    {
      ghost var was := mem;
      if mem[k] == map[] {
        mem := mem - {k};
      }
      assert forall k', i :: Entry(mem, k', i) == Entry(was, k', i);
    }

    static lemma SameGroup(t: Table, u: Table, k: string)
      requires k in t && k in u && forall i :: Entry(u, k, i) == Entry(t, k, i)
      ensures u[k].Keys == t[k].Keys
    {
      assert forall i :: i in t[k] <==> Entry(t, k, i).Some?;
      assert forall i :: i in u[k] <==> Entry(u, k, i).Some?;
    }

    /** One round of the outer loop: the group, and its erasure when it ends up empty. */
    method SweepKey(k: string, o: Op, ghost s: World, ghost seen0: set<(string, string)>)
      returns (changed: bool, ghost seen: set<(string, string)>)
      requires o.Sweep? && SingleGateway(s.mem) && NoEmptyGroup(s.mem) && k in s.mem
      requires AtKey(s.mem, k, seen0) && forall i :: (k, i) !in seen0
      requires SweptMem(s, o, seen0, mem) && SweptKernel(s, o, seen0, Dur(), trail, attempts) && NoEmptyGroup(mem)
      modifies this`mem, this`kernel, this`owned, this`legacy, this`trail, this`attempts
      ensures SweptMem(s, o, seen, mem) && SweptKernel(s, o, seen, Dur(), trail, attempts) && NoEmptyGroup(mem)
      ensures forall k', i :: (k', i) in seen <==> (k', i) in seen0 || (k' == k && i in s.mem[k])
      ensures changed <==> exists i :: Drops(s, o, k, i)
    {
      changed, seen := SweepGroup(k, o, s, seen0);
      DropIfEmpty(k, o, s, seen);
    }

    /** Exactly the references of the first `n` keys have been visited. */
    static ghost predicate KeysSeen(t: Table, keys: seq<string>, n: nat, seen: set<(string, string)>)
      requires n <= |keys|
    {
      && (forall k, i :: (k, i) in seen ==> k in keys[..n])
      && (forall k, i :: k in keys[..n] && Entry(t, k, i).Some? ==> (k, i) in seen)
    }

    static ghost predicate DroppedBefore(s: World, o: Op, keys: seq<string>, n: nat)
      requires o.Sweep? && n <= |keys|
    {
      exists k, i :: k in keys[..n] && Drops(s, o, k, i)
    }

    /** Both loops of the sweep. */
    method SweepTable(o: Op, ghost s: World) returns (changed: bool)
      requires o.Sweep? && SingleGateway(s.mem) && NoEmptyGroup(s.mem)
      requires s.mem == mem && s.dur == Dur() && trail == [] && attempts == []
      modifies this`mem, this`kernel, this`owned, this`legacy, this`trail, this`attempts
      ensures mem == SweptTable(s.mem, o.now, Deleted(s.mem, s.dur, o.now, o.failing))
      ensures changed <==> SweepChanged(s.mem, o.now, Deleted(s.mem, s.dur, o.now, o.failing))
      ensures Dur() == KernelDelete(s.dur, Deleted(s.mem, s.dur, o.now, o.failing))
      ensures forall d :: d in trail ==> CrashPoint(s, o, d)
      ensures forall i :: i in attempts <==> i in Attempted(s.mem, o.now)
      ensures forall a, b :: 0 <= a < b < |attempts| ==> attempts[a] != attempts[b]
    {
      var keys := Sorted(mem.Keys);
      ghost var seen;
      changed, seen := SweepKeys(keys, o, s);
      AllSeen(s, o, keys, seen);
      TableEquality(mem, SweptTable(s.mem, o.now, Deleted(s.mem, s.dur, o.now, o.failing)));
    }

    /** The outer loop. */
    method SweepKeys(keys: seq<string>, o: Op, ghost s: World)
      returns (changed: bool, ghost seen: set<(string, string)>)
      requires o.Sweep? && SingleGateway(s.mem) && NoEmptyGroup(s.mem) && keys == Sorted(s.mem.Keys)
      requires s.mem == mem && s.dur == Dur() && trail == [] && attempts == []
      modifies this`mem, this`kernel, this`owned, this`legacy, this`trail, this`attempts
      ensures KeysSeen(s.mem, keys, |keys|, seen)
      ensures SweptMem(s, o, seen, mem) && SweptKernel(s, o, seen, Dur(), trail, attempts) && NoEmptyGroup(mem)
      ensures changed <==> DroppedBefore(s, o, keys, |keys|)
    {
      changed, seen := false, {};
      SweepBegins(s, o);
      var n := 0;
      while n < |keys|
        invariant 0 <= n <= |keys| && KeysSeen(s.mem, keys, n, seen)
        invariant SweptMem(s, o, seen, mem) && SweptKernel(s, o, seen, Dur(), trail, attempts) && NoEmptyGroup(mem)
        invariant changed <==> DroppedBefore(s, o, keys, n)
      {
        var dropped;
        dropped, seen := SweepNextKey(keys, n, o, s, seen);
        changed := changed || dropped;
        n := n + 1;
      }
    }

    static lemma SweepBegins(s: World, o: Op)
      requires o.Sweep?
      ensures SweptMem(s, o, {}, s.mem) && SweptKernel(s, o, {}, s.dur, [], [])
    {
      assert Gone(s, o, {}) == {};
      assert s.dur == KernelDelete(s.dur, {});
    }

    /** One round of the outer loop at its position in key order. */
    method SweepNextKey(keys: seq<string>, n: nat, o: Op, ghost s: World, ghost before: set<(string, string)>)
      returns (dropped: bool, ghost seen: set<(string, string)>)
      requires o.Sweep? && SingleGateway(s.mem) && NoEmptyGroup(s.mem) && keys == Sorted(s.mem.Keys)
      requires n < |keys| && KeysSeen(s.mem, keys, n, before)
      requires SweptMem(s, o, before, mem) && SweptKernel(s, o, before, Dur(), trail, attempts) && NoEmptyGroup(mem)
      modifies this`mem, this`kernel, this`owned, this`legacy, this`trail, this`attempts
      ensures KeysSeen(s.mem, keys, n + 1, seen)
      ensures SweptMem(s, o, seen, mem) && SweptKernel(s, o, seen, Dur(), trail, attempts) && NoEmptyGroup(mem)
      ensures DroppedBefore(s, o, keys, n + 1) <==> DroppedBefore(s, o, keys, n) || dropped
    {
      Positions(s.mem, keys, n, before);
      dropped, seen := SweepKey(keys[n], o, s, before);
      NextPosition(s, o, keys, n, before, seen);
    }

    static lemma Positions(t: Table, keys: seq<string>, n: nat, seen: set<(string, string)>)
      requires n < |keys| && keys == Sorted(t.Keys) && KeysSeen(t, keys, n, seen)
      ensures keys[n] in t && AtKey(t, keys[n], seen) && forall i :: (keys[n], i) !in seen
    {
      assert keys[n] in t.Keys;
      AscendingDistinct(keys);
      forall k', i | Entry(t, k', i).Some?
        ensures (Less(k', keys[n]) ==> (k', i) in seen) && (Less(keys[n], k') ==> (k', i) !in seen) {
        assert k' in t.Keys;
        var m :| 0 <= m < |keys| && keys[m] == k';
        if Less(k', keys[n]) {
          LessAsymmetric(k', keys[n]);
          assert m < n && keys[..n][m] == k';
        }
        if Less(keys[n], k') {
          LessAsymmetric(keys[n], k');
          assert n < m;
        }
      }
    }

    static lemma NextPosition(s: World, o: Op, keys: seq<string>, n: nat,
                              before: set<(string, string)>, seen: set<(string, string)>)
      requires o.Sweep? && n < |keys| && keys[n] in s.mem && KeysSeen(s.mem, keys, n, before)
      requires forall k', i :: (k', i) in seen <==> (k', i) in before || (k' == keys[n] && i in s.mem[keys[n]])
      ensures KeysSeen(s.mem, keys, n + 1, seen)
      ensures DroppedBefore(s, o, keys, n + 1) <==> DroppedBefore(s, o, keys, n) || exists i :: Drops(s, o, keys[n], i)
    {
      assert keys[..n + 1] == keys[..n] + [keys[n]];
      assert forall k :: k in keys[..n + 1] <==> k in keys[..n] || k == keys[n];
      if exists i :: Drops(s, o, keys[n], i) {
        var i :| Drops(s, o, keys[n], i);
        assert keys[n] in keys[..n + 1] && Drops(s, o, keys[n], i);
      }
    }

    static lemma AllSeen(s: World, o: Op, keys: seq<string>, seen: set<(string, string)>)
      requires o.Sweep? && keys == Sorted(s.mem.Keys) && KeysSeen(s.mem, keys, |keys|, seen)
      ensures forall k, i :: Entry(s.mem, k, i).Some? ==> (k, i) in seen
      ensures forall i :: Referenced(s.mem, i) ==> LastSeen(s.mem, i, seen)
      ensures Gone(s, o, seen) == Deleted(s.mem, s.dur, o.now, o.failing)
      ensures DroppedBefore(s, o, keys, |keys|) <==>
        SweepChanged(s.mem, o.now, Deleted(s.mem, s.dur, o.now, o.failing))
    {
      assert keys[..|keys|] == keys;
      assert forall k, i :: Entry(s.mem, k, i).Some? ==> k in s.mem.Keys;
      forall i | Referenced(s.mem, i) ensures LastSeen(s.mem, i, seen) {
        var k := LastReference(s.mem, i);
      }
      if SweepChanged(s.mem, o.now, Deleted(s.mem, s.dur, o.now, o.failing)) {
        var k, i :| Entry(s.mem, k, i).Some?
          && SweptEntry(s.mem, o.now, Deleted(s.mem, s.dur, o.now, o.failing), k, i).None?;
        assert Drops(s, o, k, i);
      }
    }

    /** One pass of the expiration worker. */
    method Sweep(now: nat, failing: set<string>, saveOk: bool) returns (reply: Reply)
      requires Inv(Current()) && Legal(Current(), Op.Sweep(now, failing, saveOk))
      modifies this
      ensures var o := Op.Sweep(now, failing, saveOk);
        && (Current(), reply) == Step(old(Current()), o) && Inv(Current())
        && forall d :: d in trail ==> CrashPoint(old(Current()), o, d)
      ensures forall i :: i in attempts <==> i in Attempted(old(mem), now)
      ensures forall a, b :: 0 <= a < b < |attempts| ==> attempts[a] != attempts[b]
    {
      var o := Op.Sweep(now, failing, saveOk);
      ghost var s := Current();
      assert Step(s, o) == SweepStep(s, o);
      StepKeepsInv(s, o);
      SweptTableInv(s.mem, now, Deleted(s.mem, s.dur, now, failing), s.clock);
      trail, attempts, clock := [], [], now;
      SweepAndSave(o, s);
      assert Current() == Next(s, o);
      return Done;
    }

    method SweepAndSave(o: Op, ghost s: World)
      requires o.Sweep? && SingleGateway(s.mem) && NoEmptyGroup(s.mem)
      requires s.mem == mem && s.dur == Dur() && trail == [] && attempts == []
      requires Savable(SweptTable(s.mem, o.now, Deleted(s.mem, s.dur, o.now, o.failing)))
      modifies this`mem, this`disk, this`kernel, this`owned, this`legacy, this`credits, this`trail, this`attempts
      ensures mem == SweepStep(s, o).0.mem && Dur() == SweepStep(s, o).0.dur
      ensures forall d :: d in trail ==> CrashPoint(s, o, d) || d == Dur()
      ensures forall i :: i in attempts <==> i in Attempted(s.mem, o.now)
      ensures forall a, b :: 0 <= a < b < |attempts| ==> attempts[a] != attempts[b]
    {
      var changed := SweepTable(o, s);
      if changed {
        var saved := SaveRoutes(o.saveOk, credits);
      }
    }

    // ----- start -----

    /** `d` is the durable state after some prefix of the first `n` records. */
    static ghost predicate Restoring(saved: seq<SavedRoute>, o: Op, base: Durable, n: nat, d: Durable)
      requires o.Restart? && n <= |saved|
    {
      exists m :: 0 <= m <= n && d == WithActive(base, Restore(saved, m, o.now, o.failingAdds).active)
    }

    /** Each of the destinations was successfully added exactly once. */
    static ghost predicate AddedOnce(additions: seq<string>, ips: set<string>) {
      && (forall i :: i in additions <==> i in ips)
      && forall a, b :: 0 <= a < b < |additions| ==> additions[a] != additions[b]
    }

    static lemma AddedOnceMore(a: seq<string>, ips: set<string>, a': seq<string>, ips': set<string>, i: string)
      requires AddedOnce(a, ips)
      requires (a' == a && ips' == ips) || (i !in ips && a' == a + [i] && ips' == ips + {i})
      ensures AddedOnce(a', ips')
    {
    }

    /** The loop over the records read: one kernel add per destination not active yet. */
    method RestoreRoutes(saved: seq<SavedRoute>, o: Op, ghost base: Durable)
      returns (active: map<string, string>, failed: bool, expired: set<(string, string)>)
      requires o.Restart? && mem == map[] && Dur() == base && base.owned == {} && trail == [] && additions == []
      modifies this`mem, this`kernel, this`owned, this`legacy, this`trail, this`additions
      ensures Restored(mem, active, failed) == Restore(saved, |saved|, o.now, o.failingAdds)
      ensures expired == ExpiredPairs(saved, o.now)
      ensures AddedOnce(additions, active.Keys)
      ensures Dur() == WithActive(base, active)
      ensures forall d :: d in trail ==> Restoring(saved, o, base, |saved|, d)
    {
      active, failed, expired := map[], false, {};
      assert Dur() == WithActive(base, active);
      var n := 0;
      while n < |saved|
        invariant 0 <= n <= |saved|
        invariant Restored(mem, active, failed) == Restore(saved, n, o.now, o.failingAdds)
        invariant Dur() == WithActive(base, active)
        invariant expired == ExpiredPairs(saved[..n], o.now)
        invariant AddedOnce(additions, active.Keys)
        invariant forall d :: d in trail ==> Restoring(saved, o, base, n, d)
      {
        active, failed, expired := RestoreNext(saved, n, active, failed, expired, o, base);
        n := n + 1;
      }
      assert saved[..n] == saved;
    }

    /** One round of that loop, with its place in the run of the loop. */
    method RestoreNext(saved: seq<SavedRoute>, n: nat, active0: map<string, string>, failed0: bool,
                       expired0: set<(string, string)>, o: Op, ghost base: Durable)
      returns (active: map<string, string>, failed: bool, expired: set<(string, string)>)
      requires o.Restart? && n < |saved| && base.owned == {}
      requires Restored(mem, active0, failed0) == Restore(saved, n, o.now, o.failingAdds)
      requires Dur() == WithActive(base, active0) && AddedOnce(additions, active0.Keys)
      requires expired0 == ExpiredPairs(saved[..n], o.now)
      requires forall d :: d in trail ==> Restoring(saved, o, base, n, d)
      modifies this`mem, this`kernel, this`owned, this`legacy, this`trail, this`additions
      ensures Restored(mem, active, failed) == Restore(saved, n + 1, o.now, o.failingAdds)
      ensures Dur() == WithActive(base, active) && AddedOnce(additions, active.Keys)
      ensures expired == ExpiredPairs(saved[..n + 1], o.now)
      ensures forall d :: d in trail ==> Restoring(saved, o, base, n + 1, d)
    {
      expired := expired0;
      if saved[n].expiresAt > 0 && saved[n].expiresAt <= o.now {
        expired := expired + {(saved[n].ip, saved[n].gateway)};
      }
      ExpiredPairsSnoc(saved, n, o.now);
      ghost var added := additions;
      active, failed := RestoreRecord(saved[n], active0, failed0, o.now, n !in o.failingAdds, base);
      AddedOnceMore(added, active0.Keys, additions, active.Keys, saved[n].ip);
      assert forall d :: Restoring(saved, o, base, n, d) ==> Restoring(saved, o, base, n + 1, d);
    }

    static lemma ExpiredPairsSnoc(saved: seq<SavedRoute>, n: nat, now: nat)
      requires n < |saved|
      ensures ExpiredPairs(saved[..n + 1], now) == ExpiredPairs(saved[..n], now) +
        if Expired(saved[n].expiresAt, now) then {(saved[n].ip, saved[n].gateway)} else {}
    {
      assert saved[..n + 1] == saved[..n] + [saved[n]];
    }

    method RestoreRecord(r: SavedRoute, active0: map<string, string>, failed0: bool, now: nat, addOk: bool,
                         ghost base: Durable) returns (active: map<string, string>, failed: bool)
      requires Dur() == WithActive(base, active0) && base.owned == {}
      modifies this`mem, this`kernel, this`owned, this`legacy, this`trail, this`additions
      ensures Restored(mem, active, failed) == RestoreOne(Restored(old(mem), active0, failed0), r, now, addOk)
      ensures Dur() == WithActive(base, active)
      ensures forall d :: d in trail ==> d in old(trail) || d == Dur()
      ensures active.Keys == active0.Keys ==> additions == old(additions)
      ensures active.Keys != active0.Keys ==>
        r.ip !in active0 && active.Keys == active0.Keys + {r.ip} && additions == old(additions) + [r.ip]
    {
      active, failed := active0, failed0;
      if r.expiresAt > 0 && r.expiresAt <= now {
        return;
      }
      if r.ip in active && active[r.ip] != r.gateway {
        return;
      }
      if r.ip !in active {
        var added := InstallSaved(r, active0, addOk, base);
        if !added {
          failed := true;
          return;
        }
        active := active[r.ip := r.gateway];
      }
      assert active == active0[r.ip := r.gateway];
      mem := Put(mem, r.key, r.ip, SavedMeta(r));
    }

    /** The kernel add of the first record of a destination that is not active yet. */
    method InstallSaved(r: SavedRoute, active: map<string, string>, addOk: bool, ghost base: Durable)
      returns (added: bool)
      requires Dur() == WithActive(base, active) && base.owned == {} && r.ip !in active
      modifies this`kernel, this`owned, this`legacy, this`trail, this`additions
      ensures added == addOk
      ensures added ==> Dur() == WithActive(base, active[r.ip := r.gateway])
      ensures added ==> trail == old(trail) + [Dur()] && additions == old(additions) + [r.ip]
      ensures !added ==> Dur() == old(Dur()) && trail == old(trail) && additions == old(additions)
    {
      ghost var d := KernelAdd(Dur(), r.ip, r.gateway);
      assert d == WithActive(base, active[r.ip := r.gateway]) by {
        assert (base.kernel + active)[r.ip := r.gateway] == base.kernel + active[r.ip := r.gateway];
        assert active[r.ip := r.gateway].Keys == active.Keys + {r.ip};
        assert base.legacy - active.Keys - {r.ip} == base.legacy - (active.Keys + {r.ip});
      }
      added := AddSystemRoute(r.ip, r.gateway, addOk, d);
    }

    /** `d` is `before` with some of the routes in `most` deleted. */
    static ghost predicate SomeDeleted(before: Durable, most: set<string>, d: Durable) {
      exists gone: set<string> {:trigger KernelDelete(before, gone)} :: gone <= most && d == KernelDelete(before, gone)
    }

    /** The loop over the expired (IP, gateway) pairs; the order of a set of pairs does not matter. */
    method DeleteExpired(expired: set<(string, string)>, active: map<string, string>,
                         failing: set<(string, string)>)
      modifies this`kernel, this`owned, this`legacy, this`trail, this`attempts
      ensures Dur() == KernelDelete(old(Dur()), ExpiredDeleted(old(Dur()), active.Keys, expired, failing))
      ensures forall d :: d in trail ==>
        d in old(trail) || SomeDeleted(old(Dur()), ExpiredDeleted(old(Dur()), active.Keys, expired, failing), d)
    {
      ghost var d0 := Dur();
      ghost var most := ExpiredDeleted(d0, active.Keys, expired, failing);
      var todo := expired;
      ghost var gone: set<string> := {};
      assert Dur() == KernelDelete(d0, {});
      while todo != {}
        invariant todo <= expired
        invariant Dur() == KernelDelete(d0, gone)
        invariant gone == ExpiredDeleted(d0, active.Keys, expired - todo, failing)
        invariant forall d :: d in trail ==> d in old(trail) || SomeDeleted(d0, most, d)
        decreases |todo|
      {
        var pair :| pair in todo;
        todo := todo - {pair};
        OneMoreExpired(d0, active.Keys, expired, todo, failing, pair, gone);
        gone := DeletePair(pair, active, failing, d0, gone);
      }
      assert expired - todo == expired;
    }

    method DeletePair(pair: (string, string), active: map<string, string>, failing: set<(string, string)>,
                      ghost d0: Durable, ghost gone: set<string>) returns (ghost gone': set<string>)
      requires Dur() == KernelDelete(d0, gone)
      modifies this`kernel, this`owned, this`legacy, this`trail, this`attempts
      ensures gone' ==
        if pair.0 !in active && pair !in failing && InKernel(KernelDelete(d0, gone), pair.0, pair.1)
        then gone + {pair.0} else gone
      ensures Dur() == KernelDelete(d0, gone')
      ensures forall d :: d in trail ==> d in old(trail) || d == Dur()
    {
      gone' := gone;
      var (ip, gateway) := pair;
      if ip in active {
        return;
      }
      var deleted := DeleteSystemRoute(ip, gateway, pair !in failing);
      if deleted {
        assert KernelDelete(KernelDelete(d0, gone), {ip}) == KernelDelete(d0, gone + {ip});
        gone' := gone + {ip};
      }
    }

    static lemma OneMoreExpired(d: Durable, active: set<string>, expired: set<(string, string)>,
                                todo: set<(string, string)>, failing: set<(string, string)>,
                                pair: (string, string), gone: set<string>)
      requires pair in expired && pair !in todo
      requires gone == ExpiredDeleted(d, active, expired - todo - {pair}, failing)
      ensures var deletes := pair.0 !in active && pair !in failing && InKernel(KernelDelete(d, gone), pair.0, pair.1);
        ExpiredDeleted(d, active, expired - todo, failing) == if deletes then gone + {pair.0} else gone
      ensures ExpiredDeleted(d, active, expired - todo, failing) <= ExpiredDeleted(d, active, expired, failing)
    {
    }

    /** Process start: nothing in memory, the file read, routes restored, the file rewritten. */
    method Start(now: nat, readOk: bool, failingAdds: set<nat>, failingDeletes: set<(string, string)>, saveOk: bool)
      returns (reply: Reply)
      requires Inv(Current())
      requires Legal(Current(), Op.Restart(now, readOk, failingAdds, failingDeletes, saveOk))
      modifies this
      ensures var o := Op.Restart(now, readOk, failingAdds, failingDeletes, saveOk);
        && (Current(), reply) == Step(old(Current()), o) && Inv(Current())
        && forall d :: d in trail ==> CrashPoint(old(Current()), o, d)
      ensures AddedOnce(additions, owned)
    {
      var o := Op.Restart(now, readOk, failingAdds, failingDeletes, saveOk);
      ghost var s := Current();
      StepKeepsInv(s, o);
      Begin(now);
      reply := Load(o);
      assert Step(s, o) == RestartStep(s, o);
    }

    /** A new process: an empty table, and no kernel route of its own. */
    method Begin(now: nat)
      modifies this
      ensures mem == map[] && Dur() == Reborn(old(Dur())) && clock == now && alive && disk == old(disk)
      ensures trail == [] && additions == []
    {
      trail, additions, clock, alive := [], [], now, true;
      legacy, owned := legacy + owned, {};
      mem := map[];
    }

    /** `load_routes_locked` of a process that owns nothing yet. */
    method Load(o: Op) returns (reply: Reply)
      requires o.Restart? && mem == map[] && owned == {} && trail == [] && additions == []
      modifies this`mem, this`disk, this`kernel, this`owned, this`legacy, this`credits
      modifies this`trail, this`attempts, this`additions
      ensures (World(mem, Dur(), o.now, true), reply) == LoadFrom(old(Dur()), o)
      ensures forall e :: e in trail ==> e == Dur() || RestartCrashPoint(old(Dur()), o, e)
      ensures AddedOnce(additions, owned)
    {
      if disk.None? {
        return Done;
      }
      if !o.readOk {
        return ReadFailed;
      }
      var saved := ReadSaved(disk.value);
      reply := LoadRecords(saved, o);
    }

    method LoadRecords(saved: seq<SavedRoute>, o: Op) returns (reply: Reply)
      requires o.Restart? && o.readOk && mem == map[] && owned == {} && trail == [] && additions == []
      requires Dur().disk == Some(saved) && forall r :: r in saved ==> ValidRecord(r)
      modifies this`mem, this`disk, this`kernel, this`owned, this`legacy, this`credits
      modifies this`trail, this`attempts, this`additions
      ensures (World(mem, Dur(), o.now, true), reply) == LoadFrom(old(Dur()), o)
      ensures forall e :: e in trail ==> e == Dur() || RestartCrashPoint(old(Dur()), o, e)
      ensures AddedOnce(additions, owned)
    {
      ghost var base := Dur();
      var active, failed, expired := RestoreRoutes(saved, o, base);
      DeleteExpired(expired, active, o.failingDeletes);
      LoadMoments(saved, o, base, active, trail);
      RestoreKeepsInv(saved, |saved|, o.now, o.failingAdds);
      reply := FinishLoad(failed, o.saveOk);
    }

    /** The last part of the load: the file is rewritten unless a restore failed. */
    method FinishLoad(failed: bool, saveOk: bool) returns (reply: Reply)
      requires Savable(mem)
      modifies this`disk, this`credits, this`trail
      ensures (reply, Dur()) == (
        if failed then (RestoreFailed, old(Dur()))
        else if !saveOk then (SaveFailed, old(Dur()))
        else (Done, Save(old(Dur()), mem)))
      ensures forall e :: e in trail ==> e in old(trail) || e == Dur()
    {
      if failed {
        return RestoreFailed;
      }
      var done := SaveRoutes(saveOk, credits);
      return if done then Done else SaveFailed;
    }

    /** Every state of the restore and of the deletes behind it is a crash point of the load. */
    static lemma {:induction false} LoadMoments(saved: seq<SavedRoute>, o: Op, base: Durable,
                                                active: map<string, string>, trail: seq<Durable>)
      requires o.Restart? && o.readOk && base.disk == Some(saved)
      requires active == Restore(saved, |saved|, o.now, o.failingAdds).active
      requires var restored := WithActive(base, active);
        var most := ExpiredDeleted(restored, active.Keys, ExpiredPairs(saved, o.now), o.failingDeletes);
        forall e :: e in trail ==> Restoring(saved, o, base, |saved|, e) || SomeDeleted(restored, most, e)
      ensures forall e :: e in trail ==> RestartCrashPoint(base, o, e)
    {
      var restored := WithActive(base, active);
      var most := ExpiredDeleted(restored, active.Keys, ExpiredPairs(saved, o.now), o.failingDeletes);
      forall e | e in trail ensures RestartCrashPoint(base, o, e) {
        if SomeDeleted(restored, most, e) {
          var gone: set<string> :| gone <= most && e == KernelDelete(restored, gone);
        }
      }
    }

    // ----- list -----

    /** The snapshot `list` returns: the records in table order. */
    method List() returns (routes: seq<SavedRoute>)
      ensures routes == Records(mem)
    {
      var keys := Sorted(mem.Keys);
      routes := [];
      var n := 0;
      while n < |keys|
        invariant 0 <= n <= |keys|
        invariant routes == KeyedRecords(mem, keys[..n])
      {
        assert keys[n] in mem.Keys;
        KeyedRecordsSnoc(mem, keys, n);
        routes := routes + RecordsOfKey(mem, keys[n]);
        n := n + 1;
      }
      assert keys[..n] == keys;
    }
  }
}
