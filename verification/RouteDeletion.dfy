/** Delete by key, by IP or by both: many removals over one snapshot of the table. */
module RouteDeletion {
  import opened Text
  import opened RouteTable
  import opened RouteFile
  import opened RouteModel
  import opened RouteInvariants
  import opened RouteLifetimes
  import opened RouteManagement
  import opened RouteService

  datatype RemoveOutcome = RemoveOutcome(deleteOk: bool, saveOk: bool, readdOk: bool)

  /** A request without a key, or without an IP, matches every one. */
  predicate Matches(r: SavedRoute, key: string, ip: string) {
    (key == "" || r.key == key) && (ip == "" || r.ip == ip)
  }

  /** The matching records of a snapshot, in its order. */
  function Matching(routes: seq<SavedRoute>, key: string, ip: string): (r: seq<SavedRoute>)
    ensures forall x :: x in r <==> x in routes && (key == "" || x.key == key) && (ip == "" || x.ip == ip)
  {
    if routes == [] then []
    else
      var last := routes[|routes| - 1];
      assert forall x :: x in routes <==> x in routes[..|routes| - 1] || x == last;
      Matching(routes[..|routes| - 1], key, ip) + if Matches(last, key, ip) then [last] else []
  }

  lemma MatchingSnoc(routes: seq<SavedRoute>, n: nat, key: string, ip: string)
    requires n < |routes|
    ensures Matching(routes[..n + 1], key, ip) ==
      Matching(routes[..n], key, ip) + if Matches(routes[n], key, ip) then [routes[n]] else []
  {
    assert routes[..n + 1][..n] == routes[..n] && routes[..n + 1][n] == routes[n];
  }

  /** The matches keep the order of the snapshot, and each is listed once if the snapshot lists it once. */
  lemma {:induction false} MatchingOrder(routes: seq<SavedRoute>, key: string, ip: string, a: nat, b: nat)
    requires a < b < |Matching(routes, key, ip)|
    ensures var found := Matching(routes, key, ip);
      exists m, n :: 0 <= m < n < |routes| && routes[m] == found[a] && routes[n] == found[b]
  {
    var k := |routes| - 1;
    var earlier := Matching(routes[..k], key, ip);
    var found := Matching(routes, key, ip);
    if b < |earlier| {
      MatchingOrder(routes[..k], key, ip, a, b);
      var m, n :| 0 <= m < n < k && routes[..k][m] == earlier[a] && routes[..k][n] == earlier[b];
      assert routes[m] == found[a] && routes[n] == found[b];
    } else {
      assert earlier[a] in earlier;
      var m :| 0 <= m < k && routes[..k][m] == earlier[a];
      assert routes[m] == found[a] && routes[k] == found[b];
    }
  }

  /** One line of the answer: what was asked of the manager, if anything, and what it replied. */
  datatype Verdict = AlreadyDeleted | Asked(reply: Reply)

  predicate Succeeded(v: Verdict) {
    v.AlreadyDeleted? || v.reply == Done
  }

  function PairOf(r: SavedRoute): (string, string) {
    (r.ip, r.gateway)
  }

  function WithoutPairs(e: Option<Meta>, i: string, deleted: set<(string, string)>): Option<Meta> {
    if e.Some? && (i, e.value.gateway) in deleted then None else e
  }

  function PairIps(pairs: set<(string, string)>): set<string> {
    set p | p in pairs :: p.0
  }

  /** The durable state after kernel routes at `gone` have gone and, if any pair was deleted, the
      file has been written from `t`. */
  function DeletedDurable(d: Durable, t: Table, wrote: bool, gone: set<string>): Durable {
    KernelDelete(d, gone).(disk := if wrote then Some(Records(t)) else d.disk)
  }

  /** The state, exactly, after some matches have been handled: the pairs in `deleted` are gone from
      memory, kernel and file, the kernel routes at `lost` were deleted and could not be put back,
      and nothing else has changed. */
  ghost predicate DeletedSoFar(s: World, w: World, deleted: set<(string, string)>, lost: set<string>) {
    LeftAfter(s, w, Account(deleted, lost, PairIps(deleted) + lost))
  }

  /** The pairs deleted, the destinations whose kernel route was lost, and all whose route has gone. */
  datatype Account = Account(deleted: set<(string, string)>, lost: set<string>, gone: set<string>)

  ghost predicate LeftAfter(s: World, w: World, a: Account) {
    && (forall k, i :: Entry(w.mem, k, i) == WithoutPairs(Entry(s.mem, k, i), i, a.deleted))
    && w.dur == DeletedDurable(s.dur, w.mem, a.deleted != {}, a.gone)
    && w.clock == s.clock && w.alive == s.alive
    && PairsOf(s.mem, a.deleted) && AllReferenced(w.mem, a.lost) && a.lost <= a.gone
  }

  /** Each pair is a destination with its one gateway. */
  ghost predicate PairsOf(t: Table, pairs: set<(string, string)>) {
    forall p :: p in pairs ==> Referenced(t, p.0) && GatewayIs(t, p.0, p.1)
  }

  ghost predicate AllReferenced(t: Table, ips: set<string>) {
    forall i :: i in ips ==> Referenced(t, i)
  }

  /** The account after one more answer. */
  function Enter(a: Account, r: SavedRoute, v: Verdict, readdOk: bool): Account {
    if v == Asked(Done) then Account(a.deleted + {PairOf(r)}, a.lost, a.gone + {r.ip})
    else if v.Asked? && Loses(v.reply, readdOk) then Account(a.deleted, a.lost + {r.ip}, a.gone + {r.ip})
    else a
  }

  /** The manager's reply about a reference it has, `present` telling whether the kernel has its route. */
  function ReplyTo(present: bool, o: RemoveOutcome): Reply {
    if !o.deleteOk || !present then SystemFailed else if o.saveOk then Done else SaveFailed
  }

  /** The deletion of its kernel route was undone neither by success nor by a re-add. */
  predicate Loses(reply: Reply, readdOk: bool) {
    reply == SaveFailed && !readdOk
  }

  /** Removing a reference that exists never answers not-found, and touches one destination only. */
  lemma {:induction false} RemoveEffect(s: World, r: Op)
    requires r.Remove?
    requires Entry(s.mem, r.key, r.ip).Some? && Entry(s.mem, r.key, r.ip).value.gateway == r.gateway
    ensures var (w, reply) := Step(s, r);
      && reply == ReplyTo(InKernel(s.dur, r.ip, r.gateway), RemoveOutcome(r.deleteOk, r.saveOk, r.readdOk))
      && w == World(
           if reply == Done then Unreference(s.mem, r.ip, r.gateway) else s.mem,
           if reply == Done then Save(KernelDelete(s.dur, {r.ip}), Unreference(s.mem, r.ip, r.gateway))
           else if Loses(reply, r.readdOk) then KernelDelete(s.dur, {r.ip}) else s.dur,
           s.clock, s.alive)
  {
    assert Step(s, r) == RemoveStep(s, r);
    if r.deleteOk && InKernel(s.dur, r.ip, r.gateway) {
      assert Step(s, r) == EraseStep(s, r.ip, r.gateway, r.saveOk, r.readdOk);
    } else {
      assert Step(s, r) == (s, SystemFailed);
    }
  }

  /** Dropping one more pair from the table. */
  lemma {:induction false} PairDropped(t: Table, u: Table, deleted: set<(string, string)>, i: string, g: string)
    requires forall k, j :: Entry(u, k, j) == WithoutPairs(Entry(t, k, j), j, deleted)
    ensures forall k, j :: Entry(Unreference(u, i, g), k, j) == WithoutPairs(Entry(t, k, j), j, deleted + {(i, g)})
  {
  }

  /** One more kernel route gone. */
  lemma {:induction false} OneMoreGone(d: Durable, e: Durable, gone: set<string>, i: string)
    requires e == KernelDelete(d, gone).(disk := e.disk)
    ensures KernelDelete(e, {i}) == KernelDelete(d, gone + {i}).(disk := e.disk)
  {
    assert d.kernel - gone - {i} == d.kernel - (gone + {i});
    assert d.owned - gone - {i} == d.owned - (gone + {i});
    assert d.legacy - gone - {i} == d.legacy - (gone + {i});
  }

  lemma {:induction false} PairIpsMore(pairs: set<(string, string)>, i: string, g: string)
    ensures PairIps(pairs + {(i, g)}) == PairIps(pairs) + {i}
  {
    assert (i, g) in pairs + {(i, g)};
    forall j | j in PairIps(pairs) ensures j in PairIps(pairs + {(i, g)}) {
      var p :| p in pairs && p.0 == j;
      assert p in pairs + {(i, g)};
    }
  }

  lemma {:induction false} NothingDeleted(s: World)
    ensures DeletedSoFar(s, s, {}, {})
  {
    assert PairIps({}) + {} == {};
    assert s.dur.kernel - {} == s.dur.kernel;
  }

  /** Handling one match that is still there: its pair goes, or its kernel route is lost, or nothing
      changes. */
  lemma {:induction false} DeleteStep(s: World, w: World, a: Account, r: SavedRoute, o: Op)
    requires SingleGateway(s.mem) && Inv(w) && LeftAfter(s, w, a) && IsRecord(s.mem, r) && PairOf(r) !in a.deleted
    requires o.Remove? && o.key == r.key && o.ip == r.ip && o.gateway == r.gateway
    ensures var (x, reply) := Step(w, o);
      && reply == ReplyTo(InKernel(w.dur, r.ip, r.gateway), RemoveOutcome(o.deleteOk, o.saveOk, o.readdOk))
      && LeftAfter(s, x, Enter(a, r, Asked(reply), o.readdOk))
  {
    assert Entry(w.mem, r.key, r.ip) == Entry(s.mem, r.key, r.ip);
    RemoveEffect(w, o);
    var (x, reply) := Step(w, o);
    if reply == Done {
      RecordGateway(s.mem, r);
      PresentGateway(w, r.ip, r.gateway);
      PairDeleted(s, w, x, a, r.ip, r.gateway);
    } else if Loses(reply, o.readdOk) {
      RouteLost(s, w, x, a, r.ip);
    }
  }

  lemma {:induction false} RecordGateway(t: Table, r: SavedRoute)
    requires SingleGateway(t) && IsRecord(t, r)
    ensures Referenced(t, r.ip) && GatewayIs(t, r.ip, r.gateway)
  {
    assert Entry(t, r.key, r.ip).Some?;
  }

  lemma {:induction false} PairDeleted(s: World, w: World, x: World, a: Account, i: string, g: string)
    requires LeftAfter(s, w, a) && GatewayIs(w.mem, i, g) && InKernel(w.dur, i, g)
    requires Referenced(s.mem, i) && GatewayIs(s.mem, i, g)
    requires x == World(Unreference(w.mem, i, g), Save(KernelDelete(w.dur, {i}), Unreference(w.mem, i, g)),
                        w.clock, w.alive)
    ensures LeftAfter(s, x, Account(a.deleted + {(i, g)}, a.lost, a.gone + {i}))
  {
    var more := a.deleted + {(i, g)};
    assert (i, g) in more && i !in a.lost;
    PairDropped(s.mem, w.mem, a.deleted, i, g);
    GoneAndWritten(s.dur, w.dur, w.mem, x.mem, a.deleted != {}, a.gone, i);
    OnePairMore(s.mem, a.deleted, i, g);
    OthersReferenced(w.mem, a.lost, i, g);
  }

  lemma {:induction false} OnePairMore(t: Table, pairs: set<(string, string)>, i: string, g: string)
    requires PairsOf(t, pairs) && Referenced(t, i) && GatewayIs(t, i, g)
    ensures PairsOf(t, pairs + {(i, g)})
  {
  }

  lemma {:induction false} OthersReferenced(t: Table, lost: set<string>, i: string, g: string)
    requires GatewayIs(t, i, g) && i !in lost && AllReferenced(t, lost)
    ensures AllReferenced(Unreference(t, i, g), lost)
  {
    EraseReferences(t, i, g);
  }

  lemma {:induction false} GoneAndWritten(d: Durable, e: Durable, t: Table, u: Table, wrote: bool,
                                          gone: set<string>, i: string)
    requires e == DeletedDurable(d, t, wrote, gone)
    ensures Save(KernelDelete(e, {i}), u) == DeletedDurable(d, u, true, gone + {i})
    ensures KernelDelete(e, {i}) == DeletedDurable(d, t, wrote, gone + {i})
  {
    OneMoreGone(d, e, gone, i);
  }

  lemma {:induction false} RouteLost(s: World, w: World, x: World, a: Account, i: string)
    requires LeftAfter(s, w, a) && Referenced(w.mem, i)
    requires x == World(w.mem, KernelDelete(w.dur, {i}), w.clock, w.alive)
    ensures LeftAfter(s, x, Account(a.deleted, a.lost + {i}, a.gone + {i}))
  {
    GoneAndWritten(s.dur, w.dur, w.mem, w.mem, a.deleted != {}, a.gone, i);
  }

  /** No record of a deleted pair is left in the file, whatever saves failed later. */
  lemma {:induction false} DeletedFromFile(s: World, w: World, deleted: set<(string, string)>, lost: set<string>)
    requires DeletedSoFar(s, w, deleted, lost)
    ensures forall r :: r in SavedRecords(w.dur) ==> PairOf(r) !in deleted
  {
    RecordsExact(w.mem);
    forall r | r in SavedRecords(w.dur) ensures PairOf(r) !in deleted {
      if deleted != {} {
        assert IsRecord(w.mem, r);
        assert Entry(w.mem, r.key, r.ip) == WithoutPairs(Entry(s.mem, r.key, r.ip), r.ip, deleted);
      }
    }
  }

  /** Owned and referenced stay the same exactly when no route was lost. */
  lemma {:induction false} DeletedCount(s: World, w: World, deleted: set<(string, string)>, lost: set<string>)
    requires DeletedSoFar(s, w, deleted, lost) && CountExact(s)
    ensures CountExact(w) <==> lost == {}
  {
    forall i ensures Referenced(w.mem, i) <==> Referenced(s.mem, i) && i !in PairIps(deleted) {
      if k :| Entry(w.mem, k, i).Some? {
        assert Entry(s.mem, k, i).Some?;
        if p :| p in deleted && p.0 == i {
          assert GatewayIs(s.mem, p.0, p.1) && p == (i, Entry(s.mem, k, i).value.gateway);
        }
      }
      if Referenced(s.mem, i) && i !in PairIps(deleted) {
        var k :| Entry(s.mem, k, i).Some?;
        assert (i, Entry(s.mem, k, i).value.gateway) !in deleted;
        assert Entry(w.mem, k, i).Some?;
      }
    }
    if lost != {} {
      var i :| i in lost;
      assert Referenced(w.mem, i) && i !in w.dur.owned;
    }
  }

  /** The destinations whose route was deleted, could not be recorded as deleted, and could not be put
      back: as the answers and the outcomes of the re-adds say. */
  ghost function Lost(asked: seq<SavedRoute>, verdicts: seq<Verdict>, outcomes: seq<RemoveOutcome>): set<string>
    requires |verdicts| <= |asked| && |verdicts| <= |outcomes|
  {
    set n | 0 <= n < |verdicts| && verdicts[n] == Asked(SaveFailed) && !outcomes[n].readdOk :: asked[n].ip
  }

  lemma {:induction false} LostMore(asked: seq<SavedRoute>, verdicts: seq<Verdict>, outcomes: seq<RemoveOutcome>,
                                    r: SavedRoute, v: Verdict)
    requires |verdicts| == |asked| < |outcomes|
    ensures Lost(asked + [r], verdicts + [v], outcomes) == Lost(asked, verdicts, outcomes) +
      if v == Asked(SaveFailed) && !outcomes[|verdicts|].readdOk then {r.ip} else {}
  {
    var n, all, more := |verdicts|, asked + [r], verdicts + [v];
    var lost := Lost(all, more, outcomes);
    assert more[n] == v && all[n] == r;
    assert forall m :: 0 <= m < n ==> more[m] == verdicts[m] && all[m] == asked[m];
    forall i | i in Lost(asked, verdicts, outcomes) ensures i in lost {
      var m :| 0 <= m < n && verdicts[m] == Asked(SaveFailed) && !outcomes[m].readdOk && asked[m].ip == i;
      assert more[m] == Asked(SaveFailed) && all[m].ip == i;
    }
  }

  /** What is answered about match `n`, from the state `d` before the request: that its pair has already
      been deleted, exactly when an earlier match of the pair succeeded; else what the manager replies,
      a route lost to an earlier failed re-add counting as absent. */
  ghost function AnswerTo(d: Durable, asked: seq<SavedRoute>, verdicts: seq<Verdict>, outcomes: seq<RemoveOutcome>,
                          n: nat): Verdict
    requires n < |asked| && n < |outcomes| && n <= |verdicts|
  {
    var r := asked[n];
    if exists m :: 0 <= m < n && PairOf(asked[m]) == PairOf(r) && Succeeded(verdicts[m]) then AlreadyDeleted
    else
      Asked(ReplyTo(InKernel(d, r.ip, r.gateway) && r.ip !in Lost(asked, verdicts[..n], outcomes), outcomes[n]))
  }

  ghost predicate AnsweredExactly(d: Durable, asked: seq<SavedRoute>, verdicts: seq<Verdict>,
                                  outcomes: seq<RemoveOutcome>)
    requires |verdicts| <= |asked| && |verdicts| <= |outcomes|
  {
    forall n :: 0 <= n < |verdicts| ==> verdicts[n] == AnswerTo(d, asked, verdicts, outcomes, n)
  }

  lemma {:induction false} SameAnswerTo(d: Durable, asked: seq<SavedRoute>, verdicts: seq<Verdict>,
                                        outcomes: seq<RemoveOutcome>, r: SavedRoute, v: Verdict, n: nat)
    requires n < |asked| == |verdicts| < |outcomes|
    ensures AnswerTo(d, asked + [r], verdicts + [v], outcomes, n) == AnswerTo(d, asked, verdicts, outcomes, n)
  {
    var all, more := asked + [r], verdicts + [v];
    assert forall m :: 0 <= m <= n ==> all[m] == asked[m];
    assert more[..n] == verdicts[..n];
    SameLost(asked, all, verdicts[..n], outcomes);
  }

  lemma {:induction false} SameLost(asked: seq<SavedRoute>, all: seq<SavedRoute>, verdicts: seq<Verdict>,
                                    outcomes: seq<RemoveOutcome>)
    requires |verdicts| <= |asked| && |verdicts| <= |outcomes| && asked <= all
    ensures Lost(asked, verdicts, outcomes) == Lost(all, verdicts, outcomes)
  {
    assert forall m :: 0 <= m < |verdicts| ==> all[m] == asked[m];
    assert forall i :: i in Lost(asked, verdicts, outcomes) ==> i in Lost(all, verdicts, outcomes);
    assert forall i :: i in Lost(all, verdicts, outcomes) ==> i in Lost(asked, verdicts, outcomes);
  }

  /** The next answer, said with the pairs deleted and the routes lost so far. */
  lemma {:induction false} NextAnswer(d: Durable, asked: seq<SavedRoute>, verdicts: seq<Verdict>,
                                      outcomes: seq<RemoveOutcome>, deleted: set<(string, string)>,
                                      r: SavedRoute, v: Verdict)
    requires Answered(asked, verdicts, deleted) && |verdicts| < |outcomes|
    ensures AnswerTo(d, asked + [r], verdicts + [v], outcomes, |asked|) ==
      if PairOf(r) in deleted then AlreadyDeleted
      else Asked(ReplyTo(InKernel(d, r.ip, r.gateway) && r.ip !in Lost(asked, verdicts, outcomes),
                         outcomes[|verdicts|]))
  {
    var n, all, more := |asked|, asked + [r], verdicts + [v];
    assert all[n] == r && forall m :: 0 <= m < n ==> all[m] == asked[m] && more[m] == verdicts[m];
    if PairOf(r) in deleted {
      var m :| 0 <= m < n && PairOf(asked[m]) == PairOf(r) && verdicts[m] == Asked(Done);
      assert PairOf(all[m]) == PairOf(all[n]) && Succeeded(more[m]);
    }
    assert more[..n] == verdicts;
    SameLost(asked, all, verdicts, outcomes);
  }

  lemma {:induction false} AnsweredExactlyMore(d: Durable, asked: seq<SavedRoute>, verdicts: seq<Verdict>,
                                               outcomes: seq<RemoveOutcome>, deleted: set<(string, string)>,
                                               r: SavedRoute, v: Verdict)
    requires Answered(asked, verdicts, deleted) && |verdicts| < |outcomes|
    requires AnsweredExactly(d, asked, verdicts, outcomes)
    requires v == if PairOf(r) in deleted then AlreadyDeleted
      else Asked(ReplyTo(InKernel(d, r.ip, r.gateway) && r.ip !in Lost(asked, verdicts, outcomes),
                         outcomes[|verdicts|]))
    ensures AnsweredExactly(d, asked + [r], verdicts + [v], outcomes)
  {
    var more := verdicts + [v];
    forall n | 0 <= n < |more| ensures more[n] == AnswerTo(d, asked + [r], more, outcomes, n) {
      if n < |verdicts| {
        SameAnswerTo(d, asked, verdicts, outcomes, r, v, n);
      } else {
        NextAnswer(d, asked, verdicts, outcomes, deleted, r, v);
      }
    }
  }

  /** A matching route is still in the kernel exactly when it was there and has not been lost. */
  lemma {:induction false} StillPresent(s: World, w: World, a: Account, r: SavedRoute)
    requires LeftAfter(s, w, a) && IsRecord(s.mem, r) && a.gone == PairIps(a.deleted) + a.lost
    ensures PairOf(r) !in a.deleted ==>
      (InKernel(w.dur, r.ip, r.gateway) <==> InKernel(s.dur, r.ip, r.gateway) && r.ip !in a.lost)
  {
    assert Entry(s.mem, r.key, r.ip).Some?;
    forall p | p in a.deleted ensures p.0 == r.ip ==> p == PairOf(r) {
      assert GatewayIs(s.mem, p.0, p.1);
    }
  }

  /** With every matching route in the kernel, and every delete and save working, all are deleted. */
  lemma {:induction false} AllSucceed(d: Durable, asked: seq<SavedRoute>, verdicts: seq<Verdict>,
                                      outcomes: seq<RemoveOutcome>)
    requires |asked| == |verdicts| <= |outcomes| && AnsweredExactly(d, asked, verdicts, outcomes)
    requires AllPresent(d, asked) && AllWork(outcomes, |asked|)
    ensures forall n :: 0 <= n < |verdicts| ==> Succeeded(verdicts[n])
  {
    forall n | 0 <= n < |verdicts| ensures verdicts[n] != Asked(SaveFailed) {
      assert verdicts[n] == AnswerTo(d, asked, verdicts, outcomes, n);
    }
    forall n | 0 <= n < |verdicts| ensures Succeeded(verdicts[n]) {
      assert verdicts[n] == AnswerTo(d, asked, verdicts, outcomes, n);
      assert asked[n] in asked;
    }
  }

  predicate AllPresent(d: Durable, asked: seq<SavedRoute>) {
    forall r :: r in asked ==> InKernel(d, r.ip, r.gateway)
  }

  predicate AllWork(outcomes: seq<RemoveOutcome>, count: nat)
    requires count <= |outcomes|
  {
    forall n :: 0 <= n < count ==> outcomes[n].deleteOk && outcomes[n].saveOk
  }

  /** The account fits the answers. */
  ghost predicate Fits(d: Durable, asked: seq<SavedRoute>, verdicts: seq<Verdict>, outcomes: seq<RemoveOutcome>,
                       a: Account) {
    && |verdicts| <= |outcomes| && Answered(asked, verdicts, a.deleted)
    && AnsweredExactly(d, asked, verdicts, outcomes)
    && a.lost == Lost(asked, verdicts, outcomes) && a.gone == PairIps(a.deleted) + a.lost
  }

  lemma {:induction false} FitsMore(d: Durable, asked: seq<SavedRoute>, verdicts: seq<Verdict>,
                                    outcomes: seq<RemoveOutcome>, a: Account, r: SavedRoute, v: Verdict)
    requires Fits(d, asked, verdicts, outcomes, a) && |verdicts| < |outcomes|
    requires v == if PairOf(r) in a.deleted then AlreadyDeleted
      else Asked(ReplyTo(InKernel(d, r.ip, r.gateway) && r.ip !in a.lost, outcomes[|verdicts|]))
    ensures Fits(d, asked + [r], verdicts + [v], outcomes, Enter(a, r, v, outcomes[|verdicts|].readdOk))
  {
    AnsweredExactlyMore(d, asked, verdicts, outcomes, a.deleted, r, v);
    var b := Enter(a, r, v, outcomes[|verdicts|].readdOk);
    AnsweredMore(asked, verdicts, a.deleted, r, v);
    assert b.deleted == if Succeeded(v) then a.deleted + {PairOf(r)} else a.deleted;
    LostMore(asked, verdicts, outcomes, r, v);
    assert b.lost == Lost(asked + [r], verdicts + [v], outcomes);
    if v == Asked(Done) {
      PairIpsMore(a.deleted, r.ip, r.gateway);
    }
    assert b.gone == PairIps(b.deleted) + b.lost;
  }

  /** The state and the answers after the matches `asked` have been handled. */
  ghost predicate Handled(s: World, w: World, asked: seq<SavedRoute>, verdicts: seq<Verdict>,
                          outcomes: seq<RemoveOutcome>, deleted: set<(string, string)>) {
    && |verdicts| <= |outcomes| && Answered(asked, verdicts, deleted)
    && AnsweredExactly(s.dur, asked, verdicts, outcomes)
    && DeletedSoFar(s, w, deleted, Lost(asked, verdicts, outcomes))
  }

  /** The loop over the snapshot, run without interleaving. An entry reported deleted is gone at
      the end with every other reference to its pair, under any key, its records in the file and its
      kernel route; each pair is successfully deleted once; the manager never answers not-found. A
      route is lost exactly where a save and then the re-add failed; nothing else changes. The n-th
      match meets the n-th outcome. */
  method DeleteMatching(rm: RouteManager, routes: seq<SavedRoute>, key: string, ip: string,
                        outcomes: seq<RemoveOutcome>)
    returns (verdicts: seq<Verdict>, matched: nat, succeeded: nat, ghost deleted: set<(string, string)>)
    requires Inv(rm.Current()) && rm.alive && |routes| <= |outcomes|
    requires forall r :: r in routes ==> IsRecord(rm.mem, r)
    modifies rm
    ensures Inv(rm.Current())
    ensures var asked := Matching(routes, key, ip);
      && Handled(old(rm.Current()), rm.Current(), asked, verdicts, outcomes, deleted)
      && |verdicts| == |asked| == matched
      && succeeded == CountSucceeded(verdicts)
  {
    ghost var s := rm.Current();
    verdicts, matched, succeeded := [], 0, 0;
    var deletedSystemRoutes: set<(string, string)> := {};
    ghost var asked, account := [], Account({}, {}, {});
    var n := 0;
    NothingHandled(s, outcomes);
    while n < |routes|
      invariant 0 <= n <= |routes|
      invariant Inv(rm.Current()) && rm.alive && LeftAfter(s, rm.Current(), account)
      invariant asked == Matching(routes[..n], key, ip) && Fits(s.dur, asked, verdicts, outcomes, account)
      invariant deletedSystemRoutes == account.deleted
      invariant matched == |verdicts| <= n && succeeded == CountSucceeded(verdicts)
    {
      MatchingSnoc(routes, n, key, ip);
      assert IsRecord(s.mem, routes[n]);
      verdicts, matched, succeeded, deletedSystemRoutes, account, asked :=
        DeleteNext(rm, routes[n], key, ip, outcomes, verdicts, matched, succeeded, deletedSystemRoutes,
                   account, asked, s);
      n := n + 1;
    }
    assert routes[..n] == routes;
    deleted := deletedSystemRoutes;
    Concluded(s, rm.Current(), asked, verdicts, outcomes, account);
  }

  lemma {:induction false} Concluded(s: World, w: World, asked: seq<SavedRoute>, verdicts: seq<Verdict>,
                                     outcomes: seq<RemoveOutcome>, a: Account)
    requires LeftAfter(s, w, a) && Fits(s.dur, asked, verdicts, outcomes, a)
    ensures Handled(s, w, asked, verdicts, outcomes, a.deleted)
  {
    assert a == Account(a.deleted, a.lost, a.gone);
  }

  lemma {:induction false} NothingHandled(s: World, outcomes: seq<RemoveOutcome>)
    ensures LeftAfter(s, s, Account({}, {}, {})) && Fits(s.dur, [], [], outcomes, Account({}, {}, {}))
  {
    NothingDeleted(s);
    assert PairIps({}) + {} == {} && Lost([], [], outcomes) == {};
  }

  /** One round of that loop: a record that does not match is passed over. */
  method DeleteNext(rm: RouteManager, r: SavedRoute, key: string, ip: string, outcomes: seq<RemoveOutcome>,
                    verdicts0: seq<Verdict>, matched0: nat, succeeded0: nat, deleted0: set<(string, string)>,
                    ghost account0: Account, ghost asked0: seq<SavedRoute>, ghost s: World)
    returns (verdicts: seq<Verdict>, matched: nat, succeeded: nat, deleted: set<(string, string)>,
             ghost account: Account, ghost asked: seq<SavedRoute>)
    requires IsRecord(s.mem, r) && SingleGateway(s.mem)
    requires Inv(rm.Current()) && rm.alive && LeftAfter(s, rm.Current(), account0) && deleted0 == account0.deleted
    requires Fits(s.dur, asked0, verdicts0, outcomes, account0) && |verdicts0| < |outcomes|
    requires matched0 == |verdicts0| && succeeded0 == CountSucceeded(verdicts0)
    modifies rm
    ensures Inv(rm.Current()) && rm.alive && LeftAfter(s, rm.Current(), account) && deleted == account.deleted
    ensures asked == asked0 + if Matches(r, key, ip) then [r] else []
    ensures Fits(s.dur, asked, verdicts, outcomes, account) && |verdicts| <= |verdicts0| + 1
    ensures matched == |verdicts| && succeeded == CountSucceeded(verdicts)
  {
    verdicts, matched, succeeded, deleted := verdicts0, matched0, succeeded0, deleted0;
    account, asked := account0, asked0;
    if !Matches(r, key, ip) {
      assert asked0 + [] == asked0;
      return;
    }
    var verdict;
    StillPresent(s, rm.Current(), account, r);
    verdict, deleted, account := DeleteOne(rm, r, outcomes[|verdicts|], deleted, account, s);
    FitsMore(s.dur, asked, verdicts, outcomes, account0, r, verdict);
    asked := asked + [r];
    CountMore(verdicts, verdict);
    verdicts, matched := verdicts + [verdict], matched + 1;
    if Succeeded(verdict) {
      succeeded := succeeded + 1;
    }
  }

  lemma CountMore(verdicts: seq<Verdict>, v: Verdict)
    ensures CountSucceeded(verdicts + [v]) == CountSucceeded(verdicts) + if Succeeded(v) then 1 else 0
  {
    assert (verdicts + [v])[..|verdicts|] == verdicts;
  }

  function CountSucceeded(verdicts: seq<Verdict>): nat {
    if verdicts == [] then 0
    else CountSucceeded(verdicts[..|verdicts| - 1]) + if Succeeded(verdicts[|verdicts| - 1]) then 1 else 0
  }

  lemma {:induction false} SucceededExtremes(verdicts: seq<Verdict>)
    ensures CountSucceeded(verdicts) <= |verdicts|
    ensures CountSucceeded(verdicts) == |verdicts| <==> forall n :: 0 <= n < |verdicts| ==> Succeeded(verdicts[n])
    ensures CountSucceeded(verdicts) == 0 <==> forall n :: 0 <= n < |verdicts| ==> !Succeeded(verdicts[n])
  {
    if verdicts != [] {
      var n := |verdicts| - 1;
      SucceededExtremes(verdicts[..n]);
      assert forall m :: 0 <= m < n ==> verdicts[..n][m] == verdicts[m];
    }
  }

  /** The answers fit the pairs deleted: exactly the pairs of successful entries, each asked of the
      manager with success once, never answered not-found. */
  ghost predicate Answered(asked: seq<SavedRoute>, verdicts: seq<Verdict>, deleted: set<(string, string)>) {
    && |asked| == |verdicts|
    && (forall n :: 0 <= n < |asked| && Succeeded(verdicts[n]) ==> PairOf(asked[n]) in deleted)
    && (forall p :: p in deleted ==>
          exists n :: 0 <= n < |asked| && PairOf(asked[n]) == p && verdicts[n] == Asked(Done))
    && (forall m, n :: 0 <= m < n < |asked| && verdicts[m] == Asked(Done) && verdicts[n] == Asked(Done) ==>
          PairOf(asked[m]) != PairOf(asked[n]))
    && (forall n :: 0 <= n < |asked| ==> verdicts[n] !in {Asked(KeyNotFound), Asked(RouteNotFound)})
  }

  lemma {:induction false} AnsweredMore(asked: seq<SavedRoute>, verdicts: seq<Verdict>,
                                        deleted: set<(string, string)>, r: SavedRoute, v: Verdict)
    requires Answered(asked, verdicts, deleted)
    requires v.AlreadyDeleted? <==> PairOf(r) in deleted
    requires v !in {Asked(KeyNotFound), Asked(RouteNotFound)}
    ensures Answered(asked + [r], verdicts + [v], if Succeeded(v) then deleted + {PairOf(r)} else deleted)
  {
    var more := verdicts + [v];
    var all := asked + [r];
    forall p | p in deleted
      ensures exists n :: 0 <= n < |all| && PairOf(all[n]) == p && more[n] == Asked(Done) {
      var n :| 0 <= n < |asked| && PairOf(asked[n]) == p && verdicts[n] == Asked(Done);
      assert all[n] == asked[n] && more[n] == verdicts[n];
    }
    if v == Asked(Done) {
      assert all[|asked|] == r && more[|asked|] == v;
    }
  }

  /** One matching target of the snapshot. */
  method DeleteOne(rm: RouteManager, r: SavedRoute, o: RemoveOutcome, deleted: set<(string, string)>,
                   ghost account: Account, ghost s: World)
    returns (verdict: Verdict, deleted': set<(string, string)>, ghost account': Account)
    requires Inv(rm.Current()) && rm.alive && IsRecord(s.mem, r) && SingleGateway(s.mem)
    requires LeftAfter(s, rm.Current(), account) && deleted == account.deleted
    modifies rm
    ensures Inv(rm.Current()) && rm.alive && LeftAfter(s, rm.Current(), account')
    ensures account' == Enter(account, r, verdict, o.readdOk) && deleted' == account'.deleted
    ensures verdict == if PairOf(r) in deleted then AlreadyDeleted
      else Asked(ReplyTo(InKernel(old(rm.Dur()), r.ip, r.gateway), o))
  {
    verdict, deleted', account' := AlreadyDeleted, deleted, account;
    if PairOf(r) in deleted {
      return;
    }
    verdict := AskManager(rm, r, o, account, s);
    account' := Enter(account, r, verdict, o.readdOk);
    deleted' := if Succeeded(verdict) then deleted + {PairOf(r)} else deleted;
  }

  method AskManager(rm: RouteManager, r: SavedRoute, o: RemoveOutcome, ghost account: Account, ghost s: World)
    returns (verdict: Verdict)
    requires Inv(rm.Current()) && rm.alive && LeftAfter(s, rm.Current(), account)
    requires IsRecord(s.mem, r) && SingleGateway(s.mem) && PairOf(r) !in account.deleted
    modifies rm
    ensures Inv(rm.Current()) && rm.alive
    ensures verdict == Asked(ReplyTo(InKernel(old(rm.Dur()), r.ip, r.gateway), o))
    ensures LeftAfter(s, rm.Current(), Enter(account, r, verdict, o.readdOk))
  {
    ghost var w := rm.Current();
    ghost var op := Op.Remove(r.key, r.ip, r.gateway, o.deleteOk, o.saveOk, o.readdOk);
    DeleteStep(s, w, account, r, op);
    RemoveAlive(w, op);
    var reply := rm.Remove(r.key, r.ip, r.gateway, o.deleteOk, o.saveOk, o.readdOk);
    verdict := Asked(reply);
  }

  lemma {:induction false} RemoveAlive(s: World, o: Op)
    requires o.Remove?
    ensures Next(s, o).alive == s.alive
  {
    assert Step(s, o) == RemoveStep(s, o);
  }

  /** `route_delete`. Status 400 or 404 means nothing was done; 200 means no match remains. */
  method RouteDelete(rm: RouteManager, key: string, ip: string, outcomes: seq<RemoveOutcome>)
    returns (status: int, verdicts: seq<Verdict>, ghost deleted: set<(string, string)>)
    requires Inv(rm.Current()) && rm.alive && |Records(rm.mem)| <= |outcomes|
    modifies rm
    ensures Inv(rm.Current())
    ensures var asked := Matching(Records(old(rm.mem)), key, ip);
      if (key == "" && ip == "") || (key != "" && !ValidRouteKey(key)) || (ip != "" && !ValidIpv4(ip))
      then status == 400 && rm.Current() == old(rm.Current())
      else
        && Handled(old(rm.Current()), rm.Current(), asked, verdicts, outcomes, deleted)
        && (forall r :: r in SavedRecords(rm.Dur()) ==> PairOf(r) !in deleted)
        && (CountExact(old(rm.Current())) ==>
              (CountExact(rm.Current()) <==> Lost(asked, verdicts, outcomes) == {}))
        && (status == 404 <==> asked == [])
        && (status == 404 ==> rm.Current() == old(rm.Current()))
        && (asked != [] && AllPresent(old(rm.Dur()), asked) && AllWork(outcomes, |asked|) ==> status == 200)
        && (status == 200 <==> asked != [] && forall n :: 0 <= n < |verdicts| ==> Succeeded(verdicts[n]))
        && (status == 500 <==> asked != [] && forall n :: 0 <= n < |verdicts| ==> !Succeeded(verdicts[n]))
        && status in {200, 207, 404, 500}
        && (status == 200 ==> forall k, i :: Entry(rm.mem, k, i).Some? ==>
              !Matches(RecordOf(k, i, Entry(rm.mem, k, i).value), key, ip))
  {
    verdicts, deleted := [], {};
    if (key == "" && ip == "") || (key != "" && !ValidRouteKey(key)) || (ip != "" && !ValidIpv4(ip)) {
      return 400, verdicts, deleted;
    }
    ghost var s := rm.Current();
    var routes := rm.List();
    RecordsExact(rm.mem);
    var matched, succeeded;
    verdicts, matched, succeeded, deleted := DeleteMatching(rm, routes, key, ip, outcomes);
    SucceededExtremes(verdicts);
    status := if matched == 0 then 404 else Status(succeeded, matched);
    HandledAll(s, rm.Current(), Matching(routes, key, ip), verdicts, outcomes, deleted);
    if AllPresent(s.dur, Matching(routes, key, ip)) && AllWork(outcomes, |verdicts|) {
      AllSucceed(s.dur, Matching(routes, key, ip), verdicts, outcomes);
    }
    if status == 200 {
      NoMatchLeft(s, rm.Current(), key, ip, verdicts, deleted);
    }
  }

  /** What the end of the loop says of the file and of the count, and that no match means no change. */
  lemma {:induction false} HandledAll(s: World, w: World, asked: seq<SavedRoute>, verdicts: seq<Verdict>,
                                      outcomes: seq<RemoveOutcome>, deleted: set<(string, string)>)
    requires Handled(s, w, asked, verdicts, outcomes, deleted) && NoEmptyGroup(s.mem) && NoEmptyGroup(w.mem)
    ensures forall r :: r in SavedRecords(w.dur) ==> PairOf(r) !in deleted
    ensures CountExact(s) ==> (CountExact(w) <==> Lost(asked, verdicts, outcomes) == {})
    ensures asked == [] ==> w == s
  {
    var lost := Lost(asked, verdicts, outcomes);
    DeletedFromFile(s, w, deleted, lost);
    if CountExact(s) {
      DeletedCount(s, w, deleted, lost);
    }
    if asked == [] {
      assert deleted == {} && lost == {} && PairIps({}) + {} == {};
      TableEquality(w.mem, s.mem);
      NothingDeleted(s);
    }
  }

  lemma {:induction false} NoMatchLeft(s: World, w: World, key: string, ip: string,
                                       verdicts: seq<Verdict>, deleted: set<(string, string)>)
    requires forall k, i :: Entry(w.mem, k, i) == WithoutPairs(Entry(s.mem, k, i), i, deleted)
    requires var asked := Matching(Records(s.mem), key, ip);
      Answered(asked, verdicts, deleted) && forall n :: 0 <= n < |verdicts| ==> Succeeded(verdicts[n])
    ensures forall k, i :: Entry(w.mem, k, i).Some? ==> !Matches(RecordOf(k, i, Entry(w.mem, k, i).value), key, ip)
  {
    RecordsExact(s.mem);
    var asked := Matching(Records(s.mem), key, ip);
    forall k, i | Entry(s.mem, k, i).Some? && Matches(RecordOf(k, i, Entry(s.mem, k, i).value), key, ip)
      ensures Entry(w.mem, k, i).None? {
      var r := RecordOf(k, i, Entry(s.mem, k, i).value);
      assert IsRecord(s.mem, r) && r in asked;
      var n :| 0 <= n < |asked| && asked[n] == r;
      assert PairOf(r) in deleted;
    }
  }
}
