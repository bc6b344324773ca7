/** Batch add: the request loop of the HTTP layer that adds many destinations under one key. */
module RouteService {
  import opened Text
  import opened RouteTable
  import opened RouteFile
  import opened RouteModel
  import opened RouteInvariants
  import opened RouteLifetimes
  import opened RouteAnswers
  import opened RouteManagement

  const MAX_BATCH := 256

  datatype AddOutcome = AddOutcome(now: nat, saveOk: bool, addOk: bool, rollbackOk: bool)

  function Successes(verdicts: seq<Reply>): nat {
    if verdicts == [] then 0
    else Successes(verdicts[..|verdicts| - 1]) + if verdicts[|verdicts| - 1] == Done then 1 else 0
  }

  lemma {:induction false} SuccessExtremes(verdicts: seq<Reply>)
    ensures Successes(verdicts) <= |verdicts|
    ensures Successes(verdicts) == |verdicts| <==> forall n :: 0 <= n < |verdicts| ==> verdicts[n] == Done
    ensures Successes(verdicts) == 0 <==> forall n :: 0 <= n < |verdicts| ==> verdicts[n] != Done
  {
    if verdicts != [] {
      var n := |verdicts| - 1;
      SuccessExtremes(verdicts[..n]);
      assert forall m :: 0 <= m < n ==> verdicts[..n][m] == verdicts[m];
    }
  }

  /** The status of a request that ran `total` calls. */
  function Status(succeeded: nat, total: nat): int {
    if succeeded == total then 200 else if succeeded == 0 then 500 else 207
  }

  // ----- batch add -----

  /** `resolve_add_gateway`: the gateway in force, if any; absent texts are empty. */
  function ResolveGateway(configured: string, force: bool, requested: string): (r: Option<string>)
    ensures r.Some? && (configured == "" || ValidIpv4(configured)) ==> ValidIpv4(r.value)
    ensures configured != "" && (force || requested == "") ==> r == Some(configured)
    ensures ValidIpv4(requested) && !(configured != "" && force) ==> r == Some(requested)
    ensures r.None? <==> !ValidIpv4(requested) && (configured == "" || (!force && requested != ""))
  {
    if configured != "" && (force || requested == "") then Some(configured)
    else if ValidIpv4(requested) then Some(requested)
    else None
  }

  /** `parse_ttl`: an absent ttl is zero, a negative one too. */
  function ParseTtl(value: string): (r: Option<int>)
    ensures r.Some? ==> 0 <= r.value <= MAX_INT64
  {
    if value == "" then Some(0)
    else
      var n := ParseNumber(value);
      if n.None? then None else Some(if n.value > 0 then n.value else 0)
  }

  /** The ttl of a text: zero if it is absent or negative, else its value; any other text is refused. */
  lemma {:induction false} TtlExactly(value: string, ttl: int)
    ensures ParseTtl(value) == Some(ttl) <==>
      if value == "" then ttl == 0
      else exists v :: MIN_INT64 <= v <= MAX_INT64 && Numeral(value, v) && ttl == if v > 0 then v else 0
  {
    if value != "" {
      if ParseNumber(value).Some? {
        ParsedExactly(value, ParseNumber(value).value);
      }
      forall v | MIN_INT64 <= v <= MAX_INT64 && Numeral(value, v) ensures ParseNumber(value) == Some(v) {
        ParsedExactly(value, v);
      }
    }
  }

  /** The distinct elements in the order of their first occurrence. */
  function Distinct(s: seq<string>): (r: seq<string>) {
    if s == [] then []
    else
      var d := Distinct(s[..|s| - 1]);
      var x := s[|s| - 1];
      if x in s[..|s| - 1] then d else d + [x]
  }

  lemma {:induction false} DistinctExact(s: seq<string>)
    ensures forall x :: x in Distinct(s) <==> x in s
    ensures forall a, b :: 0 <= a < b < |Distinct(s)| ==> Distinct(s)[a] != Distinct(s)[b]
    ensures |Distinct(s)| <= |s|
  {
    if s != [] {
      DistinctExact(s[..|s| - 1]);
      assert s == s[..|s| - 1] + [s[|s| - 1]];
    }
  }

  /** One destination precedes another exactly when it occurs first. */
  lemma {:induction false} DistinctOrder(s: seq<string>, a: nat, b: nat)
    requires a < b < |Distinct(s)|
    ensures exists m :: 0 <= m < |s| && s[m] == Distinct(s)[a] && Distinct(s)[b] !in s[..m + 1]
  {
    DistinctExact(s[..|s| - 1]);
    var t := s[..|s| - 1];
    var d := Distinct(t);
    if b < |d| {
      DistinctOrder(t, a, b);
      var m :| 0 <= m < |t| && t[m] == d[a] && d[b] !in t[..m + 1];
      assert s[m] == d[a] && s[..m + 1] == t[..m + 1];
    } else {
      assert d[a] in t;
      var m :| 0 <= m < |t| && t[m] == d[a];
      assert s[m] == d[a] && forall x :: x in s[..m + 1] ==> x in t;
    }
  }

  /** The token loop: rejects the list at the first bad address, drops repeats. */
  method CollectDestinations(tokens: seq<string>) returns (destinations: Option<seq<string>>)
    ensures destinations ==
      if forall t :: t in tokens ==> ValidIpv4(t) then Some(Distinct(tokens)) else None
  {
    var unique: set<string> := {};
    var found := [];
    var n := 0;
    while n < |tokens|
      invariant 0 <= n <= |tokens|
      invariant forall t :: t in tokens[..n] ==> ValidIpv4(t)
      invariant forall t :: t in unique <==> t in tokens[..n]
      invariant found == Distinct(tokens[..n])
    {
      assert tokens[..n + 1] == tokens[..n] + [tokens[n]];
      assert tokens[..n + 1][..n] == tokens[..n];
      if !ValidIpv4(tokens[n]) {
        assert tokens[n] in tokens;
        return None;
      }
      if tokens[n] !in unique {
        found := found + [tokens[n]];
        unique := unique + {tokens[n]};
      }
      n := n + 1;
    }
    assert tokens[..n] == tokens;
    return Some(found);
  }

  /** One add: on success the entry is set and memory is what the file says; on failure memory is
      unchanged. Either way no record of an entry leaves the file. */
  lemma {:induction false} AddEffect(s: World, a: Op)
    requires a.Add?
    ensures var (w, reply) := Step(s, a);
      && (reply == Done ==> w.mem == Candidate(s.mem, a) && SavedRecords(w.dur) == Records(w.mem))
      && (reply != Done ==> w.mem == s.mem)
      && w.clock == a.now && w.alive == s.alive
      && (forall r :: IsRecord(w.mem, r) && (r in SavedRecords(s.dur) || reply == Done) ==> r in SavedRecords(w.dur))
  {
    AddCases(s, a);
    var w := Next(s, a);
    RecordsExact(s.mem);
    RecordsExact(Candidate(s.mem, a));
    if AddAccepted(s, a) && !Referenced(s.mem, a.ip) {
      forall r | IsRecord(s.mem, r) ensures r in Records(Candidate(s.mem, a)) {
        assert Entry(s.mem, r.key, r.ip).Some?;
      }
    }
  }

  /** The entry an accepted destination ends up with. */
  function BatchMeta(o: AddOutcome, gateway: string, ttl: int): Meta {
    NewMeta(o.now, gateway, ttl)
  }

  ghost predicate TimesRun(start: nat, outcomes: seq<AddOutcome>) {
    && (forall n :: 0 <= n < |outcomes| ==> 0 < outcomes[n].now && start <= outcomes[n].now <= MAX_INT64)
    && (forall m, n :: 0 <= m < n < |outcomes| ==> outcomes[m].now <= outcomes[n].now)
  }

  /** What the first `|verdicts|` calls of a batch have led to: table `before` is now `t`, and the
      file holds `saved`. */
  ghost predicate BatchDone(before: Table, t: Table, saved: seq<SavedRoute>, key: string, gateway: string, ttl: int,
                            destinations: seq<string>, outcomes: seq<AddOutcome>, verdicts: seq<Reply>)
    requires |verdicts| <= |destinations| <= |outcomes|
  {
    && (forall n :: 0 <= n < |verdicts| && verdicts[n] == Done ==>
          var m := BatchMeta(outcomes[n], gateway, ttl);
          Entry(t, key, destinations[n]) == Some(m) && RecordOf(key, destinations[n], m) in saved)
    && (forall n :: 0 <= n < |verdicts| && verdicts[n] != Done ==>
          Entry(t, key, destinations[n]) == Entry(before, key, destinations[n]))
    && (forall k, i :: k != key || i !in destinations[..|verdicts|] ==> Entry(t, k, i) == Entry(before, k, i))
  }

  /** The destinations reported added that nobody referenced before the batch. */
  ghost function Fresh(before: Table, destinations: seq<string>, verdicts: seq<Reply>): set<string>
    requires |verdicts| <= |destinations|
  {
    set n | 0 <= n < |verdicts| && verdicts[n] == Done && !Referenced(before, destinations[n]) :: destinations[n]
  }

  /** The kernel after these calls, exactly: the fresh destinations have the gateway in force and are
      the process's own; every other destination, inside the batch or not, is as it was. */
  ghost predicate BatchInstalls(s: World, d: Durable, gateway: string, destinations: seq<string>, verdicts: seq<Reply>)
    requires |verdicts| <= |destinations|
  {
    Installs(s.dur, d, gateway, Fresh(s.mem, destinations, verdicts))
  }

  ghost predicate Installs(d0: Durable, d: Durable, gateway: string, added: set<string>) {
    && (forall i :: i in d.kernel <==> i in d0.kernel || i in added)
    && (forall i :: i in d.kernel ==> d.kernel[i] == if i in added then gateway else d0.kernel[i])
    && d.owned == d0.owned + added && d.legacy == d0.legacy - added
  }

  lemma {:induction false} InstallsOne(d0: Durable, d: Durable, e: Durable, gateway: string,
                                       added: set<string>, i: string)
    requires Installs(d0, d, gateway, added)
    requires e.kernel == d.kernel[i := gateway] && e.owned == d.owned + {i} && e.legacy == d.legacy - {i}
    ensures Installs(d0, e, gateway, added + {i})
  {
  }

  lemma {:induction false} FreshMore(before: Table, destinations: seq<string>, verdicts: seq<Reply>, reply: Reply)
    requires |verdicts| < |destinations|
    ensures var i := destinations[|verdicts|];
      Fresh(before, destinations, verdicts + [reply]) == Fresh(before, destinations, verdicts) +
        if reply == Done && !Referenced(before, i) then {i} else {}
  {
    var n, more := |verdicts|, verdicts + [reply];
    assert more[n] == reply && forall m :: 0 <= m < n ==> more[m] == verdicts[m];
    var all := Fresh(before, destinations, more);
    forall i | i in Fresh(before, destinations, verdicts) ensures i in all {
      var m :| 0 <= m < n && verdicts[m] == Done && destinations[m] == i && !Referenced(before, i);
      assert more[m] == Done;
    }
  }

  /** One more call of the batch, and what it does to the kernel. */
  lemma {:induction false} InstallMore(s: World, w: World, a: Op, destinations: seq<string>, verdicts: seq<Reply>)
    requires a.Add? && |verdicts| < |destinations| && a.ip == destinations[|verdicts|]
    requires BatchInstalls(s, w.dur, a.gateway, destinations, verdicts)
    requires Referenced(w.mem, a.ip) <==> Referenced(s.mem, a.ip)
    ensures BatchInstalls(s, Next(w, a).dur, a.gateway, destinations, verdicts + [Step(w, a).1])
  {
    AddInstalls(w, a);
    FreshMore(s.mem, destinations, verdicts, Step(w, a).1);
    var added := Fresh(s.mem, destinations, verdicts);
    if Step(w, a).1 == Done && !Referenced(s.mem, a.ip) {
      InstallsOne(s.dur, w.dur, Next(w, a).dur, a.gateway, added, a.ip);
    } else {
      assert added + {} == added;
    }
  }

  lemma {:induction false} InstallNothing(s: World, gateway: string, destinations: seq<string>)
    ensures BatchInstalls(s, s.dur, gateway, destinations, [])
  {
    assert Fresh(s.mem, destinations, []) == {};
  }

  /** What the batch answers about one destination, from the table before the batch. */
  ghost function BatchAnswer(before: Table, ip: string, gateway: string, ttl: int, o: AddOutcome): Reply {
    if ttl > 0 && o.now + ttl > 0x7fff_ffff_ffff_ffff then TtlTooLarge
    else if Conflicting(before, ip, gateway) then GatewayConflict
    else if !o.saveOk then SaveFailed
    else if Unreferenced(before, ip) && !o.addOk then SystemFailed
    else Done
  }

  ghost predicate BatchAnswers(before: Table, gateway: string, ttl: int, destinations: seq<string>,
                               outcomes: seq<AddOutcome>, verdicts: seq<Reply>)
    requires |verdicts| <= |destinations| <= |outcomes|
  {
    forall n :: 0 <= n < |verdicts| ==> verdicts[n] == BatchAnswer(before, destinations[n], gateway, ttl, outcomes[n])
  }

  /** In other words: which destinations are reported added. */
  lemma {:induction false} BatchSucceeds(before: Table, ip: string, gateway: string, ttl: int, o: AddOutcome)
    ensures BatchAnswer(before, ip, gateway, ttl, o) == Done <==>
      && (ttl > 0 ==> o.now + ttl <= 0x7fff_ffff_ffff_ffff)
      && GatewayIs(before, ip, gateway) && o.saveOk && (Referenced(before, ip) || o.addOk)
  {
    assert Conflicting(before, ip, gateway) <==> !GatewayIs(before, ip, gateway);
    assert Unreferenced(before, ip) <==> !Referenced(before, ip);
  }

  /** Earlier calls of the batch do not change the answer. */
  lemma {:induction false} SameAnswer(before: Table, w: World, a: Op, o: AddOutcome)
    requires a.Add? && forall k :: Entry(w.mem, k, a.ip) == Entry(before, k, a.ip)
    requires a.now == o.now && a.saveOk == o.saveOk && a.addOk == o.addOk
    ensures Step(w, a).1 == BatchAnswer(before, a.ip, a.gateway, a.ttl, o)
  {
    AddAnswers(w, a);
    assert Conflicting(w.mem, a.ip, a.gateway) <==> Conflicting(before, a.ip, a.gateway);
    assert Unreferenced(w.mem, a.ip) <==> Unreferenced(before, a.ip);
  }

  /** All that a batch has led to, from state `s` to `w`. */
  ghost predicate BatchSoFar(s: World, w: World, key: string, gateway: string, ttl: int, destinations: seq<string>,
                             outcomes: seq<AddOutcome>, verdicts: seq<Reply>)
    requires |verdicts| <= |destinations| <= |outcomes|
  {
    && BatchDone(s.mem, w.mem, SavedRecords(w.dur), key, gateway, ttl, destinations, outcomes, verdicts)
    && BatchAnswers(s.mem, gateway, ttl, destinations, outcomes, verdicts)
    && BatchInstalls(s, w.dur, gateway, destinations, verdicts)
    && (CountExact(s) ==> CountExact(w))
  }

  /** A destination that the batch has not reached is referenced as before. */
  lemma {:induction false} NotReached(before: Table, t: Table, saved: seq<SavedRoute>, key: string, gateway: string,
                                      ttl: int, destinations: seq<string>, outcomes: seq<AddOutcome>,
                                      verdicts: seq<Reply>)
    requires |verdicts| < |destinations| <= |outcomes|
    requires forall m, n :: 0 <= m < n < |destinations| ==> destinations[m] != destinations[n]
    requires BatchDone(before, t, saved, key, gateway, ttl, destinations, outcomes, verdicts)
    ensures forall k :: Entry(t, k, destinations[|verdicts|]) == Entry(before, k, destinations[|verdicts|])
    ensures Referenced(t, destinations[|verdicts|]) <==> Referenced(before, destinations[|verdicts|])
  {
    var i := destinations[|verdicts|];
    assert forall k :: Entry(t, k, i) == Entry(before, k, i);
  }

  /** Every destination reported added is in the kernel with the gateway in force. */
  ghost predicate BatchInKernel(d: Durable, gateway: string, destinations: seq<string>, verdicts: seq<Reply>)
    requires |verdicts| <= |destinations|
  {
    forall n :: 0 <= n < |verdicts| && verdicts[n] == Done ==> InKernel(d, destinations[n], gateway)
  }

  /** While owned and referenced are the same, what is in memory is in the kernel. */
  lemma {:induction false} BatchInstalled(w: World, before: Table, key: string, gateway: string, ttl: int,
                                          destinations: seq<string>, outcomes: seq<AddOutcome>, verdicts: seq<Reply>)
    requires OwnedReferenced(w.mem, w.dur) && CountExact(w) && |verdicts| <= |destinations| <= |outcomes|
    requires BatchDone(before, w.mem, SavedRecords(w.dur), key, gateway, ttl, destinations, outcomes, verdicts)
    ensures BatchInKernel(w.dur, gateway, destinations, verdicts)
  {
    forall n | 0 <= n < |verdicts| && verdicts[n] == Done ensures InKernel(w.dur, destinations[n], gateway) {
      var i := destinations[n];
      assert Entry(w.mem, key, i) == Some(BatchMeta(outcomes[n], gateway, ttl));
      assert Referenced(w.mem, i) && i in w.dur.owned;
      assert GatewayIs(w.mem, i, w.dur.kernel[i]);
    }
  }

  lemma {:induction false} BatchExtend(before: Table, t: Table, saved: seq<SavedRoute>,
                                       u: Table, saved': seq<SavedRoute>,
                                       key: string, gateway: string, ttl: int, destinations: seq<string>,
                                       outcomes: seq<AddOutcome>, verdicts: seq<Reply>, reply: Reply)
    requires |verdicts| < |destinations| <= |outcomes|
    requires forall m, n :: 0 <= m < n < |destinations| ==> destinations[m] != destinations[n]
    requires BatchDone(before, t, saved, key, gateway, ttl, destinations, outcomes, verdicts)
    requires u == if reply == Done
      then Put(t, key, destinations[|verdicts|], BatchMeta(outcomes[|verdicts|], gateway, ttl)) else t
    requires forall r :: IsRecord(u, r) && (r in saved || reply == Done) ==> r in saved'
    ensures BatchDone(before, u, saved', key, gateway, ttl, destinations, outcomes, verdicts + [reply])
  {
    var n := |verdicts|;
    var more := verdicts + [reply];
    assert destinations[..n + 1] == destinations[..n] + [destinations[n]];
    forall m | 0 <= m < n + 1 && more[m] == Done
      ensures Entry(u, key, destinations[m]) == Some(BatchMeta(outcomes[m], gateway, ttl))
      ensures RecordOf(key, destinations[m], BatchMeta(outcomes[m], gateway, ttl)) in saved' {
      assert IsRecord(u, RecordOf(key, destinations[m], BatchMeta(outcomes[m], gateway, ttl)));
    }
    forall m | 0 <= m < n + 1 && more[m] != Done
      ensures Entry(u, key, destinations[m]) == Entry(before, key, destinations[m]) {
      assert Entry(t, key, destinations[m]) == Entry(before, key, destinations[m]);
    }
  }

  /** The add loop of the batch, run without interleaving: one verdict per destination; what is
      reported added is in memory and on disk at the end, even though later failures roll back the
      whole table, and in the kernel unless an earlier re-add had failed; failed destinations and all
      others are unchanged in memory and kernel. */
  method AddAll(rm: RouteManager, key: string, gateway: string, ttl: int,
                destinations: seq<string>, outcomes: seq<AddOutcome>) returns (verdicts: seq<Reply>, succeeded: nat)
    requires Inv(rm.Current()) && rm.alive && TimesRun(rm.clock, outcomes) && |destinations| <= |outcomes|
    requires ValidSavedKey(key) && ValidIpv4(gateway) && MIN_INT64 <= ttl <= MAX_INT64
    requires forall i :: i in destinations ==> ValidIpv4(i)
    requires forall m, n :: 0 <= m < n < |destinations| ==> destinations[m] != destinations[n]
    modifies rm
    ensures Inv(rm.Current()) && |verdicts| == |destinations|
    ensures BatchSoFar(old(rm.Current()), rm.Current(), key, gateway, ttl, destinations, outcomes, verdicts)
    ensures CountExact(old(rm.Current())) ==> BatchInKernel(rm.Dur(), gateway, destinations, verdicts)
    ensures succeeded == Successes(verdicts)
  {
    verdicts, succeeded := [], 0;
    ghost var s := rm.Current();
    InstallNothing(s, gateway, destinations);
    while |verdicts| < |destinations|
      invariant |verdicts| <= |destinations|
      invariant Inv(rm.Current()) && rm.alive
      invariant forall n :: |verdicts| <= n < |outcomes| ==> rm.clock <= outcomes[n].now
      invariant BatchSoFar(s, rm.Current(), key, gateway, ttl, destinations, outcomes, verdicts)
      invariant succeeded == Successes(verdicts)
      decreases |destinations| - |verdicts|
    {
      verdicts, succeeded := AddOne(rm, key, gateway, ttl, destinations, outcomes, verdicts, succeeded, s);
    }
    if CountExact(s) {
      BatchInstalled(rm.Current(), s.mem, key, gateway, ttl, destinations, outcomes, verdicts);
    }
  }

  /** One round of that loop. */
  method AddOne(rm: RouteManager, key: string, gateway: string, ttl: int, destinations: seq<string>,
                outcomes: seq<AddOutcome>, verdicts0: seq<Reply>, succeeded0: nat, ghost s: World)
    returns (verdicts: seq<Reply>, succeeded: nat)
    requires |verdicts0| < |destinations| <= |outcomes|
    requires Inv(rm.Current()) && rm.alive && rm.clock <= outcomes[|verdicts0|].now <= MAX_INT64
    requires outcomes[|verdicts0|].now > 0 && MIN_INT64 <= ttl <= MAX_INT64
    requires ValidSavedKey(key) && ValidIpv4(gateway) && ValidIpv4(destinations[|verdicts0|])
    requires forall m, n :: 0 <= m < n < |destinations| ==> destinations[m] != destinations[n]
    requires BatchSoFar(s, rm.Current(), key, gateway, ttl, destinations, outcomes, verdicts0)
    requires succeeded0 == Successes(verdicts0)
    modifies rm
    ensures Inv(rm.Current()) && rm.alive && rm.clock == outcomes[|verdicts0|].now
    ensures |verdicts| == |verdicts0| + 1 && succeeded == Successes(verdicts)
    ensures BatchSoFar(s, rm.Current(), key, gateway, ttl, destinations, outcomes, verdicts)
  {
    var o := outcomes[|verdicts0|];
    var ip := destinations[|verdicts0|];
    ghost var w := rm.Current();
    var a := Op.Add(o.now, key, ip, gateway, ttl, o.saveOk, o.addOk, o.rollbackOk);
    var reply := AddCounted(rm, a);
    BatchStep(s, w, rm.Current(), a, o, destinations, outcomes, verdicts0, reply);
    verdicts, succeeded := verdicts0 + [reply], succeeded0;
    assert verdicts[..|verdicts0|] == verdicts0;
    if reply == Done {
      succeeded := succeeded + 1;
    }
  }

  lemma {:induction false} BatchStep(s: World, w: World, x: World, a: Op, o: AddOutcome, destinations: seq<string>,
                                     outcomes: seq<AddOutcome>, verdicts: seq<Reply>, reply: Reply)
    requires a.Add? && |verdicts| < |destinations| <= |outcomes| && o == outcomes[|verdicts|]
    requires a == Op.Add(o.now, a.key, destinations[|verdicts|], a.gateway, a.ttl, o.saveOk, o.addOk, o.rollbackOk)
    requires forall m, n :: 0 <= m < n < |destinations| ==> destinations[m] != destinations[n]
    requires BatchSoFar(s, w, a.key, a.gateway, a.ttl, destinations, outcomes, verdicts)
    requires reply == Step(w, a).1 && x.dur == Next(w, a).dur
    requires x.mem == if reply == Done then Candidate(w.mem, a) else w.mem
    requires forall r :: IsRecord(x.mem, r) && (r in SavedRecords(w.dur) || reply == Done) ==> r in SavedRecords(x.dur)
    requires CountExact(w) ==> CountExact(x)
    ensures BatchSoFar(s, x, a.key, a.gateway, a.ttl, destinations, outcomes, verdicts + [reply])
  {
    NotReached(s.mem, w.mem, SavedRecords(w.dur), a.key, a.gateway, a.ttl, destinations, outcomes, verdicts);
    InstallMore(s, w, a, destinations, verdicts);
    SameAnswer(s.mem, w, a, o);
    AnswersMore(s.mem, a.gateway, a.ttl, destinations, outcomes, verdicts, reply);
    BatchExtend(s.mem, w.mem, SavedRecords(w.dur), x.mem, SavedRecords(x.dur),
                a.key, a.gateway, a.ttl, destinations, outcomes, verdicts, reply);
  }

  lemma AnswersMore(before: Table, gateway: string, ttl: int, destinations: seq<string>, outcomes: seq<AddOutcome>,
                    verdicts: seq<Reply>, reply: Reply)
    requires |verdicts| < |destinations| <= |outcomes|
    requires BatchAnswers(before, gateway, ttl, destinations, outcomes, verdicts)
    requires reply == BatchAnswer(before, destinations[|verdicts|], gateway, ttl, outcomes[|verdicts|])
    ensures BatchAnswers(before, gateway, ttl, destinations, outcomes, verdicts + [reply])
  {
  }

  /** One call of the manager, with what the batch needs to know of it. */
  method AddCounted(rm: RouteManager, a: Op) returns (reply: Reply)
    requires a.Add? && Inv(rm.Current()) && Legal(rm.Current(), a)
    modifies rm
    ensures Inv(rm.Current()) && rm.alive && rm.clock == a.now
    ensures reply == Step(old(rm.Current()), a).1 && rm.Dur() == Next(old(rm.Current()), a).dur
    ensures rm.mem == if reply == Done then Candidate(old(rm.mem), a) else old(rm.mem)
    ensures forall r :: IsRecord(rm.mem, r) && (r in SavedRecords(old(rm.Dur())) || reply == Done) ==>
      r in SavedRecords(rm.Dur())
    ensures CountExact(old(rm.Current())) ==> CountExact(rm.Current())
  {
    ghost var w := rm.Current();
    AddEffect(w, a);
    if CountExact(w) {
      AddCount(w, a);
    }
    reply := rm.Add(a.now, a.key, a.ip, a.gateway, a.ttl, a.saveOk, a.addOk, a.rollbackOk);
  }

  /** `route_add` for a list of addresses. Status 400 means nothing was done. */
  method RouteAdd(rm: RouteManager, tokens: seq<string>, key: string, ttlText: string,
                  requested: string, configured: string, force: bool, outcomes: seq<AddOutcome>)
    returns (status: int, destinations: seq<string>, verdicts: seq<Reply>)
    requires Inv(rm.Current()) && rm.alive && TimesRun(rm.clock, outcomes) && |tokens| <= |outcomes|
    requires configured == "" || ValidIpv4(configured)
    modifies rm
    ensures Inv(rm.Current())
    ensures var gateway := ResolveGateway(configured, force, requested); var ttl := ParseTtl(ttlText);
      if gateway.None? || key == "" || !ValidRouteKey(key) || ttl.None?
         || !(1 <= |tokens| <= 256) || exists t :: t in tokens && !ValidIpv4(t)
      then status == 400 && rm.Current() == old(rm.Current())
      else
        && destinations == Distinct(tokens) && |verdicts| == |destinations| <= |outcomes|
        && BatchSoFar(old(rm.Current()), rm.Current(), key, gateway.value, ttl.value, destinations, outcomes, verdicts)
        && (CountExact(old(rm.Current())) ==> BatchInKernel(rm.Dur(), gateway.value, destinations, verdicts))
        && (status == 200 <==> forall n :: 0 <= n < |verdicts| ==> verdicts[n] == Done)
        && (status == 500 <==> forall n :: 0 <= n < |verdicts| ==> verdicts[n] != Done)
        && status in {200, 207, 500}
  {
    destinations, verdicts := [], [];
    var gateway := ResolveGateway(configured, force, requested);
    if gateway.None? {
      return 400, destinations, verdicts;
    }
    if key == "" || !ValidRouteKey(key) {
      return 400, destinations, verdicts;
    }
    var ttl := ParseTtl(ttlText);
    if ttl.None? {
      return 400, destinations, verdicts;
    }
    if |tokens| == 0 || |tokens| > MAX_BATCH {
      return 400, destinations, verdicts;
    }
    var collected := CollectDestinations(tokens);
    if collected.None? {
      return 400, destinations, verdicts;
    }
    destinations := collected.value;
    DistinctExact(tokens);
    var succeeded;
    verdicts, succeeded := AddAll(rm, key, gateway.value, ttl.value, destinations, outcomes);
    status := Status(succeeded, |destinations|);
    assert tokens[0] in destinations;
    SuccessExtremes(verdicts);
  }
}
