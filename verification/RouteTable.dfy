/** The managed routes held in memory: key -> destination IP -> metadata. */
module RouteTable {
  import opened Text

  datatype Meta = Meta(gateway: string, ttl: nat, expiresAt: nat, lastAttempt: nat)
  type Group = map<string, Meta>
  type Table = map<string, Group>

  /** One line of `routes.db`. */
  datatype SavedRoute = SavedRoute(key: string, ip: string, gateway: string, ttl: nat, expiresAt: nat)

  /** What the table holds for a key and a destination, if anything. */
  function Entry(t: Table, k: string, i: string): Option<Meta> {
    if k in t && i in t[k] then Some(t[k][i]) else None
  }

  /** `installed_routes[k][i] = m` */
  function Put(t: Table, k: string, i: string, m: Meta): (r: Table)
    ensures forall k', i' :: Entry(r, k', i') == if k' == k && i' == i then Some(m) else Entry(t, k', i')
    ensures NoEmptyGroup(t) ==> NoEmptyGroup(r)
  {
    var g: Group := (if k in t then t[k] else map[])[i := m];
    assert i in g;
    t[k := g]
  }

  ghost predicate NoEmptyGroup(t: Table) {
    forall k :: k in t ==> t[k] != map[]
  }

  /** Tables without empty groups are determined by their entries. */
  lemma TableEquality(t: Table, u: Table)
    requires NoEmptyGroup(t) && NoEmptyGroup(u)
    requires forall k, i :: Entry(t, k, i) == Entry(u, k, i)
    ensures t == u
  {
    forall k | k in t ensures k in u && t[k] == u[k] {
      var i :| i in t[k];
      assert Entry(t, k, i) == Entry(u, k, i);
      assert forall i :: i in t[k] ==> Entry(t, k, i) == Entry(u, k, i);
      assert forall i :: i in u[k] ==> Entry(t, k, i) == Entry(u, k, i);
    }
    forall k | k in u ensures k in t {
      var i :| i in u[k];
      assert Entry(t, k, i) == Entry(u, k, i);
    }
  }

  /** Some key references the destination. */
  ghost predicate Referenced(t: Table, i: string) {
    exists k :: Entry(t, k, i).Some?
  }

  lemma PutReferences(t: Table, k: string, i: string, m: Meta)
    ensures forall j :: Referenced(Put(t, k, i, m), j) <==> Referenced(t, j) || j == i
  {
    var u := Put(t, k, i, m);
    assert Entry(u, k, i).Some?;
    forall j | Referenced(t, j) ensures Referenced(u, j) {
      var k' :| Entry(t, k', j).Some?;
      assert Entry(u, k', j).Some?;
    }
  }

  /** Every key that references `i` does so through gateway `g`. */
  ghost predicate GatewayIs(t: Table, i: string, g: string) {
    forall k :: Entry(t, k, i).Some? ==> Entry(t, k, i).value.gateway == g
  }

  /** All keys that reference a destination agree on its gateway. */
  ghost predicate SingleGateway(t: Table) {
    forall k, k', i :: Entry(t, k, i).Some? && Entry(t, k', i).Some? ==>
      Entry(t, k, i).value.gateway == Entry(t, k', i).value.gateway
  }

  /** All destinations referenced under any key. */
  ghost function Ips(t: Table): (r: set<string>)
    ensures forall i :: i in r <==> Referenced(t, i)
  {
    var r := set k, i | k in t && i in t[k] :: i;
    assert forall i :: i in r ==> Referenced(t, i) by {
      forall i | i in r ensures Referenced(t, i) {
        var k :| k in t && i in t[k];
        assert Entry(t, k, i).Some?;
      }
    }
    r
  }

  /** An entry after the references to one destination through gateway `g` are dropped. */
  function Unless(e: Option<Meta>, sameIp: bool, g: string): Option<Meta> {
    if sameIp && e.Some? && e.value.gateway == g then None else e
  }

  /** The table without any reference to `i` through gateway `g`, empty groups dropped. */
  ghost function Unreference(t: Table, i: string, g: string): (r: Table)
    ensures NoEmptyGroup(r)
    ensures forall k, j :: Entry(r, k, j) == Unless(Entry(t, k, j), j == i, g)
  {
    var left := map k | k in t :: map j | j in t[k] && !(j == i && t[k][j].gateway == g) :: t[k][j];
    var r: Table := map k | k in left && left[k] != map[] :: left[k];
    forall k, j ensures Entry(r, k, j) == Unless(Entry(t, k, j), j == i, g) {
      if k in left && j in left[k] {
        assert left[k] != map[];
      }
    }
    r
  }

  // ----- the table as a list of records, in iteration order -----

  function RecordOf(k: string, i: string, m: Meta): SavedRoute {
    SavedRoute(k, i, m.gateway, m.ttl, m.expiresAt)
  }

  /** The record is an entry of the table. */
  predicate IsRecord(t: Table, r: SavedRoute) {
    var e := Entry(t, r.key, r.ip);
    e.Some? && r == RecordOf(r.key, r.ip, e.value)
  }

  function GroupRecords(k: string, g: Group, ips: seq<string>): (r: seq<SavedRoute>)
    requires forall i :: i in ips ==> i in g
    ensures |r| == |ips| && forall n :: 0 <= n < |r| ==> r[n] == RecordOf(k, ips[n], g[ips[n]])
  {
    seq(|ips|, n requires 0 <= n < |ips| => RecordOf(k, ips[n], g[ips[n]]))
  }

  /** The records of one key, destinations ascending. */
  function RecordsOfKey(t: Table, k: string): seq<SavedRoute> {
    if k in t then GroupRecords(k, t[k], Sorted(t[k].Keys)) else []
  }

  function KeyedRecords(t: Table, keys: seq<string>): seq<SavedRoute> {
    if keys == [] then [] else KeyedRecords(t, keys[..|keys| - 1]) + RecordsOfKey(t, keys[|keys| - 1])
  }

  /** The records of the table, keys ascending and destinations ascending inside a key. */
  function Records(t: Table): seq<SavedRoute> {
    KeyedRecords(t, Sorted(t.Keys))
  }

  lemma RecordsOfKeyExact(t: Table, k: string, r: SavedRoute)
    ensures r in RecordsOfKey(t, k) <==> r.key == k && IsRecord(t, r)
  {
    if k in t {
      var ips := Sorted(t[k].Keys);
      var group := RecordsOfKey(t, k);
      if r.key == k && IsRecord(t, r) {
        assert r.ip in ips;
        var n :| 0 <= n < |ips| && ips[n] == r.ip;
        assert group[n] == r;
      }
      if r in group {
        var n :| 0 <= n < |group| && group[n] == r;
        assert ips[n] in t[k].Keys;
      }
    }
  }

  lemma {:induction false} KeyedRecordsExact(t: Table, keys: seq<string>, r: SavedRoute)
    ensures r in KeyedRecords(t, keys) <==> r.key in keys && IsRecord(t, r)
  {
    if keys != [] {
      var k := keys[|keys| - 1];
      var earlier := keys[..|keys| - 1];
      KeyedRecordsExact(t, earlier, r);
      RecordsOfKeyExact(t, k, r);
      assert keys == earlier + [k];
    }
  }

  /** A record is listed exactly when it is an entry of the table. */
  lemma RecordsExact(t: Table)
    ensures forall r :: r in Records(t) <==> IsRecord(t, r)
  {
    forall r ensures r in Records(t) <==> IsRecord(t, r) {
      KeyedRecordsExact(t, Sorted(t.Keys), r);
    }
  }

  /** One record comes before another: smaller key, or same key and smaller destination. */
  predicate Before(a: SavedRoute, b: SavedRoute) {
    Less(a.key, b.key) || (a.key == b.key && Less(a.ip, b.ip))
  }

  predicate AscendingRecords(rs: seq<SavedRoute>) {
    forall a, b :: 0 <= a < b < |rs| ==> Before(rs[a], rs[b])
  }

  lemma {:induction false} KeyedRecordsAscending(t: Table, keys: seq<string>)
    requires Ascending(keys)
    ensures AscendingRecords(KeyedRecords(t, keys))
  {
    if keys != [] {
      var n := |keys| - 1;
      var earlier, group := KeyedRecords(t, keys[..n]), RecordsOfKey(t, keys[n]);
      KeyedRecordsAscending(t, keys[..n]);
      forall a, b | 0 <= a < |earlier| && 0 <= b < |group| ensures Before(earlier[a], group[b]) {
        KeyedRecordsExact(t, keys[..n], earlier[a]);
        RecordsOfKeyExact(t, keys[n], group[b]);
        assert earlier[a] in earlier && group[b] in group;
        var m :| 0 <= m < n && keys[m] == earlier[a].key;
      }
    }
  }

  /** The records are listed in the order of keys and destinations, so each only once. */
  lemma {:induction false} RecordsAscending(t: Table)
    ensures AscendingRecords(Records(t))
    ensures forall a, b :: 0 <= a < b < |Records(t)| ==> Records(t)[a] != Records(t)[b]
  {
    KeyedRecordsAscending(t, Sorted(t.Keys));
    var rs := Records(t);
    forall a, b | 0 <= a < b < |rs| ensures rs[a] != rs[b] {
      assert Before(rs[a], rs[b]);
      if rs[a] == rs[b] {
        if Less(rs[a].key, rs[b].key) {
          LessAsymmetric(rs[a].key, rs[b].key);
        } else {
          LessAsymmetric(rs[a].ip, rs[b].ip);
        }
      }
    }
  }
}
