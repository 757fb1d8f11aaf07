/** The table rewrite of `run_dhcp_wmi_sync`: the collected targets are stored one after the other
    into emptied tables, servers first, then scopes, then leases. Two dictionaries that live for
    the whole rewrite connect them by name. A name that is None in the source is "" here. */
module DhcpSync {
  import opened Wrappers
  import opened DhcpWriteBack

  /** What one target delivered: server names, scopes and leases. */
  datatype Target = Target(servers: seq<string>, scopes: seq<Key>, leases: seq<Lease>)

  /** A row refers to its parent by the parent's place in its table. */
  datatype ScopeRow = ScopeRow(server: nat, name: string)

  datatype LeaseRow = LeaseRow(scope: nat, lease: Lease)

  /** An item of `scope_key_to_id`. */
  datatype Entry = Entry(key: Key, id: nat)

  datatype State = State(
    servers: seq<string>, scopes: seq<ScopeRow>, leases: seq<LeaseRow>,
    serverIds: map<string, nat>, scopeIds: seq<Entry>)

  // ---------- a Python dict in insertion order ----------

  /** A key that is there keeps its place. */
  function Put(entries: seq<Entry>, key: Key, id: nat): seq<Entry> {
    if entries == [] then [Entry(key, id)]
    else if entries[0].key == key then [Entry(key, id)] + entries[1..]
    else [entries[0]] + Put(entries[1..], key, id)
  }

  function Get(entries: seq<Entry>, key: Key): Option<nat> {
    if entries == [] then None
    else if entries[0].key == key then Some(entries[0].id)
    else Get(entries[1..], key)
  }

  /** `next(... for (sn, sc), sid in items() if sc == name)`. */
  function FirstNamed(entries: seq<Entry>, name: string): Option<Entry> {
    if entries == [] then None
    else if entries[0].key.scope == name then Some(entries[0])
    else FirstNamed(entries[1..], name)
  }

  // ---------- one row ----------

  function ServerAdded(s: State, name: string): State {
    s.(servers := s.servers + [name],
       serverIds := if name != "" then s.serverIds[name := |s.servers|] else s.serverIds)
  }

  /** A scope whose server is unknown is dropped. */
  function ScopeAdded(s: State, k: Key): State {
    if k.server == "" || k.server !in s.serverIds then s
    else s.(scopes := s.scopes + [ScopeRow(s.serverIds[k.server], k.scope)],
            scopeIds := Put(s.scopeIds, k, |s.scopes|))
  }

  /** The scope a lease is stored under: its own, or else the first of that name on any server. */
  function ScopeFor(entries: seq<Entry>, k: Key): Option<nat> {
    var own := if k.server != "" && k.scope != "" then Get(entries, k) else None;
    var first := FirstNamed(entries, k.scope);
    if own.Some? then own else if first.Some? then Some(first.value.id) else None
  }

  function LeaseAdded(s: State, le: Lease): State {
    var id := ScopeFor(s.scopeIds, le.key);
    if id.None? then s else s.(leases := s.leases + [LeaseRow(id.value, le)])
  }

  function ServersAdded(s: State, names: seq<string>): State {
    if names == [] then s else ServerAdded(ServersAdded(s, names[..|names| - 1]), names[|names| - 1])
  }

  function ScopesAdded(s: State, keys: seq<Key>): State {
    if keys == [] then s else ScopeAdded(ScopesAdded(s, keys[..|keys| - 1]), keys[|keys| - 1])
  }

  function LeasesAdded(s: State, leases: seq<Lease>): State {
    if leases == [] then s else LeaseAdded(LeasesAdded(s, leases[..|leases| - 1]), leases[|leases| - 1])
  }

  function TargetAdded(s: State, t: Target): State {
    LeasesAdded(ScopesAdded(ServersAdded(s, t.servers), t.scopes), t.leases)
  }

  /** The state after all targets. */
  function Synced(targets: seq<Target>): State {
    if targets == [] then State([], [], [], map[], [])
    else TargetAdded(Synced(targets[..|targets| - 1]), targets[|targets| - 1])
  }

  class DhcpTables {
    var servers: seq<string>
    var scopes: seq<ScopeRow>
    var leases: seq<LeaseRow>

    function With(serverIds: map<string, nat>, scopeIds: seq<Entry>): State
      reads this
    {
      State(servers, scopes, leases, serverIds, scopeIds)
    }

    method AddServers(names: seq<string>, serverIds: map<string, nat>, ghost scopeIds: seq<Entry>)
      returns (ids: map<string, nat>)
      modifies this`servers
      ensures With(ids, scopeIds) == ServersAdded(old(With(serverIds, scopeIds)), names)
    {
      ids := serverIds;
      for i := 0 to |names|
        invariant With(ids, scopeIds) == ServersAdded(old(With(serverIds, scopeIds)), names[..i])
      {
        assert names[..i + 1][..i] == names[..i];
        servers := servers + [names[i]];
        if names[i] != "" { ids := ids[names[i] := |servers| - 1]; }
      }
      assert names[..|names|] == names;
    }

    method AddScopes(keys: seq<Key>, serverIds: map<string, nat>, scopeIds: seq<Entry>) returns (ids: seq<Entry>)
      modifies this`scopes
      ensures With(serverIds, ids) == ScopesAdded(old(With(serverIds, scopeIds)), keys)
    {
      ids := scopeIds;
      for i := 0 to |keys|
        invariant With(serverIds, ids) == ScopesAdded(old(With(serverIds, scopeIds)), keys[..i])
      {
        assert keys[..i + 1][..i] == keys[..i];
        var k := keys[i];
        if k.server == "" || k.server !in serverIds { continue; }
        scopes := scopes + [ScopeRow(serverIds[k.server], k.scope)];
        ids := Put(ids, k, |scopes| - 1);
      }
      assert keys[..|keys|] == keys;
    }

    method AddLeases(batch: seq<Lease>, ghost serverIds: map<string, nat>, scopeIds: seq<Entry>)
      modifies this`leases
      ensures With(serverIds, scopeIds) == LeasesAdded(old(With(serverIds, scopeIds)), batch)
    {
      for i := 0 to |batch|
        invariant With(serverIds, scopeIds) == LeasesAdded(old(With(serverIds, scopeIds)), batch[..i])
      {
        assert batch[..i + 1][..i] == batch[..i];
        var k := batch[i].key;
        var id := if k.server != "" && k.scope != "" then Get(scopeIds, k) else None;
        if id.None? {
          var first := FirstNamed(scopeIds, k.scope);
          if first.Some? { id := Some(first.value.id); }
        }
        if id.Some? {
          leases := leases + [LeaseRow(id.value, batch[i])];
        }
      }
      assert batch[..|batch|] == batch;
    }

    method Rewrite(targets: seq<Target>)
      modifies this
      ensures servers == Synced(targets).servers && scopes == Synced(targets).scopes
      ensures leases == Synced(targets).leases
    {
      servers, scopes, leases := [], [], [];
      var serverIds: map<string, nat>, scopeIds: seq<Entry> := map[], [];
      for n := 0 to |targets|
        invariant With(serverIds, scopeIds) == Synced(targets[..n])
      {
        assert targets[..n + 1][..n] == targets[..n];
        serverIds := AddServers(targets[n].servers, serverIds, scopeIds);
        scopeIds := AddScopes(targets[n].scopes, serverIds, scopeIds);
        AddLeases(targets[n].leases, serverIds, scopeIds);
      }
      assert targets[..|targets|] == targets;
    }
  }

  // ---------- what the targets list ----------

  function NamesListed(targets: seq<Target>): seq<string> {
    if targets == [] then [] else NamesListed(targets[..|targets| - 1]) + targets[|targets| - 1].servers
  }

  /** The scopes whose server has a listed name. */
  function OfListed(keys: seq<Key>, names: seq<string>): seq<Key> {
    if keys == [] then []
    else
      var k := keys[|keys| - 1];
      OfListed(keys[..|keys| - 1], names) + if k.server != "" && k.server in names then [k] else []
  }

  function ScopesListed(targets: seq<Target>): seq<Key> {
    if targets == [] then []
    else ScopesListed(targets[..|targets| - 1]) + OfListed(targets[|targets| - 1].scopes, NamesListed(targets))
  }

  function FirstListed(listed: seq<Key>, name: string): Option<Key> {
    if listed == [] then None
    else
      var f := FirstListed(listed[..|listed| - 1], name);
      if f.Some? then f else if listed[|listed| - 1].scope == name then Some(listed[|listed| - 1]) else None
  }

  /** The lease's own scope is listed; if it has no name, it must be the first listed without one. */
  predicate HasHome(listed: seq<Key>, k: Key) {
    k in listed && (k.scope != "" || FirstListed(listed, "") == Some(k))
  }

  // ---------- the dictionary of listed scopes ----------

  function Entries(listed: seq<Key>): seq<Entry> {
    if listed == [] then [] else Put(Entries(listed[..|listed| - 1]), listed[|listed| - 1], |listed| - 1)
  }

  lemma {:induction false} PutGet(entries: seq<Entry>, key: Key, id: nat, q: Key)
    ensures Get(Put(entries, key, id), q) == if q == key then Some(id) else Get(entries, q)
  {
    if entries != [] && entries[0].key != key {
      PutGet(entries[1..], key, id, q);
      assert Put(entries, key, id)[1..] == Put(entries[1..], key, id);
    } else if entries != [] {
      assert Put(entries, key, id)[1..] == entries[1..];
    }
  }

  lemma {:induction false} PutFirst(entries: seq<Entry>, key: Key, id: nat, name: string)
    ensures var f := FirstNamed(entries, name);
            FirstNamed(Put(entries, key, id), name)
            == if f.Some? && f.value.key != key then f else if key.scope == name then Some(Entry(key, id)) else None
  {
    if entries != [] && entries[0].key != key {
      PutFirst(entries[1..], key, id, name);
      assert Put(entries, key, id)[1..] == Put(entries[1..], key, id);
    } else if entries != [] {
      assert Put(entries, key, id)[1..] == entries[1..];
      if key.scope != name { FirstHasName(entries[1..], name); LaterKeyDiffers(entries, name); }
    }
  }

  lemma {:induction false} FirstHasName(entries: seq<Entry>, name: string)
    ensures var f := FirstNamed(entries, name); f.Some? ==> f.value.key.scope == name
  {
    if entries != [] { FirstHasName(entries[1..], name); }
  }

  lemma LaterKeyDiffers(entries: seq<Entry>, name: string)
    requires entries != [] && entries[0].key.scope != name
    ensures var f := FirstNamed(entries, name);
            f == FirstNamed(entries[1..], name) && (f.Some? ==> f.value.key != entries[0].key)
  {
    FirstHasName(entries[1..], name);
  }

  /** Looking up a listed scope finds a row of that scope, and the first entry of a name is the
      first listed one. */
  lemma {:induction false} EntriesLaw(listed: seq<Key>, q: Key, name: string)
    ensures var id := Get(Entries(listed), q);
            && (id.Some? <==> q in listed)
            && (id.Some? ==> id.value < |listed| && listed[id.value] == q)
    ensures var f, first := FirstNamed(Entries(listed), name), FirstListed(listed, name);
            && (f.Some? <==> first.Some?)
            && (f.Some? ==> f.value.key == first.value && f.value.id < |listed| && listed[f.value.id] == first.value)
    ensures var first := FirstListed(listed, name);
            && (first.Some? ==> first.value in listed && first.value.scope == name)
            && (first.None? ==> forall k :: k in listed ==> k.scope != name)
    decreases |listed|
  {
    if listed != [] {
      var n := |listed| - 1;
      var init := listed[..n];
      EntriesLaw(init, q, name);
      PutGet(Entries(init), listed[n], n, q);
      PutFirst(Entries(init), listed[n], n, name);
      assert listed == init + [listed[n]];
    }
  }

  // ---------- where a lease lands ----------

  /** A lease lands on its own scope exactly when it has a home; otherwise on the scope of its scope name
      that was listed first, if any. Of several rows of that scope it is the last. */
  lemma LandsIff(listed: seq<Key>, k: Key)
    requires forall q :: q in listed ==> q.server != ""
    ensures var id := ScopeFor(Entries(listed), k);
            && (id.None? <==> forall q :: q in listed ==> q.scope != k.scope)
            && (id.Some? ==> id.value < |listed| && listed[id.value].scope == k.scope)
            && (id.Some? && listed[id.value] == k <==> HasHome(listed, k))
            && (id.Some? && !HasHome(listed, k) ==> FirstOfName(listed, listed[id.value]))
            && (id.Some? ==> forall i :: id.value < i < |listed| ==> listed[i] != listed[id.value])
  {
    EntriesLaw(listed, k, k.scope);
    var first := FirstListed(listed, k.scope);
    FirstListedLaw(listed, k.scope);
    LastEntry(listed, k);
    if first.Some? { LastNamed(listed, k.scope); }
  }

  /** No scope listed before the key's first place has its scope name. */
  ghost predicate FirstOfName(listed: seq<Key>, k: Key) {
    exists i :: 0 <= i < |listed| && listed[i] == k && forall j :: 0 <= j < i ==> listed[j].scope != k.scope
  }

  lemma {:induction false} FirstListedLaw(listed: seq<Key>, name: string)
    ensures var f := FirstListed(listed, name);
            f.Some? ==> f.value.scope == name && FirstOfName(listed, f.value)
    decreases |listed|
  {
    if listed != [] {
      var init := listed[..|listed| - 1];
      FirstListedLaw(init, name);
      EntriesLaw(init, Key("", ""), name);
      var f := FirstListed(init, name);
      if f.Some? {
        var i :| 0 <= i < |init| && init[i] == f.value && forall j :: 0 <= j < i ==> init[j].scope != f.value.scope;
        assert listed[i] == f.value && forall j :: 0 <= j < i ==> listed[j] == init[j];
      } else if FirstListed(listed, name).Some? {
        assert forall j :: 0 <= j < |init| ==> init[j] in init && listed[j] == init[j];
        assert listed[|init|] == FirstListed(listed, name).value;
      }
    }
  }

  /** The dictionary holds the last row of each key. */
  lemma {:induction false} LastEntry(listed: seq<Key>, q: Key)
    ensures var id := Get(Entries(listed), q);
            id.Some? ==> id.value < |listed| && forall i :: id.value < i < |listed| ==> listed[i] != q
    decreases |listed|
  {
    if listed != [] {
      var n := |listed| - 1;
      LastEntry(listed[..n], q);
      PutGet(Entries(listed[..n]), listed[n], n, q);
      assert forall i :: 0 <= i < n ==> listed[..n][i] == listed[i];
    }
  }

  lemma {:induction false} LastNamed(listed: seq<Key>, name: string)
    ensures var f := FirstNamed(Entries(listed), name);
            f.Some? ==> f.value.id < |listed| && forall i :: f.value.id < i < |listed| ==> listed[i] != f.value.key
    decreases |listed|
  {
    if listed != [] {
      var n := |listed| - 1;
      LastNamed(listed[..n], name);
      PutFirst(Entries(listed[..n]), listed[n], n, name);
      assert forall i :: 0 <= i < n ==> listed[..n][i] == listed[i];
    }
  }

  /** The scopes listed are those of all targets whose server is named by that target or an earlier one. */
  lemma {:induction false} ListedIff(targets: seq<Target>, k: Key)
    ensures k in ScopesListed(targets) <==> exists n :: 0 <= n < |targets| && ListsScope(targets, n, k)
    decreases |targets|
  {
    hide NamesListed, OfListed;
    if targets != [] {
      var m := |targets| - 1;
      ListedIff(targets[..m], k);
      NamesIff(targets, k.server);
      OfListedIff(targets[m].scopes, NamesListed(targets), k);
      assert ListsScope(targets, m, k) <==> k in OfListed(targets[m].scopes, NamesListed(targets));
      forall n | 0 <= n < m ensures ListsScope(targets[..m], n, k) <==> ListsScope(targets, n, k) {
        SameListing(targets, n, k);
      }
      hide ListsScope;
    }
  }

  lemma SameListing(targets: seq<Target>, n: nat, k: Key)
    requires n < |targets| - 1
    ensures ListsScope(targets[..|targets| - 1], n, k) <==> ListsScope(targets, n, k)
  {
    var init := targets[..|targets| - 1];
    assert forall e :: 0 <= e <= n ==> init[e] == targets[e];
  }

  ghost predicate ListsScope(targets: seq<Target>, n: int, k: Key)
    requires 0 <= n < |targets|
  {
    k.server != "" && k in targets[n].scopes && exists e :: 0 <= e <= n && k.server in targets[e].servers
  }

  lemma {:induction false} NamesIff(targets: seq<Target>, name: string)
    ensures name in NamesListed(targets) <==> exists e :: 0 <= e < |targets| && name in targets[e].servers
    decreases |targets|
  {
    if targets != [] {
      var m := |targets| - 1;
      NamesIff(targets[..m], name);
      assert forall e :: 0 <= e < m ==> targets[..m][e] == targets[e];
    }
  }

  lemma {:induction false} OfListedIff(keys: seq<Key>, names: seq<string>, k: Key)
    ensures k in OfListed(keys, names) <==> k in keys && k.server != "" && k.server in names
    decreases |keys|
  {
    if keys != [] {
      OfListedIff(keys[..|keys| - 1], names, k);
      assert keys == keys[..|keys| - 1] + [keys[|keys| - 1]];
    }
  }

  // ---------- the rewrite keeps its books ----------

  ghost predicate RowFits(s: State, listed: seq<Key>, k: nat)
    requires k < |s.scopes| == |listed|
  {
    s.scopes[k].server < |s.servers| && listed[k] == Key(s.servers[s.scopes[k].server], s.scopes[k].name)
  }

  ghost predicate ServerIdsFit(s: State) {
    && (forall n :: n in s.serverIds <==> n != "" && n in s.servers)
    && (forall n :: n in s.serverIds ==> IsLatest(s.servers, s.serverIds[n], n))
  }

  /** The server row is the last one of that name. */
  ghost predicate IsLatest(servers: seq<string>, id: nat, name: string) {
    id < |servers| && servers[id] == name && forall i :: id < i < |servers| ==> servers[i] != name
  }

  ghost predicate Good(s: State, listed: seq<Key>) {
    && ServerIdsFit(s)
    && |s.scopes| == |listed| && s.scopeIds == Entries(listed)
    && (forall k :: 0 <= k < |listed| ==> RowFits(s, listed, k))
    && (forall q :: q in listed ==> q.server != "")
    && (forall i :: 0 <= i < |s.leases| ==> s.leases[i].scope < |listed|)
  }

  lemma ServerKeepsGood(s: State, listed: seq<Key>, name: string)
    requires Good(s, listed)
    ensures Good(ServerAdded(s, name), listed)
  {
    hide Entries;
    var s' := ServerAdded(s, name);
    forall k | 0 <= k < |listed| ensures RowFits(s', listed, k) { assert RowFits(s, listed, k); }
  }

  lemma {:induction false} ServersKeepGood(s: State, listed: seq<Key>, names: seq<string>)
    requires Good(s, listed)
    ensures var s' := ServersAdded(s, names);
            Good(s', listed) && s'.servers == s.servers + names && s'.leases == s.leases
    decreases |names|
  {
    hide Good;
    if names != [] {
      ServersKeepGood(s, listed, names[..|names| - 1]);
      ServerKeepsGood(ServersAdded(s, names[..|names| - 1]), listed, names[|names| - 1]);
    }
  }

  lemma ScopeKeepsGood(s: State, listed: seq<Key>, k: Key)
    requires Good(s, listed)
    ensures Good(ScopeAdded(s, k), listed + if k.server != "" && k.server in s.servers then [k] else [])
  {
    var s' := ScopeAdded(s, k);
    if k.server != "" && k.server in s.servers {
      var listed' := listed + [k];
      assert listed'[..|listed|] == listed;
      forall i | 0 <= i < |listed'| ensures RowFits(s', listed', i) {
        if i < |listed| { assert RowFits(s, listed, i); }
      }
    } else {
      assert listed + [] == listed;
    }
  }

  /** A scope is stored under the latest server row of its server's name, and dropped when there is none. */
  lemma ScopeTakesLatestServer(s: State, listed: seq<Key>, k: Key)
    requires Good(s, listed)
    ensures var s' := ScopeAdded(s, k);
            if k.server == "" || k.server !in s.servers then s' == s
            else && |s'.scopes| == |s.scopes| + 1 && s'.scopes[..|s.scopes|] == s.scopes
                 && s'.servers == s.servers && s'.leases == s.leases
                 && s'.scopes[|s.scopes|].name == k.scope && IsLatest(s.servers, s'.scopes[|s.scopes|].server, k.server)
  {
    hide Entries, IsLatest;
  }

  lemma {:induction false} ScopesKeepGood(s: State, listed: seq<Key>, keys: seq<Key>)
    requires Good(s, listed)
    ensures var s' := ScopesAdded(s, keys);
            Good(s', listed + OfListed(keys, s.servers)) && s'.servers == s.servers && s'.leases == s.leases
    decreases |keys|
  {
    hide Good;
    if keys == [] {
      assert listed + [] == listed;
    } else {
      var n := |keys| - 1;
      ScopesKeepGood(s, listed, keys[..n]);
      ScopeKeepsGood(ScopesAdded(s, keys[..n]), listed + OfListed(keys[..n], s.servers), keys[n]);
      assert listed + OfListed(keys, s.servers)
          == (listed + OfListed(keys[..n], s.servers)) +
             if keys[n].server != "" && keys[n].server in s.servers then [keys[n]] else [];
    }
  }

  lemma LeaseKeepsGood(s: State, listed: seq<Key>, le: Lease)
    requires Good(s, listed)
    ensures Good(LeaseAdded(s, le), listed)
  {
    hide Entries, ScopeFor;
    LandsIff(listed, le.key);
    var s' := LeaseAdded(s, le);
    forall k | 0 <= k < |listed| ensures RowFits(s', listed, k) { assert RowFits(s, listed, k); }
  }

  lemma {:induction false} LeasesKeepGood(s: State, listed: seq<Key>, leases: seq<Lease>)
    requires Good(s, listed)
    ensures Good(LeasesAdded(s, leases), listed) && LeasesAdded(s, leases).servers == s.servers
    decreases |leases|
  {
    hide Good, ScopeFor;
    if leases != [] {
      LeasesKeepGood(s, listed, leases[..|leases| - 1]);
      LeaseKeepsGood(LeasesAdded(s, leases[..|leases| - 1]), listed, leases[|leases| - 1]);
    }
  }

  /** After any targets, the scope rows are exactly the listed scopes in order, every scope row has its
      server row and every lease row a scope row. */
  lemma {:induction false} SyncedGood(targets: seq<Target>)
    ensures Good(Synced(targets), ScopesListed(targets)) && Synced(targets).servers == NamesListed(targets)
    decreases |targets|
  {
    hide ServersAdded, ScopesAdded, LeasesAdded, OfListed;
    if targets != [] {
      hide Good;
      var n := |targets| - 1;
      var s, t, listed := Synced(targets[..n]), targets[n], ScopesListed(targets[..n]);
      SyncedGood(targets[..n]);
      ServersKeepGood(s, listed, t.servers);
      ScopesKeepGood(ServersAdded(s, t.servers), listed, t.scopes);
      LeasesKeepGood(ScopesAdded(ServersAdded(s, t.servers), t.scopes), ScopesListed(targets), t.leases);
    }
  }

  // ---------- every lease at home ----------

  function LeaseTotal(targets: seq<Target>): nat {
    if targets == [] then 0 else LeaseTotal(targets[..|targets| - 1]) + |targets[|targets| - 1].leases|
  }

  ghost predicate AllHome(s: State, listed: seq<Key>) {
    forall i :: 0 <= i < |s.leases| ==>
                  s.leases[i].scope < |listed| && listed[s.leases[i].scope] == s.leases[i].lease.key
  }

  lemma LeaseHome(s: State, listed: seq<Key>, le: Lease)
    requires Good(s, listed)
    ensures var s' := LeaseAdded(s, le);
            && |s.leases| <= |s'.leases| <= |s.leases| + 1
            && (|s'.leases| == |s.leases| + 1 && AllHome(s', listed) <==> AllHome(s, listed) && HasHome(listed, le.key))
            && (AllHome(s', listed) ==> AllHome(s, listed))
  {
    hide Entries, ScopeFor, HasHome;
    LandsIff(listed, le.key);
    var s' := LeaseAdded(s, le);
    assert forall i :: 0 <= i < |s.leases| ==> s'.leases[i] == s.leases[i];
    if |s'.leases| == |s.leases| + 1 {
      assert s'.leases[|s.leases|] == LeaseRow(ScopeFor(s.scopeIds, le.key).value, le);
    }
  }

  lemma {:induction false} LeasesHome(s: State, listed: seq<Key>, leases: seq<Lease>)
    requires Good(s, listed)
    ensures var s' := LeasesAdded(s, leases);
            && |s.leases| <= |s'.leases| <= |s.leases| + |leases|
            && (|s'.leases| == |s.leases| + |leases| && AllHome(s', listed) <==>
                AllHome(s, listed) && forall i :: 0 <= i < |leases| ==> HasHome(listed, leases[i].key))
            && (AllHome(s', listed) ==> AllHome(s, listed))
    decreases |leases|
  {
    hide Good, AllHome, HasHome, LeaseAdded;
    if leases != [] {
      var n := |leases| - 1;
      LeasesHome(s, listed, leases[..n]);
      LeasesKeepGood(s, listed, leases[..n]);
      LeaseHome(LeasesAdded(s, leases[..n]), listed, leases[n]);
      assert forall i :: 0 <= i < n ==> leases[..n][i] == leases[i];
    }
  }

  /** At the time a target's leases are stored, each of them has a home. */
  ghost predicate TargetHome(targets: seq<Target>, n: int)
    requires 0 <= n < |targets|
  {
    forall i :: 0 <= i < |targets[n].leases| ==> HasHome(ScopesListed(targets[..n + 1]), targets[n].leases[i].key)
  }

  lemma MoreListed(s: State, listed: seq<Key>, more: seq<Key>)
    requires forall i :: 0 <= i < |s.leases| ==> s.leases[i].scope < |listed|
    ensures AllHome(s, listed + more) <==> AllHome(s, listed)
  {
    forall i | 0 <= i < |s.leases| ensures (listed + more)[s.leases[i].scope] == listed[s.leases[i].scope] {}
  }

  ghost predicate TargetsHome(targets: seq<Target>) {
    forall n :: 0 <= n < |targets| ==> TargetHome(targets, n)
  }

  lemma TargetsHomeOneMore(targets: seq<Target>)
    requires targets != []
    ensures var m := |targets| - 1; TargetsHome(targets) <==> TargetsHome(targets[..m]) && TargetHome(targets, m)
  {
    var m := |targets| - 1;
    forall n | 0 <= n < m ensures TargetHome(targets[..m], n) <==> TargetHome(targets, n) {
      assert targets[..m][..n + 1] == targets[..n + 1];
    }
  }

  lemma {:induction false} HomeCount(targets: seq<Target>)
    ensures |Synced(targets).leases| <= LeaseTotal(targets)
    ensures |Synced(targets).leases| == LeaseTotal(targets) && AllHome(Synced(targets), ScopesListed(targets)) <==>
            TargetsHome(targets)
    decreases |targets|
  {
    if targets != [] {
      hide AllHome, TargetHome, TargetsHome, Synced, ScopesListed;
      HomeCount(targets[..|targets| - 1]);
      OneTargetHome(targets);
      TargetsHomeOneMore(targets);
    }
  }

  lemma OneTargetHome(targets: seq<Target>)
    requires targets != []
    ensures var m := |targets| - 1;
            var s, s' := Synced(targets[..m]), Synced(targets);
            && |s.leases| <= |s'.leases| <= |s.leases| + |targets[m].leases|
            && (|s'.leases| == |s.leases| + |targets[m].leases| && AllHome(s', ScopesListed(targets)) <==>
                AllHome(s, ScopesListed(targets[..m])) && TargetHome(targets, m))
            && (AllHome(s', ScopesListed(targets)) ==> AllHome(s, ScopesListed(targets[..m])))
  {
    hide ServersAdded, ScopesAdded, LeasesAdded, OfListed, HasHome, ScopeFor, Entries;
    var m := |targets| - 1;
    var s, t, listed := Synced(targets[..m]), targets[m], ScopesListed(targets[..m]);
    SyncedGood(targets[..m]);
    var more := OfListed(t.scopes, NamesListed(targets));
    ServersKeepGood(s, listed, t.servers);
    var s1 := ServersAdded(s, t.servers);
    ScopesKeepGood(s1, listed, t.scopes);
    var s2 := ScopesAdded(s1, t.scopes);
    MoreListed(s, listed, more);
    assert AllHome(s2, listed + more) <==> AllHome(s, listed + more);
    LeasesHome(s2, listed + more, t.leases);
    assert targets[..m + 1] == targets;
  }

  /** The scope a row is: its server's name and its own. */
  function KeyAt(s: State, k: nat): Key
    requires k < |s.scopes| && s.scopes[k].server < |s.servers|
  {
    Key(s.servers[s.scopes[k].server], s.scopes[k].name)
  }

  /** Over any targets: no lease is dropped and every lease row points to a scope row of the lease's own
      server and scope name exactly when, at the time its target is stored, each lease has a home
      among the scopes listed so far. */
  lemma EveryLeaseHomeIff(targets: seq<Target>)
    ensures var s := Synced(targets);
            && (forall i :: 0 <= i < |s.leases| ==>
                  s.leases[i].scope < |s.scopes| && s.scopes[s.leases[i].scope].server < |s.servers|)
            && (|s.leases| == LeaseTotal(targets) &&
                (forall i :: 0 <= i < |s.leases| ==> KeyAt(s, s.leases[i].scope) == s.leases[i].lease.key)
                <==> TargetsHome(targets))
  {
    hide Synced, ScopesListed, TargetsHome, Entries;
    var s, listed := Synced(targets), ScopesListed(targets);
    SyncedGood(targets);
    HomeCount(targets);
    forall i | 0 <= i < |s.leases|
      ensures s.leases[i].scope < |s.scopes| && s.scopes[s.leases[i].scope].server < |s.servers|
      ensures KeyAt(s, s.leases[i].scope) == listed[s.leases[i].scope]
    {
      assert RowFits(s, listed, s.leases[i].scope);
    }
  }

  /** Two servers, one scope on the first: a lease of the second server's scope of the same name is
      stored under the first server's. */
  lemma LeaseOnForeignScope(a: string, b: string, name: string, address: string)
    requires a != "" && b != "" && a != b && name != ""
    ensures var le := Lease(Key(b, name), address);
            var s := Synced([Target([a, b], [Key(a, name)], [le])]);
            s.leases == [LeaseRow(0, le)] && s.scopes == [ScopeRow(0, name)] && s.servers == [a, b]
  {
    var le := Lease(Key(b, name), address);
    var t := Target([a, b], [Key(a, name)], [le]);
    var s0 := State([], [], [], map[], []);
    var s1 := s0.(servers := [a, b], serverIds := map[a := 0, b := 1]);
    var s2 := s1.(scopes := [ScopeRow(0, name)], scopeIds := [Entry(Key(a, name), 0)]);
    assert ServersAdded(s0, [a, b]) == s1 by {
      assert [a, b][..1] == [a] && [a][..0] == [];
      assert ServersAdded(s0, [a]) == ServerAdded(s0, a);
    }
    assert ScopesAdded(s1, [Key(a, name)]) == s2 by { assert [Key(a, name)][..0] == []; }
    assert LeasesAdded(s2, [le]) == s2.(leases := [LeaseRow(0, le)]) by {
      assert [le][..0] == [];
      assert s2.scopeIds[1..] == [];
      assert Get([], le.key) == None && Get(s2.scopeIds, le.key) == Get(s2.scopeIds[1..], le.key);
      assert ScopeFor(s2.scopeIds, le.key) == Some(0);
    }
    hide ServersAdded, ScopesAdded, LeasesAdded;
    assert [t][..0] == [];
  }
}
