/**
 Reconciliation of live SMPP clients with the configured upstreams:
 internal/smpp/manager.go and the life of a client in internal/smpp/client.go.
 */
module Manager {
  import opened Bytes
  import opened Sorting
  import opened Submit

  /** The active upstreams by name; a later entry replaces an earlier one of the same name. */
  function Desired(upstreams: seq<Upstream>): map<text, Upstream> {
    if upstreams == [] then map[]
    else
      var u := upstreams[|upstreams| - 1];
      var before := Desired(upstreams[..|upstreams| - 1]);
      if u.active then before[u.name := u] else before
  }

  /** A client with this configuration is wanted as it is. */
  predicate Kept(cfg: Config, desired: map<text, Upstream>, name: text) {
    name in desired && SameRuntimeConfig(cfg, desired[name])
  }

  /** What each name is served with after a refresh: the old configuration when it is the same one, else a new one. */
  function Reconciled(live: map<text, Config>, upstreams: seq<Upstream>): map<text, Config> {
    var desired := Desired(upstreams);
    map n | n in desired ::
      if n in live && Kept(live[n], desired, n) then live[n] else ConfigOf(desired[n])
  }

  lemma KeptWanted(cfg: Config, desired: map<text, Upstream>, name: text)
    ensures Kept(cfg, desired, name) ==> name in desired
  {
  }

  /** A client: its configuration never changes, the rest does. */
  class Client {
    const cfg: Config
    /** The background loop is running. */
    var running: bool
    /** How often the session was closed. */
    var closes: nat
    /** The upstream name its delivery receipts are reported under, when they are reported. */
    var reportsAs: Option<text>

    constructor (upstream: Upstream)
      ensures cfg == ConfigOf(upstream)
      ensures !running && closes == 0 && reportsAs == None
    {
      cfg := ConfigOf(upstream);
      running, closes, reportsAs := false, 0, None;
    }

    method Start()
      modifies `running
      ensures running
    {
      running := true;
    }

    method Close()
      modifies `running, `closes
      ensures !running && closes == old(closes) + 1
    {
      running, closes := false, closes + 1;
    }

    method SetDeliveryReceiptHandler(name: Option<text>)
      modifies `reportsAs
      ensures reportsAs == name
    {
      reportsAs := name;
    }
  }

  /** No object serves two names. */
  ghost predicate Distinct(clients: map<text, Client>) {
    forall a, b | a in clients && b in clients && clients[a] == clients[b] :: a == b
  }

  lemma DistinctFrom(clients: map<text, Client>, name: text)
    requires Distinct(clients) && name in clients
    ensures forall n | n in clients && n != name :: clients[n] != clients[name]
  {
  }

  lemma DistinctAdded(clients: map<text, Client>, name: text, client: Client)
    requires Distinct(clients) && client !in clients.Values
    ensures Distinct(clients[name := client])
  {
  }

  lemma DistinctPart(clients: map<text, Client>, part: map<text, Client>)
    requires Distinct(clients) && forall n | n in part :: n in clients && part[n] == clients[n]
    ensures Distinct(part)
  {
  }

  class Manager {
    var clients: map<text, Client>
    var order: seq<text>
    /** Start has been called. */
    var started: bool
    /** A receipt handler is set. */
    var hasHandler: bool

    /**
     The order is the sorted list of names; no client serves two names; each
     client was built from an upstream, runs once the manager does, and reports
     receipts under its own name exactly when there is a handler.
     */
    ghost predicate Valid()
      reads this, clients.Values
    {
      && order == Ascending(TextLe, clients.Keys)
      && Distinct(clients)
      && (forall n | n in clients :: Attached(n, clients[n]))
    }

    ghost predicate Attached(name: text, client: Client)
      reads `started, `hasHandler, client
    {
      && (exists u :: client.cfg == ConfigOf(u))
      && (started ==> client.running)
      && client.reportsAs == if hasHandler then Some(name) else None
    }

    /** A client just built for this upstream. */
    ghost predicate Ready(name: text, client: Client, upstream: Upstream)
      reads `started, `hasHandler, client
    {
      client.cfg == ConfigOf(upstream) && client.closes == 0 && Attached(name, client)
    }

    /** The configuration each name is served with. */
    ghost function Configs(): map<text, Config>
      reads this
    {
      map n | n in clients :: clients[n].cfg
    }

    constructor ()
      ensures Valid() && clients == map[] && !started && !hasHandler
    {
      clients, order, started, hasHandler := map[], [], false, false;
      new;
      TextOrder();
      AscendingMembers(TextLe, {});
    }

    /** The entries of the snapshot that are active, by name. */
    method CollectDesired(upstreams: seq<Upstream>) returns (desired: map<text, Upstream>)
      ensures desired == Desired(upstreams)
    {
      desired := map[];
      var i := 0;
      while i < |upstreams|
        invariant 0 <= i <= |upstreams|
        invariant desired == Desired(upstreams[..i])
      {
        assert upstreams[..i + 1][..i] == upstreams[..i];
        if upstreams[i].active {
          desired := desired[upstreams[i].name := upstreams[i]];
        }
        i := i + 1;
      }
      assert upstreams[..i] == upstreams;
    }

    /** Closes and lets go of every client that is not wanted as it is. */
    method DropStale(desired: map<text, Upstream>)
      requires Distinct(clients)
      modifies `clients, clients.Values
      ensures forall n :: n in clients <==> n in old(clients) && Kept(old(clients)[n].cfg, desired, n)
      ensures forall n | n in clients :: clients[n] == old(clients)[n]
      ensures forall n | n in old(clients) ::
                if Kept(old(clients)[n].cfg, desired, n) then unchanged(old(clients)[n])
                else old(clients)[n].closes == old(clients[n].closes) + 1 && !old(clients)[n].running
    {
      hide Kept, Distinct;
      ghost var before := clients;
      var left := clients.Keys;
      while left != {}
        invariant left <= before.Keys
        invariant forall n :: n in clients <==> n in before && (n in left || Kept(before[n].cfg, desired, n))
        invariant forall n | n in clients :: clients[n] == before[n]
        invariant forall n | n in before ::
                    if n in left || Kept(before[n].cfg, desired, n) then unchanged(before[n])
                    else before[n].closes == old(before[n].closes) + 1 && !before[n].running
        decreases left
      {
        var name :| name in left;
        left := left - {name};
        DistinctFrom(before, name);
        if !Kept(clients[name].cfg, desired, name) {
          clients[name].Close();
          clients := clients - {name};
        }
      }
    }

    /** A new client, reporting and running as the manager does. */
    method Activate(name: text, upstream: Upstream) returns (client: Client)
      ensures fresh(client) && Ready(name, client, upstream)
    {
      hide ConfigOf;
      client := new Client(upstream);
      if hasHandler {
        client.SetDeliveryReceiptHandler(Some(name));
      }
      if started {
        client.Start();
      }
    }

    /** Builds a client for the name unless it has one. */
    method Provide(name: text, upstream: Upstream)
      requires Distinct(clients)
      modifies `clients
      ensures Distinct(clients) && name in clients
      ensures forall n | n != name :: n in clients <==> n in old(clients)
      ensures forall n | n in old(clients) :: clients[n] == old(clients)[n]
      ensures name !in old(clients) ==> fresh(clients[name]) && Ready(name, clients[name], upstream)
    {
      hide Ready, Distinct;
      if name !in clients {
        var client := Activate(name, upstream);
        DistinctAdded(clients, name, client);
        clients := clients[name := client];
      }
    }

    /** Builds a client for every wanted name that has none; the names come in map order. */
    method AddMissing(desired: map<text, Upstream>) returns (names: seq<text>)
      requires Distinct(clients)
      requires forall n | n in clients :: n in desired
      modifies `clients
      ensures Enumerates(names, desired.Keys)
      ensures clients.Keys == desired.Keys
      ensures forall n | n in old(clients) :: clients[n] == old(clients)[n]
      ensures forall n | n in clients && n !in old(clients) :: fresh(clients[n]) && Ready(n, clients[n], desired[n])
      ensures Distinct(clients)
    {
      ghost var before := clients;
      ghost var done := {};
      names := [];
      assert Enumerates(names, done);
      hide Ready, Distinct, Enumerates;
      var left := desired.Keys;
      while left != {}
        invariant done !! left && done + left == desired.Keys
        invariant Enumerates(names, done)
        invariant forall n :: n in clients <==> n in before || n in done
        invariant forall n | n in before :: clients[n] == before[n]
        invariant forall n | n in clients && n !in before :: fresh(clients[n]) && Ready(n, clients[n], desired[n])
        invariant Distinct(clients)
        decreases left
      {
        var name :| name in left;
        left := left - {name};
        Provide(name, desired[name]);
        EnumerateOneMore(names, done, name);
        done := done + {name};
        names := names + [name];
      }
    }

    /** Closes the stale clients, then builds the missing ones. */
    method Replace(desired: map<text, Upstream>) returns (names: seq<text>)
      requires Distinct(clients)
      modifies `clients, clients.Values
      ensures Enumerates(names, desired.Keys) && Distinct(clients) && clients.Keys == desired.Keys
      ensures forall n | n in old(clients) ::
                if Kept(old(clients)[n].cfg, desired, n) then
                  n in clients && clients[n] == old(clients)[n] && unchanged(old(clients)[n])
                else
                  && old(clients)[n].closes == old(clients[n].closes) + 1 && !old(clients)[n].running
                  && old(clients)[n] !in clients.Values
      ensures forall n | n in clients && !(n in old(clients) && Kept(old(clients)[n].cfg, desired, n)) ::
                fresh(clients[n]) && Ready(n, clients[n], desired[n])
    {
      hide Kept, Ready, Distinct, Enumerates;
      ghost var before := clients;
      DropStale(desired);
      forall n | n in clients ensures n in desired {
        KeptWanted(clients[n].cfg, desired, n);
      }
      DistinctPart(before, clients);
      names := AddMissing(desired);
      forall n, m | n in before && !Kept(before[n].cfg, desired, n) && m in clients ensures clients[m] != before[n] {
        DistinctFrom(before, n);
      }
    }

    /** Brings the clients in line with the active upstreams. */
    method Refresh(upstreams: seq<Upstream>)
      requires Valid()
      modifies `clients, `order, clients.Values
      ensures Valid()
      ensures clients.Keys == Desired(upstreams).Keys
      ensures Configs() == Reconciled(old(Configs()), upstreams)
      // A client that is wanted as it is stays the same object, untouched; any other is closed once and let go.
      ensures forall n | n in old(clients) ::
                if Kept(old(clients)[n].cfg, Desired(upstreams), n) then
                  n in clients && clients[n] == old(clients)[n] && unchanged(old(clients)[n])
                else
                  && old(clients)[n].closes == old(clients[n].closes) + 1 && !old(clients)[n].running
                  && old(clients)[n] !in clients.Values
      // Every other client is new.
      ensures forall n | n in clients && !(n in old(clients) && Kept(old(clients)[n].cfg, Desired(upstreams), n)) ::
                fresh(clients[n]) && Ready(n, clients[n], Desired(upstreams)[n])
    {
      hide Kept, Attached, ConfigOf, Ascending, Distinct, Enumerates, TotalOrder, Sort;
      var desired := CollectDesired(upstreams);
      var names := Replace(desired);
      TextOrder();
      SortedEnumeration(TextLe, names, desired.Keys);
      order := Sort(TextLe, names);
      hide Desired;
    }

    method Names() returns (names: seq<text>)
      requires Valid()
      ensures names == Ascending(TextLe, clients.Keys)
    {
      names := order;
    }

    /** The client of the least active name; there is one exactly when there is any client. */
    method Default() returns (r: Result<Client>)
      requires Valid()
      ensures r.Err? <==> clients == map[]
      ensures r.Ok? ==> exists n :: n in clients && clients[n] == r.value && forall m | m in clients :: TextLe(n, m)
    {
      TextOrder();
      AscendingMembers(TextLe, clients.Keys);
      AscendingShape(TextLe, clients.Keys);
      if order == [] {
        assert forall n :: n in clients ==> n in order;
        return Err(NotFound);
      }
      assert order[0] in clients;
      forall m | m in clients ensures TextLe(order[0], m) {
        TextLeTotal(m, m);
        var k :| 0 <= k < |order| && order[k] == m;
      }
      r := Ok(clients[order[0]]);
    }

    method Get(name: text) returns (client: Option<Client>)
      ensures client == if name in clients then Some(clients[name]) else None
    {
      client := if name in clients then Some(clients[name]) else None;
    }

    /** From now on every client, present or future, reports under its own name, or none does. */
    method SetDeliveryReceiptHandler(present: bool)
      requires Valid()
      modifies `hasHandler, clients.Values`reportsAs
      ensures Valid() && hasHandler == present
    {
      hide ConfigOf, Ascending;
      hasHandler := present;
      var left := clients.Keys;
      while left != {}
        invariant left <= clients.Keys && hasHandler == present
        invariant forall n | n in clients ::
                    (exists u :: clients[n].cfg == ConfigOf(u)) && (started ==> clients[n].running)
        invariant forall n | n in clients && n !in left :: clients[n].reportsAs == if present then Some(n) else None
        decreases left
      {
        var name :| name in left;
        left := left - {name};
        DistinctFrom(clients, name);
        clients[name].SetDeliveryReceiptHandler(if present then Some(name) else None);
      }
    }

    /** Every client runs, and so will every later one. */
    method Start()
      requires Valid()
      modifies `started, clients.Values`running
      ensures Valid() && started
    {
      hide ConfigOf, Ascending;
      started := true;
      var left := clients.Keys;
      while left != {}
        invariant left <= clients.Keys && started
        invariant forall n | n in clients ::
                    && (exists u :: clients[n].cfg == ConfigOf(u))
                    && clients[n].reportsAs == if hasHandler then Some(n) else None
        invariant forall n | n in clients && n !in left :: clients[n].running
        decreases left
      {
        var name :| name in left;
        left := left - {name};
        clients[name].Start();
      }
    }

    /** Closes every client once and keeps none. */
    method Close()
      requires Valid()
      modifies `clients, `order, clients.Values
      ensures Valid() && clients == map[]
      ensures forall n | n in old(clients) ::
              old(clients)[n].closes == old(clients[n].closes) + 1 && !old(clients)[n].running
    {
      hide Ascending, Distinct, Attached;
      ghost var before := clients;
      var left := clients.Keys;
      while left != {}
        invariant left <= before.Keys && forall n :: n in clients <==> n in left
        invariant forall n | n in clients :: clients[n] == before[n] && unchanged(before[n])
        invariant forall n | n in before && n !in left ::
                    before[n].closes == old(before[n].closes) + 1 && !before[n].running
        decreases left
      {
        var name :| name in left;
        left := left - {name};
        DistinctFrom(before, name);
        clients[name].Close();
        clients := clients - {name};
      }
      assert clients == map[] && clients.Keys == {};
      DistinctPart(before, clients);
      assert Ascending(TextLe, {}) == [] by {
        TextOrder();
        AscendingMembers(TextLe, {});
      }
      order := [];
    }

    /** The clients are those a refresh with this snapshot would leave. */
    ghost predicate InSync(upstreams: seq<Upstream>)
      reads `clients
    {
      clients.Keys == Desired(upstreams).Keys && forall n | n in clients :: Kept(clients[n].cfg, Desired(upstreams), n)
    }

    /** Starts, then refreshes with each snapshot in turn; one that changes nothing leaves every client alone. */
    method StartAutoRefresh(snapshots: seq<seq<Upstream>>)
      requires Valid()
      modifies this, clients.Values
      ensures Valid() && started
      ensures Configs() == ConfigsAfter(old(Configs()), snapshots)
      ensures (forall s | s in snapshots :: old(InSync(s))) ==>
                && clients == old(clients) && order == old(order)
                && forall n | n in clients :: clients[n].closes == old(clients[n].closes)
    {
      hide Kept, Attached, ConfigOf, Ascending, Distinct, Desired, Reconciled;
      ghost var before := clients;
      Start();
      var i := 0;
      while i < |snapshots|
        invariant 0 <= i <= |snapshots|
        invariant Valid() && started
        invariant forall n | n in clients :: clients[n] in before.Values || fresh(clients[n])
        invariant Configs() == ConfigsAfter(old(Configs()), snapshots[..i])
        invariant (forall s | s in snapshots :: old(InSync(s))) ==>
                    && clients == before && order == old(order)
                    && forall n | n in clients :: clients[n].closes == old(before[n].closes)
      {
        assert snapshots[..i + 1][..i] == snapshots[..i];
        assert snapshots[i] in snapshots;
        Refresh(snapshots[i]);
        i := i + 1;
      }
      assert snapshots[..i] == snapshots;
    }
  }

  /** The configurations after refreshing with each snapshot in turn. */
  function ConfigsAfter(live: map<text, Config>, snapshots: seq<seq<Upstream>>): map<text, Config> {
    if snapshots == [] then live
    else Reconciled(ConfigsAfter(live, snapshots[..|snapshots| - 1]), snapshots[|snapshots| - 1])
  }

  /** Every configuration came from some upstream. */
  ghost predicate Built(live: map<text, Config>) {
    forall n | n in live :: exists u :: live[n] == ConfigOf(u)
  }

  /** Which entry counts for a name: the last active one. */
  lemma {:induction false} DesiredIsLastActive(upstreams: seq<Upstream>, name: text)
    ensures name in Desired(upstreams) <==>
            exists i :: 0 <= i < |upstreams| && upstreams[i].active && upstreams[i].name == name
    ensures name in Desired(upstreams) ==>
              exists i :: && 0 <= i < |upstreams| && upstreams[i] == Desired(upstreams)[name]
                          && upstreams[i].active && upstreams[i].name == name
                          && forall j | i < j < |upstreams| && upstreams[j].active :: upstreams[j].name != name
    decreases |upstreams|
  {
    if upstreams != [] {
      var init := upstreams[..|upstreams| - 1];
      DesiredIsLastActive(init, name);
      assert forall i | 0 <= i < |init| :: init[i] == upstreams[i];
      var u := upstreams[|upstreams| - 1];
      if u.active && u.name == name {
      } else if name in Desired(upstreams) {
        var i :| && 0 <= i < |init| && init[i] == Desired(init)[name] && init[i].active && init[i].name == name
                 && forall j | i < j < |init| && init[j].active :: init[j].name != name;
        assert upstreams[i] == Desired(upstreams)[name];
      }
    }
  }

  /** A second refresh with the same snapshot changes nothing. */
  lemma ReconciledTwice(live: map<text, Config>, upstreams: seq<Upstream>)
    ensures Reconciled(Reconciled(live, upstreams), upstreams) == Reconciled(live, upstreams)
    ensures forall n | n in Desired(upstreams) :: Kept(Reconciled(live, upstreams)[n], Desired(upstreams), n)
  {
    forall n | n in Desired(upstreams) ensures Kept(Reconciled(live, upstreams)[n], Desired(upstreams), n) {
      FreshConfigMatches(Desired(upstreams)[n]);
    }
  }

  lemma {:induction false} ConfigsStayBuilt(live: map<text, Config>, snapshots: seq<seq<Upstream>>)
    requires Built(live)
    ensures Built(ConfigsAfter(live, snapshots))
    decreases |snapshots|
  {
    hide ConfigOf, Kept, Desired;
    if snapshots != [] {
      ConfigsStayBuilt(live, snapshots[..|snapshots| - 1]);
    }
  }

  /**
   After any run of refreshes the names served are those active in the last
   snapshot, and each submits exactly as a client newly built for its entry there: what that
   entry is to get.
   */
  lemma ServedAsConfigured(live: map<text, Config>, snapshots: seq<seq<Upstream>>, name: text,
                           sourceAddr: text, msisdn: text, sequence: SmppCodec.uint32, payload: bytes)
    requires Built(live) && snapshots != []
    ensures var served, last := ConfigsAfter(live, snapshots), Desired(snapshots[|snapshots| - 1]);
            && served.Keys == last.Keys
            && (name in last ==> SubmitSM(served[name], sourceAddr, msisdn, sequence, payload) ==
                                 SubmitSM(ConfigOf(last[name]), sourceAddr, msisdn, sequence, payload))
            && (name in last ==> AsksFor(SubmitSM(served[name], sourceAddr, msisdn, sequence, payload), last[name],
                                         sourceAddr, msisdn, sequence, payload))
  {
    hide Desired, SubmitSM, ConfigOf, SameRuntimeConfig, AsksFor;
    var init := snapshots[..|snapshots| - 1];
    var last := Desired(snapshots[|snapshots| - 1]);
    ConfigsStayBuilt(live, init);
    var before := ConfigsAfter(live, init);
    if name in last {
      FreshConfigMatches(last[name]);
      SubmitsAsAsked(last[name], last[name], sourceAddr, msisdn, sequence, payload);
    }
    if name in last && name in before && Kept(before[name], last, name) {
      var built :| before[name] == ConfigOf(built);
      KeptClientSubmitsTheSame(built, last[name], sourceAddr, msisdn, sequence, payload);
    }
  }
}
