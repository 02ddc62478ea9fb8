/** Connections and the endpoint registry. Texts stand for the contents of C strings. */
module Routing {
  import opened Bytes
  import opened Wrappers

  const MAX_PLUGIN_CONNECTIONS: nat := 32
  const MAX_ENDPOINTS: nat := 32
  const PATH_SIZE: nat := 128
  const PLUGIN_ID_SIZE: nat := 64
  const METHOD_SIZE: nat := 16

  class Conn {
    var pluginId: Option<bytes>

    constructor ()
      ensures pluginId == None
    {
      pluginId := None;
    }
  }

  datatype Endpoint = Endpoint(path: bytes, pluginId: bytes, method_: bytes)

  /** What `snprintf` with `%s` leaves of a text in a field of that size. */
  function Field(s: bytes, size: nat): (r: bytes)
    requires size > 0
    ensures r <= s && |r| == if |s| < size then |s| else size - 1
  {
    if |s| < size then s else s[..size - 1]
  }

  /** Overwriting an element with the last one and dropping the last. */
  function SwapOut<T>(s: seq<T>, k: nat): (r: seq<T>)
    requires k < |s|
    ensures |r| == |s| - 1
  {
    s[k := s[|s| - 1]][..|s| - 1]
  }

  /** The last element takes the place, all others stay where they are. */
  lemma SwapOutAt<T>(s: seq<T>, k: nat, i: nat)
    requires k < |s| && i < |s| - 1
    ensures SwapOut(s, k)[i] == if i == k then s[|s| - 1] else s[i]
  {
  }

  lemma SwapRemove<T>(s: seq<T>, k: nat)
    requires k < |s|
    ensures multiset(SwapOut(s, k)) == multiset(s) - multiset{s[k]}
  {
    var n := |s| - 1;
    var r := SwapOut(s, k);
    assert s == s[..n] + [s[n]];
    if k < n {
      assert s[..n] == s[..k] + [s[k]] + s[k + 1..n];
      assert r == s[..k] + [s[n]] + s[k + 1..n];
    } else {
      assert r == s[..n];
    }
  }

  // ----- what happens to the tables -----

  /** The loop that takes a plugin's entries out, from the `k`-th on. */
  function WithoutEndpoints(s: seq<Endpoint>, pid: bytes, k: nat := 0): seq<Endpoint>
    decreases |s| - k
  {
    if k >= |s| then s
    else if s[k].pluginId == pid then WithoutEndpoints(SwapOut(s, k), pid, k)
    else WithoutEndpoints(s, pid, k + 1)
  }

  /** Exactly the entries of other plugins, each as often as before. */
  ghost predicate WithoutPlugin(now: seq<Endpoint>, before: seq<Endpoint>, pid: Option<bytes>) {
    forall e: Endpoint :: multiset(now)[e] == if pid == Some(e.pluginId) then 0 else multiset(before)[e]
  }

  lemma {:induction false} OthersStay(s: seq<Endpoint>, pid: bytes, k: nat)
    requires k <= |s| && forall i :: 0 <= i < k ==> s[i].pluginId != pid
    ensures WithoutPlugin(WithoutEndpoints(s, pid, k), s, Some(pid))
    decreases |s| - k
  {
    if k < |s| {
      if s[k].pluginId == pid {
        OthersStay(SwapOut(s, k), pid, k);
        SwapRemove(s, k);
      } else {
        OthersStay(s, pid, k + 1);
      }
    } else {
      assert forall e :: e in multiset(s) ==> e in s;
    }
  }

  lemma MembersStay<T>(now: seq<T>, before: seq<T>, x: T)
    requires multiset(now) == multiset(before) - multiset{x}
    ensures forall y :: y in now ==> y in before
  {
    assert forall y :: y in now ==> y in multiset(now);
  }

  lemma WithoutPluginMeans(now: seq<Endpoint>, before: seq<Endpoint>, pid: Option<bytes>)
    requires WithoutPlugin(now, before, pid)
    ensures forall e :: e in now ==> e in before && pid != Some(e.pluginId)
  {
    assert forall e :: e in now ==> e in multiset(now);
    assert forall e :: e in multiset(before) ==> e in before;
  }

  /** The connections' ids and the endpoints, in table order. */
  datatype Table = Table(ids: seq<Option<bytes>>, endpoints: seq<Endpoint>)

  /** What can happen to the server; `at` picks one of the connections. */
  datatype Event =
    | Accept
    | Hello(at: nat, id: Option<bytes>)
    | Register(at: nat, path: Option<bytes>, method_: Option<bytes>)
    | Disconnect(at: nat)

  function Step(t: Table, e: Event): Table {
    match e
    case Accept => if |t.ids| < MAX_PLUGIN_CONNECTIONS then t.(ids := t.ids + [None]) else t
    case Hello(at, id) => if at < |t.ids| && id.Some? then t.(ids := t.ids[at := id]) else t
    case Register(at, path, method_) =>
      if at < |t.ids| && t.ids[at].Some? && path.Some? && method_.Some? && |t.endpoints| < MAX_ENDPOINTS
        then t.(endpoints := t.endpoints + [NewEndpoint(t.ids[at].value, path.value, method_.value)])
        else t
    case Disconnect(at) =>
      if at < |t.ids|
        then Table(SwapOut(t.ids, at),
                   if t.ids[at].Some? then WithoutEndpoints(t.endpoints, t.ids[at].value) else t.endpoints)
        else t
  }

  function NewEndpoint(id: bytes, path: bytes, method_: bytes): Endpoint {
    Endpoint(Field(path, PATH_SIZE), Field(id, PLUGIN_ID_SIZE), Field(method_, METHOD_SIZE))
  }

  function Run(t: Table, events: seq<Event>): Table {
    if events == [] then t else Step(Run(t, events[..|events| - 1]), events[|events| - 1])
  }

  /** A connection says hello at most once, with an id that fits its field. */
  predicate Allowed(t: Table, e: Event) {
    e.Hello? && e.at < |t.ids| && e.id.Some? ==> t.ids[e.at] == None && |e.id.value| < PLUGIN_ID_SIZE
  }

  ghost predicate Disciplined(t: Table, events: seq<Event>) {
    forall n :: 0 <= n < |events| ==> Allowed(Run(t, events[..n]), events[n])
  }

  class Server {
    const conns: array<Conn?>
    var connCount: nat
    const registry: array<Endpoint>
    var registryCount: nat

    constructor ()
      ensures Valid() && Connections() == [] && Endpoints() == [] && fresh(conns) && fresh(registry)
    {
      conns := new Conn?[MAX_PLUGIN_CONNECTIONS](i => null);
      registry := new Endpoint[MAX_ENDPOINTS](i => Endpoint([], [], []));
      connCount, registryCount := 0, 0;
    }

    ghost predicate Valid()
      reads this, conns
    {
      && conns.Length == MAX_PLUGIN_CONNECTIONS && connCount <= conns.Length
      && registry.Length == MAX_ENDPOINTS && registryCount <= registry.Length
      && (forall i :: 0 <= i < connCount ==> conns[i] != null)
      && (forall i, j :: 0 <= i < j < connCount ==> conns[i] != conns[j])
    }

    ghost function Connections(): seq<Conn?>
      requires Valid()
      reads this, conns
    {
      conns[..connCount]
    }

    ghost function Endpoints(): seq<Endpoint>
      requires Valid()
      reads this, conns, registry
    {
      registry[..registryCount]
    }

    ghost predicate Names(c: Conn?, id: bytes)
      reads c
    {
      c != null && c.pluginId == Some(id)
    }

    ghost predicate Connected(id: bytes)
      requires Valid()
      reads this, conns, conns[..]
    {
      exists c :: c in Connections() && Names(c, id)
    }

    /** Every endpoint names a plugin that is connected. */
    ghost predicate Routed()
      requires Valid()
      reads this, conns, conns[..], registry
    {
      forall e :: e in Endpoints() ==> Connected(e.pluginId)
    }

    /** All ids fit their field in the registry. */
    ghost predicate ShortIds()
      requires Valid()
      reads this, conns, conns[..]
    {
      forall c, id :: c in Connections() && Names(c, id) ==> |id| < PLUGIN_ID_SIZE
    }

    ghost function Ids(cs: seq<Conn?>): (r: seq<Option<bytes>>)
      reads cs
      ensures |r| == |cs|
      ensures forall i :: 0 <= i < |cs| ==> r[i] == if cs[i] == null then None else cs[i].pluginId
    {
      if cs == [] then []
      else
        var c := cs[|cs| - 1];
        Ids(cs[..|cs| - 1]) + [if c == null then None else c.pluginId]
    }

    ghost function Tables(): Table
      requires Valid()
      reads this, conns, conns[..], registry
    {
      Table(Ids(Connections()), Endpoints())
    }

    /** `handle_new_connection` */
    method HandleNewConnection() returns (accepted: bool, c: Conn)
      requires Valid()
      modifies this`connCount, conns
      ensures Valid() && fresh(c) && c.pluginId == None
      ensures accepted <==> old(connCount) < MAX_PLUGIN_CONNECTIONS
      ensures Connections() == old(Connections()) + if accepted then [c] else []
      ensures Endpoints() == old(Endpoints()) && (old(Routed()) ==> Routed())
      ensures old(ShortIds()) ==> ShortIds()
    {
      c := new Conn();
      accepted := connCount < MAX_PLUGIN_CONNECTIONS;
      if accepted {
        conns[connCount] := c;
        connCount := connCount + 1;
        assert Connections() == old(Connections()) + [c];
      }
      if old(Routed()) {
        forall e | e in Endpoints()
          ensures Connected(e.pluginId)
        {
          assert old(Connected(e.pluginId));
          var d :| d in old(Connections()) && old(Names(d, e.pluginId));
          assert d in Connections() && Names(d, e.pluginId);
        }
      }
    }

    /** Saying hello under `id`, this connection gives up another id under which endpoints are registered and which
        no other connection has. */
    ghost predicate WouldLeave(c: Conn, id: Option<bytes>)
      requires Valid()
      reads this, conns, conns[..], registry, c
    {
      && id.Some? && c.pluginId.Some? && id != c.pluginId
      && (exists e :: e in Endpoints() && Some(e.pluginId) == c.pluginId)
      && (forall d :: d in Connections() && d != c && d != null ==> d.pluginId != c.pluginId)
    }

    /** `cmd_hello_handler`. Endpoints go on naming connected plugins exactly unless that is so. */
    method CmdHello(c: Conn, id: Option<bytes>)
      requires Valid() && c in Connections()
      modifies c`pluginId
      ensures Valid() && c.pluginId == if id.Some? then id else old(c.pluginId)
      ensures Endpoints() == old(Endpoints()) && Connections() == old(Connections())
      ensures old(Routed()) ==> (Routed() <==> !old(WouldLeave(c, id)))
      ensures old(ShortIds()) && (id.Some? ==> |id.value| < PLUGIN_ID_SIZE) ==> ShortIds()
    {
      if id.Some? {
        c.pluginId := id;
      }
      if old(Routed()) && !old(WouldLeave(c, id)) {
        forall e | e in Endpoints()
          ensures Connected(e.pluginId)
        {
          assert old(Connected(e.pluginId));
          var d :| d in old(Connections()) && old(Names(d, e.pluginId));
          if d == c && !Names(c, e.pluginId) {
            var f :| f in Connections() && f != c && f != null && old(f.pluginId) == old(c.pluginId);
            assert Names(f, e.pluginId);
          } else {
            assert Names(d, e.pluginId);
          }
        }
      }
      if old(WouldLeave(c, id)) {
        var e :| e in Endpoints() && Some(e.pluginId) == old(c.pluginId);
        assert !Connected(e.pluginId);
      }
    }

    /** The guard of `cmd_register_endpoint_handler`. */
    predicate WouldAdd(c: Conn, path: Option<bytes>, method_: Option<bytes>)
      reads this`registryCount, c
    {
      c.pluginId.Some? && path.Some? && method_.Some? && registryCount < MAX_ENDPOINTS
    }

    /** `cmd_register_endpoint_handler`. Endpoints go on naming connected plugins exactly unless one is added and
        what its field leaves of the id is nobody's. */
    method CmdRegisterEndpoint(c: Conn, path: Option<bytes>, method_: Option<bytes>) returns (added: bool)
      requires Valid() && c in Connections()
      modifies this`registryCount, registry
      ensures Valid() && Connections() == old(Connections())
      ensures added == old(WouldAdd(c, path, method_))
      ensures Endpoints() == old(Endpoints()) +
                if !added then [] else [NewEndpoint(c.pluginId.value, path.value, method_.value)]
      ensures old(Routed()) ==>
                (Routed() <==> !old(WouldAdd(c, path, method_)) ||
                               old(WouldAdd(c, path, method_) && Connected(Field(c.pluginId.value, PLUGIN_ID_SIZE))))
      ensures old(ShortIds()) ==> ShortIds() && (old(Routed()) ==> Routed())
    {
      var from := c.pluginId;
      added := false;
      if from.None? {
        return;
      }
      assert Names(c, from.value);
      if method_.Some? && path.Some? && registryCount < 32 {
        var idx := registryCount;
        registryCount := registryCount + 1;
        registry[idx] := NewEndpoint(from.value, path.value, method_.value);
        added := true;
        assert Endpoints() == old(Endpoints()) + [registry[idx]];
      }
    }

    /** An entry is overwritten by the last one. */
    method RemoveEntry(k: nat)
      requires Valid() && k < registryCount
      modifies this`registryCount, registry
      ensures Valid() && registryCount == old(registryCount) - 1
      ensures Endpoints() == SwapOut(old(Endpoints()), k)
    {
      registryCount := registryCount - 1;
      registry[k] := registry[registryCount];
    }

    method RemoveConn(k: nat)
      requires Valid() && k < connCount
      modifies this`connCount, conns
      ensures Valid() && connCount == old(connCount) - 1
      ensures Connections() == SwapOut(old(Connections()), k)
    {
      conns[k] := conns[connCount - 1];
      connCount := connCount - 1;
    }

    /** The loop over the registry. */
    method RemoveEndpoints(pid: bytes)
      requires Valid()
      modifies this`registryCount, registry
      ensures Valid() && Endpoints() == WithoutEndpoints(old(Endpoints()), pid)
    {
      hide SwapOut;
      var k: nat := 0;
      while k < registryCount
        modifies this`registryCount, registry
        invariant Valid() && k <= registryCount
        invariant WithoutEndpoints(Endpoints(), pid, k) == WithoutEndpoints(old(Endpoints()), pid)
        decreases registryCount - k
      {
        assert Endpoints()[k] == registry[k];
        if registry[k].pluginId == pid {
          RemoveEntry(k);
        } else {
          k := k + 1;
        }
      }
    }

    /** `disconnect_client`: the connection and the endpoints of its plugin are gone, and nothing else is.
        A connection the server does not know changes nothing. */
    method DisconnectClient(conn: Conn)
      requires Valid()
      modifies this`connCount, this`registryCount, conns, registry
      ensures Valid()
      ensures conn !in old(Connections()) ==> Connections() == old(Connections()) && Endpoints() == old(Endpoints())
      ensures multiset(Connections()) == old(multiset(Connections())) - multiset{conn}
      ensures forall k :: 0 <= k < old(connCount) && old(conns[k]) == conn ==>
                Connections() == SwapOut(old(Connections()), k)
      ensures conn in old(Connections()) ==>
                && WithoutPlugin(Endpoints(), old(Endpoints()), conn.pluginId)
                && Endpoints() == if conn.pluginId.Some? then WithoutEndpoints(old(Endpoints()), conn.pluginId.value)
                                  else old(Endpoints())
      ensures old(Routed()) ==> Routed()
      ensures forall c :: c in Connections() ==> c in old(Connections())
      ensures old(ShortIds()) ==> ShortIds()
    {
      hide WithoutPlugin, WithoutEndpoints, SwapOut;
      var connIdx := IndexOf(conn);
      if connIdx >= 0 {
        Drop(conn, connIdx);
      }
      if conn in old(Connections()) && old(Routed()) {
        WithoutPluginMeans(Endpoints(), old(Endpoints()), conn.pluginId);
        forall e | e in Endpoints()
          ensures Connected(e.pluginId)
        {
          assert old(Connected(e.pluginId));
          var d :| d in old(Connections()) && old(Names(d, e.pluginId));
          assert d in old(multiset(Connections())) && Names(d, e.pluginId);
          assert d in multiset(Connections());
        }
      }
    }

    /** A connection that was found leaves. */
    method Drop(conn: Conn, connIdx: nat)
      requires Valid() && connIdx < connCount && conns[connIdx] == conn
      modifies this`connCount, this`registryCount, conns, registry
      ensures Valid()
      ensures multiset(Connections()) == old(multiset(Connections())) - multiset{conn}
      ensures Connections() == SwapOut(old(Connections()), connIdx)
      ensures forall k :: 0 <= k < old(connCount) && old(conns[k]) == conn ==> k == connIdx
      ensures forall c :: c in Connections() ==> c in old(Connections())
      ensures WithoutPlugin(Endpoints(), old(Endpoints()), conn.pluginId)
      ensures Endpoints() == if conn.pluginId.Some? then WithoutEndpoints(old(Endpoints()), conn.pluginId.value)
                             else old(Endpoints())
    {
      hide WithoutPlugin, WithoutEndpoints, SwapOut;
      var pid := conn.pluginId;
      if pid.Some? {
        OthersStay(Endpoints(), pid.value, 0);
        RemoveEndpoints(pid.value);
      } else {
        NoPluginNoChange(Endpoints());
      }
      assert Connections()[connIdx] == conns[connIdx];
      SwapRemove(Connections(), connIdx);
      ghost var before := Connections();
      RemoveConn(connIdx);
      MembersStay(Connections(), before, conn);
    }

    /** The first connection of that id. */
    method FindConn(id: bytes) returns (target: Conn?)
      requires Valid()
      ensures target != null ==> target in Connections() && Names(target, id)
      ensures target == null <==> !Connected(id)
    {
      target := null;
      for j := 0 to connCount
        invariant forall l :: 0 <= l < j ==> !Names(conns[l], id)
      {
        var pid := conns[j].pluginId;
        if pid == Some(id) {
          target := conns[j];
          return;
        }
      }
    }

    ghost predicate FirstServing(i: int, target: Conn, path: bytes, method_: bytes)
      requires Valid()
      reads this, conns, conns[..], registry, target
    {
      && 0 <= i < registryCount && Serves(registry[i], path, method_) && Names(target, registry[i].pluginId)
      && forall k :: 0 <= k < i && Serves(registry[k], path, method_) ==> !Connected(registry[k].pluginId)
    }

    /** The lookup of `http_async_handler`: a connection of the first entry of that path and method whose
        plugin is connected. */
    method Lookup(path: bytes, method_: bytes) returns (target: Conn?)
      requires Valid()
      ensures target == null <==> forall e :: e in Endpoints() && Serves(e, path, method_) ==> !Connected(e.pluginId)
      ensures target != null ==> target in Connections() && exists i :: FirstServing(i, target, path, method_)
      ensures Routed() ==> (target == null <==> forall e :: e in Endpoints() ==> !Serves(e, path, method_))
    {
      target := null;
      for i := 0 to registryCount
        invariant target == null
        invariant forall k :: 0 <= k < i && Serves(registry[k], path, method_) ==> !Connected(registry[k].pluginId)
      {
        if registry[i].path == path && registry[i].method_ == method_ {
          target := FindConn(registry[i].pluginId);
          if target != null {
            assert FirstServing(i, target, path, method_);
            assert registry[i] in Endpoints() && Connected(registry[i].pluginId);
            return;
          }
        }
      }
      forall e | e in Endpoints() && Serves(e, path, method_)
        ensures !Connected(e.pluginId)
      {
        var i :| 0 <= i < registryCount && registry[i] == e;
      }
    }

    method IndexOf(conn: Conn) returns (connIdx: int)
      requires Valid()
      ensures connIdx == -1 || (0 <= connIdx < connCount && conns[connIdx] == conn)
      ensures connIdx == -1 <==> conn !in Connections()
    {
      connIdx := -1;
      for j := 0 to connCount
        invariant conn !in conns[..j]
      {
        if conns[j] == conn {
          connIdx := j;
          return;
        }
      }
    }
  }

  lemma NoPluginNoChange(s: seq<Endpoint>)
    ensures WithoutPlugin(s, s, None)
  {
  }

  predicate Serves(e: Endpoint, path: bytes, method_: bytes) {
    e.path == path && e.method_ == method_
  }

  // ----- runs -----

  /** Every endpoint names an id that a connection has: what `Routed` says of the tables. */
  ghost predicate RoutedTable(t: Table) {
    forall e :: e in t.endpoints ==> Some(e.pluginId) in t.ids
  }

  lemma RoutedByTable(s: Server)
    requires s.Valid()
    ensures s.Routed() <==> RoutedTable(s.Tables())
  {
    var cs, ids := s.Connections(), s.Tables().ids;
    forall id
      ensures s.Connected(id) <==> Some(id) in ids
    {
      if s.Connected(id) {
        var c :| c in cs && s.Names(c, id);
        var i :| 0 <= i < |cs| && cs[i] == c;
        assert ids[i] == Some(id);
      }
      if Some(id) in ids {
        var i :| 0 <= i < |ids| && ids[i] == Some(id);
        assert s.Names(cs[i], id);
      }
    }
  }

  method OnAccept(s: Server)
    requires s.Valid()
    modifies s`connCount, s.conns
    ensures s.Valid() && s.Tables() == Step(old(s.Tables()), Accept)
    ensures old(s.Routed()) && old(s.ShortIds()) ==> s.Routed() && s.ShortIds()
    ensures forall c :: c in s.Connections() ==> c in old(s.Connections()) || fresh(c)
  {
    hide Server.Routed, Server.ShortIds;
    ghost var t := s.Tables();
    var _, _ := s.HandleNewConnection();
    assert s.Tables().ids == Step(t, Accept).ids;
  }

  method OnHello(s: Server, at: nat, id: Option<bytes>)
    requires s.Valid() && at < s.connCount
    modifies set c | c in s.Connections()
    ensures s.Valid() && s.Tables() == Step(old(s.Tables()), Hello(at, id)) && s.Connections() == old(s.Connections())
    ensures old(s.Routed()) && old(s.ShortIds()) && Allowed(old(s.Tables()), Hello(at, id)) ==>
              s.Routed() && s.ShortIds()
  {
    hide Server.Routed, Server.ShortIds;
    ghost var t := s.Tables();
    assert s.Connections()[at] == s.conns[at];
    s.CmdHello(s.conns[at], id);
    assert s.Tables().ids == Step(t, Hello(at, id)).ids;
  }

  method OnRegister(s: Server, at: nat, path: Option<bytes>, method_: Option<bytes>)
    requires s.Valid() && at < s.connCount
    modifies s`registryCount, s.registry
    ensures s.Valid() && s.Tables() == Step(old(s.Tables()), Register(at, path, method_))
    ensures s.Connections() == old(s.Connections())
    ensures old(s.Routed()) && old(s.ShortIds()) ==> s.Routed() && s.ShortIds()
  {
    hide Server.Routed, Server.ShortIds;
    assert s.Connections()[at] == s.conns[at];
    var _ := s.CmdRegisterEndpoint(s.conns[at], path, method_);
  }

  method OnDisconnect(s: Server, at: nat)
    requires s.Valid() && at < s.connCount
    modifies s`connCount, s`registryCount, s.conns, s.registry
    ensures s.Valid() && s.Tables() == Step(old(s.Tables()), Disconnect(at))
    ensures old(s.Routed()) && old(s.ShortIds()) ==> s.Routed() && s.ShortIds()
    ensures forall c :: c in s.Connections() ==> c in old(s.Connections())
  {
    hide Server.Routed, Server.ShortIds, WithoutEndpoints, WithoutPlugin, SwapOut, Server.Ids;
    ghost var t, cs := s.Tables(), s.Connections();
    assert cs[at] == s.conns[at];
    assert t.ids[at] == s.conns[at].pluginId;
    s.DisconnectClient(s.conns[at]);
    IdsSwapped(s, cs, at);
    assert s.Connections() == SwapOut(cs, at);
    assert s.Ids(cs) == t.ids;
  }

  lemma IdsSwapped(s: Server, cs: seq<Conn?>, at: nat)
    requires at < |cs|
    ensures s.Ids(SwapOut(cs, at)) == SwapOut(s.Ids(cs), at)
  {
  }

  /** One event does to the tables what `Step` says. Under the discipline every endpoint goes on naming a connected
      plugin. */
  method Handle(s: Server, event: Event)
    requires s.Valid()
    modifies s, s.conns, s.registry, set c | c in s.Connections()
    ensures s.Valid() && s.Tables() == Step(old(s.Tables()), event)
    ensures old(s.Routed()) && old(s.ShortIds()) && Allowed(old(s.Tables()), event) ==> s.Routed() && s.ShortIds()
    ensures forall c :: c in s.Connections() ==> c in old(s.Connections()) || fresh(c)
  {
    hide Server.Routed, Server.ShortIds, Server.Ids, WithoutEndpoints, SwapOut;
    match event {
      case Accept =>
        OnAccept(s);
      case Hello(at, id) =>
        if at < s.connCount {
          OnHello(s, at, id);
        }
      case Register(at, path, method_) =>
        if at < s.connCount {
          OnRegister(s, at, path, method_);
        }
      case Disconnect(at) =>
        if at < s.connCount {
          OnDisconnect(s, at);
        }
    }
  }

  /** Any run from the start: the tables are what the events make of them, connections are distinct and at most 32,
      and under the discipline every endpoint names a connected plugin. */
  method Serve(events: seq<Event>) returns (s: Server)
    ensures fresh(s) && fresh(s.conns) && fresh(s.registry)
    ensures s.Valid() && s.Tables() == Run(Table([], []), events)
    ensures s.Routed() <==> RoutedTable(Run(Table([], []), events))
    ensures Disciplined(Table([], []), events) ==> s.Routed() && s.ShortIds()
  {
    hide Server.Routed, Server.ShortIds, Step, Allowed, Server.Tables, RoutedTable;
    s := new Server();
    NothingYet(s);
    for n := 0 to |events|
      invariant fresh(s) && fresh(s.conns) && fresh(s.registry) && s.Valid()
      invariant forall c :: c in s.Connections() ==> fresh(c)
      invariant s.Tables() == Run(Table([], []), events[..n])
      invariant Disciplined(Table([], []), events) ==> s.Routed() && s.ShortIds()
    {
      Handle(s, events[n]);
      assert events[..n + 1][..n] == events[..n];
    }
    assert events[..|events|] == events;
    RoutedByTable(s);
  }

  lemma NothingYet(s: Server)
    requires s.Valid() && s.Connections() == [] && s.Endpoints() == []
    ensures s.Tables() == Table([], []) && s.Routed() && s.ShortIds()
  {
  }

  // ----- registering and looking up -----

  /** What a row of the registry has room for. */
  predicate IsRow(e: Endpoint) {
    |e.path| < PATH_SIZE && |e.pluginId| < PLUGIN_ID_SIZE && |e.method_| < METHOD_SIZE
  }

  predicate AreRows(s: seq<Endpoint>) {
    forall e :: e in s ==> IsRow(e)
  }

  lemma StepKeepsRows(t: Table, e: Event)
    requires AreRows(t.endpoints)
    ensures AreRows(Step(t, e).endpoints)
  {
    hide SwapOut, WithoutEndpoints, WithoutPlugin;
    if e.Disconnect? && e.at < |t.ids| && t.ids[e.at].Some? {
      var pid := t.ids[e.at];
      OthersStay(t.endpoints, pid.value, 0);
      WithoutPluginMeans(WithoutEndpoints(t.endpoints, pid.value), t.endpoints, pid);
    }
  }

  /** After any run every row of the registry fits its fields. */
  lemma {:induction false} RunKeepsRows(events: seq<Event>)
    ensures AreRows(Run(Table([], []), events).endpoints)
  {
    hide Step, AreRows;
    if events == [] {
      assert AreRows([]) by { NoRows(); }
    } else {
      var before := events[..|events| - 1];
      RunKeepsRows(before);
      StepKeepsRows(Run(Table([], []), before), events[|events| - 1]);
    }
  }

  lemma NoRows()
    ensures AreRows([])
  {
  }

  /** A plugin registers an endpoint, and a request for it comes. */
  method RegisterThenLookup(s: Server, c: Conn, path: bytes, method_: bytes) returns (added: bool, target: Conn?)
    requires s.Valid() && c in s.Connections() && AreRows(s.Endpoints())
    requires c.pluginId.Some? && |c.pluginId.value| < PLUGIN_ID_SIZE
    modifies s`registryCount, s.registry
    ensures added <==> old(|s.Endpoints()|) < MAX_ENDPOINTS
    ensures added ==> (target != null <==> |path| < PATH_SIZE && |method_| < METHOD_SIZE)
    ensures added && target != null && (forall e :: e in old(s.Endpoints()) ==> !Serves(e, path, method_)) ==>
              target.pluginId == c.pluginId
  {
    hide Server.Routed, Server.ShortIds;
    ghost var before := s.Endpoints();
    added := s.CmdRegisterEndpoint(c, Some(path), Some(method_));
    target := s.Lookup(path, method_);
    if added {
      ghost var e := NewEndpoint(c.pluginId.value, path, method_);
      assert s.Endpoints() == before + [e];
      assert e in s.Endpoints() && s.Names(c, e.pluginId);
      if target != null {
        ghost var i :| s.FirstServing(i, target, path, method_);
        assert s.Endpoints()[i] == s.registry[i];
        assert i < |before| ==> before[i] in before;
      }
    }
  }

  /** After any run, a plugin with an id that fits registers an endpoint: a request for its path and method is then
      handed on if and only if both fit their fields, and to that plugin unless an earlier entry serves it. */
  method RegisterAndLookup(events: seq<Event>, at: nat, path: bytes, method_: bytes)
    returns (added: bool, target: Conn?)
    requires var t := Run(Table([], []), events);
             at < |t.ids| && t.ids[at].Some? && |t.ids[at].value| < PLUGIN_ID_SIZE
    ensures added <==> |Run(Table([], []), events).endpoints| < 32
    ensures added ==> (target != null <==> |path| < 128 && |method_| < 16)
    ensures var t := Run(Table([], []), events);
            added && target != null && (forall e :: e in t.endpoints ==> !Serves(e, path, method_)) ==>
              target.pluginId == t.ids[at]
  {
    hide Server.Routed, Server.ShortIds, RoutedTable, Run, Disciplined, AreRows, Serves;
    var s := Serve(events);
    RunKeepsRows(events);
    assert s.Connections()[at] == s.conns[at];
    added, target := RegisterThenLookup(s, s.conns[at], path, method_);
  }

  // ----- what the discipline is for -----

  lemma RunMore(t: Table, events: seq<Event>, e: Event)
    ensures Run(t, events + [e]) == Step(Run(t, events), e)
  {
    assert (events + [e])[..|events|] == events;
  }

  /** One connection that says hello, registers an endpoint and says hello again. */
  function HelloTwice(first: bytes, second: bytes): seq<Event> {
    [Accept] + [Hello(0, Some(first))] + [Register(0, Some([47]), Some([71]))] + [Hello(0, Some(second))]
  }

  lemma AfterHelloTwice(first: bytes, second: bytes)
    ensures Run(Table([], []), HelloTwice(first, second)) ==
            Table([Some(second)], [Endpoint([47], Field(first, PLUGIN_ID_SIZE), [71])])
  {
    var t := Table([], []);
    var events := [Accept] + [Hello(0, Some(first))];
    assert [] + [Accept] == [Accept];
    RunMore(t, [], Accept);
    assert Run(t, [Accept]) == Table([None], []);
    RunMore(t, [Accept], Hello(0, Some(first)));
    assert Run(t, events) == Table([Some(first)], []);
    RunMore(t, events, Register(0, Some([47]), Some([71])));
    RunMore(t, events + [Register(0, Some([47]), Some([71]))], Hello(0, Some(second)));
    assert Run(t, events + [Register(0, Some([47]), Some([71]))]).endpoints ==
           [Endpoint([47], Field(first, PLUGIN_ID_SIZE), [71])];
  }

  /** A second hello under another id leaves an endpoint that names nobody. */
  lemma SecondHello()
    ensures !RoutedTable(Run(Table([], []), HelloTwice([97], [98])))
  {
    AfterHelloTwice([97], [98]);
    assert Endpoint([47], [97], [71]) in [Endpoint([47], Field([97], PLUGIN_ID_SIZE), [71])];
  }

  /** So does an id of 64 bytes, which the registry cuts, even if it never changes. */
  lemma LongId()
    ensures !RoutedTable(Run(Table([], []), HelloTwice(Repeat(97, 64), Repeat(97, 64))))
  {
    var id := Repeat(97, 64);
    AfterHelloTwice(id, id);
    var e := Endpoint([47], Field(id, PLUGIN_ID_SIZE), [71]);
    assert e in [e] && |e.pluginId| == 63;
  }
}
