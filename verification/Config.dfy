/** The configuration after parsing: the cascade of defaults, and the index from port and name to server. */
module Config {
  import opened Wrappers

  /** A value of the configuration, and whether it is only the built-in default. */
  datatype Setting<T> = Setting(value: T, isDefault: bool)

  type Methods = map<string, bool>

  datatype CgiHandler = CgiHandler(extensions: seq<string>, executor: string, methods: Methods)

  datatype Location = Location(
    ref: string,
    root: string,
    allowed: Setting<Methods>,
    autoIndex: Setting<bool>,
    clientMaxBodySize: Setting<nat>,
    cgis: seq<CgiHandler>)

  datatype Server = Server(
    names: seq<string>,
    ports: seq<nat>,
    allowed: Setting<Methods>,
    autoIndex: Setting<bool>,
    clientMaxBodySize: Setting<nat>,
    cgis: seq<CgiHandler>,
    locations: seq<Location>)

  // ---------- cascade ----------

  /** The first explicit value of a list of levels, the nearest level first. */
  function FirstExplicit<T>(levels: seq<Setting<T>>): Option<T> {
    if levels == [] then None else if !levels[0].isDefault then Some(levels[0].value) else FirstExplicit(levels[1..])
  }

  /** What a level ends up with: the nearest explicit value, or what it was built with. */
  function Resolved<T>(levels: seq<Setting<T>>): Setting<T>
    requires levels != []
  {
    match FirstExplicit(levels)
    case None => levels[0]
    case Some(v) => Setting(v, false)
  }

  /** One level down: an explicit value replaces a default. */
  function Inherit<T>(own: Setting<T>, outer: Setting<T>): Setting<T> {
    if !outer.isDefault && own.isDefault then Setting(outer.value, false) else own
  }

  lemma InheritResolves<T>(own: Setting<T>, middle: Setting<T>, outer: Setting<T>)
    ensures Inherit(own, outer) == Resolved([own, outer])
    ensures Inherit(own, Inherit(middle, outer)) == Resolved([own, middle, outer])
  {
    assert [own, outer][1..] == [outer] && [outer][1..] == [];
    assert [own, middle, outer][1..] == [middle, outer] && [middle, outer][1..] == [outer];
    assert FirstExplicit([outer]) == if outer.isDefault then None else Some(outer.value);
    assert FirstExplicit([middle, outer]) == if middle.isDefault then FirstExplicit([outer]) else Some(middle.value);
  }

  /** The nearest explicit value wins; without one the level keeps what it was built with. */
  lemma {:induction false} NearestExplicitWins<T>(levels: seq<Setting<T>>, k: nat)
    requires levels != [] && k <= |levels| && forall i :: 0 <= i < k ==> levels[i].isDefault
    ensures k < |levels| && !levels[k].isDefault ==> Resolved(levels) == Setting(levels[k].value, false)
    ensures k == |levels| ==> Resolved(levels) == levels[0]
  {
    ExplicitAt(levels, k);
  }

  lemma {:induction false} ExplicitAt<T>(levels: seq<Setting<T>>, k: nat)
    requires k <= |levels| && forall i :: 0 <= i < k ==> levels[i].isDefault
    ensures k < |levels| && !levels[k].isDefault ==> FirstExplicit(levels) == Some(levels[k].value)
    ensures k == |levels| ==> FirstExplicit(levels) == None
    decreases k
  {
    if k > 0 {
      ExplicitAt(levels[1..], k - 1);
    }
  }

  /** The settings of the main block. */
  datatype Globals = Globals(allowed: Setting<Methods>, autoIndex: Setting<bool>, clientMaxBodySize: Setting<nat>)

  /** `after` is the location `before` of server `s`, with every default replaced by the nearest explicit value. */
  predicate LocationResolved(before: Location, after: Location, s: Server, g: Globals) {
    && after.allowed == Resolved([before.allowed, s.allowed, g.allowed])
    && after.autoIndex == Resolved([before.autoIndex, s.autoIndex, g.autoIndex])
    && after.clientMaxBodySize == Resolved([before.clientMaxBodySize, s.clientMaxBodySize, g.clientMaxBodySize])
    && after.cgis == (if before.cgis != [] then before.cgis else s.cgis)
    && after.ref == before.ref && after.root == before.root
  }

  predicate ServerResolved(before: Server, after: Server, g: Globals) {
    && after.allowed == Resolved([before.allowed, g.allowed])
    && after.autoIndex == Resolved([before.autoIndex, g.autoIndex])
    && after.clientMaxBodySize == Resolved([before.clientMaxBodySize, g.clientMaxBodySize])
    && after.names == before.names && after.ports == before.ports && after.cgis == before.cgis
    && |after.locations| == |before.locations|
    && forall i :: 0 <= i < |before.locations| ==> LocationResolved(before.locations[i], after.locations[i], before, g)
  }

  predicate AllResolved(before: seq<Server>, after: seq<Server>, g: Globals) {
    |after| == |before| && forall i :: 0 <= i < |before| ==> ServerResolved(before[i], after[i], g)
  }

  /** Three levels: what each of them decides. */
  lemma ThreeLevels<T>(own: Setting<T>, middle: Setting<T>, outer: Setting<T>)
    ensures !own.isDefault ==> Resolved([own, middle, outer]) == own
    ensures own.isDefault && !middle.isDefault ==> Resolved([own, middle, outer]) == Setting(middle.value, false)
    ensures own.isDefault && middle.isDefault && !outer.isDefault ==>
              Resolved([own, middle, outer]) == Setting(outer.value, false)
    ensures own.isDefault && middle.isDefault && outer.isDefault ==> Resolved([own, middle, outer]) == own
    ensures Resolved([own, outer]) == if own.isDefault && !outer.isDefault then Setting(outer.value, false) else own
  {
    var levels := [own, middle, outer];
    hide Resolved;
    NearestExplicitWins(levels, 0);
    NearestExplicitWins([own, outer], 0);
    if own.isDefault {
      NearestExplicitWins(levels, 1);
      NearestExplicitWins([own, outer], 1);
      if outer.isDefault {
        NearestExplicitWins([own, outer], 2);
      }
      if middle.isDefault {
        NearestExplicitWins(levels, 2);
        if outer.isDefault {
          NearestExplicitWins(levels, 3);
        }
      }
    }
  }

  /** What the cascade leaves in a location: its own explicit value, the server's, the main block's, or its default. */
  lemma LocationGets(before: seq<Server>, after: seq<Server>, g: Globals, i: nat, j: nat)
    requires AllResolved(before, after, g) && i < |before| && j < |before[i].locations|
    ensures i < |after| && j < |after[i].locations|
    ensures var l, s, v := before[i].locations[j], before[i], after[i].locations[j].clientMaxBodySize.value;
            v == if !l.clientMaxBodySize.isDefault then l.clientMaxBodySize.value
                 else if !s.clientMaxBodySize.isDefault then s.clientMaxBodySize.value
                 else if !g.clientMaxBodySize.isDefault then g.clientMaxBodySize.value
                 else l.clientMaxBodySize.value
    ensures var l, s, v := before[i].locations[j], before[i], after[i].locations[j].autoIndex.value;
            v == if !l.autoIndex.isDefault then l.autoIndex.value
                 else if !s.autoIndex.isDefault then s.autoIndex.value
                 else if !g.autoIndex.isDefault then g.autoIndex.value
                 else l.autoIndex.value
    ensures var l, s, v := before[i].locations[j], before[i], after[i].locations[j].allowed.value;
            v == if !l.allowed.isDefault then l.allowed.value
                 else if !s.allowed.isDefault then s.allowed.value
                 else if !g.allowed.isDefault then g.allowed.value
                 else l.allowed.value
    ensures after[i].locations[j].cgis ==
            if before[i].locations[j].cgis != [] then before[i].locations[j].cgis else before[i].cgis
  {
    var l, s := before[i].locations[j], before[i];
    assert ServerResolved(before[i], after[i], g);
    assert LocationResolved(l, after[i].locations[j], s, g);
    hide Resolved;
    ThreeLevels(l.clientMaxBodySize, s.clientMaxBodySize, g.clientMaxBodySize);
    ThreeLevels(l.autoIndex, s.autoIndex, g.autoIndex);
    ThreeLevels(l.allowed, s.allowed, g.allowed);
  }

  /** And in a server. */
  lemma ServerGets(before: seq<Server>, after: seq<Server>, g: Globals, i: nat)
    requires AllResolved(before, after, g) && i < |before|
    ensures |after| == |before|
    ensures var s, v := before[i], after[i].clientMaxBodySize.value;
            v == if s.clientMaxBodySize.isDefault && !g.clientMaxBodySize.isDefault then g.clientMaxBodySize.value
                 else s.clientMaxBodySize.value
    ensures var s, v := before[i], after[i].autoIndex.value;
            v == if s.autoIndex.isDefault && !g.autoIndex.isDefault then g.autoIndex.value else s.autoIndex.value
    ensures var s, v := before[i], after[i].allowed.value;
            v == if s.allowed.isDefault && !g.allowed.isDefault then g.allowed.value else s.allowed.value
  {
    var s := before[i];
    assert ServerResolved(before[i], after[i], g);
    hide Resolved;
    ThreeLevels(s.clientMaxBodySize, s.clientMaxBodySize, g.clientMaxBodySize);
    ThreeLevels(s.autoIndex, s.autoIndex, g.autoIndex);
    ThreeLevels(s.allowed, s.allowed, g.allowed);
  }

  lemma ResolvedAgain<T>(own: Setting<T>, middle: Setting<T>, outer: Setting<T>)
    ensures Resolved([Resolved([own, outer]), outer]) == Resolved([own, outer])
    ensures Resolved([Resolved([own, middle, outer]), Resolved([middle, outer]), outer]) ==
            Resolved([own, middle, outer])
  {
    InheritResolves(own, middle, outer);
    InheritResolves(middle, own, outer);
    InheritResolves(Resolved([own, outer]), middle, outer);
    InheritResolves(Resolved([own, middle, outer]), Resolved([middle, outer]), outer);
    hide Resolved;
  }

  lemma LocationResolvedAgain(a: Location, b: Location, c: Location, s: Server, s': Server, g: Globals)
    requires LocationResolved(a, b, s, g) && ServerResolved(s, s', g) && LocationResolved(b, c, s', g)
    ensures c == b
  {
    ResolvedAgain(a.allowed, s.allowed, g.allowed);
    ResolvedAgain(a.autoIndex, s.autoIndex, g.autoIndex);
    ResolvedAgain(a.clientMaxBodySize, s.clientMaxBodySize, g.clientMaxBodySize);
    hide Resolved;
  }

  lemma ServerResolvedAgain(a: Server, b: Server, c: Server, g: Globals)
    requires ServerResolved(a, b, g) && ServerResolved(b, c, g)
    ensures c == b
  {
    ResolvedAgain(a.allowed, a.allowed, g.allowed);
    ResolvedAgain(a.autoIndex, a.autoIndex, g.autoIndex);
    ResolvedAgain(a.clientMaxBodySize, a.clientMaxBodySize, g.clientMaxBodySize);
    hide Resolved;
    forall i | 0 <= i < |b.locations| ensures c.locations[i] == b.locations[i] {
      LocationResolvedAgain(a.locations[i], b.locations[i], c.locations[i], a, b, g);
    }
    hide LocationResolved;
    assert c.locations == b.locations;
  }

  /** Applying the cascade twice changes nothing more. */
  lemma CascadeIsIdempotent(a: seq<Server>, b: seq<Server>, c: seq<Server>, g: Globals)
    requires AllResolved(a, b, g) && AllResolved(b, c, g)
    ensures c == b
  {
    forall i | 0 <= i < |b| ensures c[i] == b[i] {
      ServerResolvedAgain(a[i], b[i], c[i], g);
    }
    hide ServerResolved;
  }

  // ---------- index ----------

  /** The first server from `from` on that listens on the port, or |servers|. */
  function FirstOnPort(servers: seq<Server>, port: nat, from: nat := 0): (k: nat)
    requires from <= |servers|
    ensures from <= k <= |servers|
    ensures k < |servers| ==> port in servers[k].ports
    ensures forall j :: from <= j < k ==> port !in servers[j].ports
    decreases |servers| - from
  {
    if from == |servers| || port in servers[from].ports then from else FirstOnPort(servers, port, from + 1)
  }

  /** The first server from `from` on that listens on the port under the name, or |servers|. */
  function FirstNamed(servers: seq<Server>, port: nat, name: string, from: nat := 0): (k: nat)
    requires from <= |servers|
    ensures from <= k <= |servers|
    ensures k < |servers| ==> port in servers[k].ports && name in servers[k].names
    ensures forall j :: from <= j < k ==> !(port in servers[j].ports && name in servers[j].names)
    decreases |servers| - from
  {
    if from == |servers| || (port in servers[from].ports && name in servers[from].names) then from
    else FirstNamed(servers, port, name, from + 1)
  }

  predicate NoDuplicates(s: seq<nat>) {
    forall i, j :: 0 <= i < j < |s| ==> s[i] != s[j]
  }

  /** A map from port to server holds, for the servers before number `n`, exactly what the linear scan finds. */
  ghost predicate PortsIndexed(servers: seq<Server>, n: nat, index: map<nat, nat>)
    requires n <= |servers|
  {
    forall p: nat :: (p in index <==> FirstOnPort(servers, p) < n) &&
      (p in index ==> index[p] == FirstOnPort(servers, p))
  }

  ghost predicate NamesIndexed(servers: seq<Server>, n: nat, index: map<(nat, string), nat>)
    requires n <= |servers|
  {
    forall p: nat, m: string ::
      ((p, m) in index <==> FirstNamed(servers, p, m) < n) &&
        ((p, m) in index ==> index[(p, m)] == FirstNamed(servers, p, m))
  }

  /** `after` is `before` with `i` entered for the keys that `wanted` describes and that were not there yet. */
  ghost predicate PortsEntered(before: map<nat, nat>, after: map<nat, nat>, wanted: seq<nat>, i: nat) {
    forall p: nat ::
      && (p in after <==> p in before || p in wanted)
      && (p in after ==> after[p] == if p in before then before[p] else i)
  }

  ghost predicate NamesEntered(before: map<(nat, string), nat>, after: map<(nat, string), nat>, wanted: seq<nat>,
                               names: seq<string>, i: nat) {
    forall p: nat, m: string ::
      && ((p, m) in after <==> (p, m) in before || (p in wanted && m in names))
      && ((p, m) in after ==> after[(p, m)] == if (p, m) in before then before[(p, m)] else i)
  }

  lemma PortsIndexGrows(servers: seq<Server>, i: nat, before: map<nat, nat>, after: map<nat, nat>)
    requires i < |servers| && PortsIndexed(servers, i, before) && PortsEntered(before, after, servers[i].ports, i)
    ensures PortsIndexed(servers, i + 1, after)
  {
    forall p: nat
      ensures (p in after <==> FirstOnPort(servers, p) < i + 1) && (p in after ==> after[p] == FirstOnPort(servers, p))
    {
      assert p in before <==> FirstOnPort(servers, p) < i;
    }
  }

  lemma NamesIndexGrows(servers: seq<Server>, i: nat, before: map<(nat, string), nat>, after: map<(nat, string), nat>)
    requires i < |servers| && NamesIndexed(servers, i, before) &&
             NamesEntered(before, after, servers[i].ports, servers[i].names, i)
    ensures NamesIndexed(servers, i + 1, after)
  {
    forall p: nat, m: string
      ensures ((p, m) in after <==> FirstNamed(servers, p, m) < i + 1) &&
              ((p, m) in after ==> after[(p, m)] == FirstNamed(servers, p, m))
    {
      assert (p, m) in before <==> FirstNamed(servers, p, m) < i;
    }
  }

  class MainConfig {
    var servers: seq<Server>
    var globals: Globals
    var portsToServers: map<nat, nat>
    var portsNamesToServers: map<(nat, string), nat>
    var ports: seq<nat>

    constructor (servers: seq<Server>, globals: Globals)
      ensures this.servers == servers && this.globals == globals
      ensures portsToServers == map[] && portsNamesToServers == map[] && ports == []
    {
      this.servers, this.globals := servers, globals;
      portsToServers, portsNamesToServers, ports := map[], map[], [];
    }

    method OverrideDefaults()
      modifies this`servers
      ensures AllResolved(old(servers), servers, globals)
    {
      for i := 0 to |servers|
        invariant |servers| == |old(servers)|
        invariant forall k :: 0 <= k < i ==> ServerResolved(old(servers)[k], servers[k], globals)
        invariant forall k :: i <= k < |servers| ==> servers[k] == old(servers)[k]
      {
        var server := ResolveServer(servers[i], globals);
        servers := servers[i := server];
      }
    }

    static method ResolveServer(before: Server, g: Globals) returns (s: Server)
      ensures ServerResolved(before, s, g)
    {
      s := before.(autoIndex := Inherit(before.autoIndex, g.autoIndex),
                   clientMaxBodySize := Inherit(before.clientMaxBodySize, g.clientMaxBodySize),
                   allowed := Inherit(before.allowed, g.allowed));
      InheritResolves(before.autoIndex, before.autoIndex, g.autoIndex);
      InheritResolves(before.clientMaxBodySize, before.clientMaxBodySize, g.clientMaxBodySize);
      InheritResolves(before.allowed, before.allowed, g.allowed);
      hide Resolved, Inherit;
      for i := 0 to |s.locations|
        invariant s == before.(autoIndex := s.autoIndex, clientMaxBodySize := s.clientMaxBodySize,
                  allowed := s.allowed, locations := s.locations)
        invariant s.autoIndex == Inherit(before.autoIndex, g.autoIndex) &&
                  s.allowed == Inherit(before.allowed, g.allowed)
        invariant s.clientMaxBodySize == Inherit(before.clientMaxBodySize, g.clientMaxBodySize)
        invariant |s.locations| == |before.locations|
        invariant forall k :: 0 <= k < i ==> LocationResolved(before.locations[k], s.locations[k], before, g)
        invariant forall k :: i <= k < |s.locations| ==> s.locations[k] == before.locations[k]
      {
        var l := s.locations[i];
        InheritResolves(l.autoIndex, before.autoIndex, g.autoIndex);
        InheritResolves(l.clientMaxBodySize, before.clientMaxBodySize, g.clientMaxBodySize);
        InheritResolves(l.allowed, before.allowed, g.allowed);
        l := l.(allowed := Inherit(l.allowed, s.allowed),
                clientMaxBodySize := Inherit(l.clientMaxBodySize, s.clientMaxBodySize),
                autoIndex := Inherit(l.autoIndex, s.autoIndex),
                cgis := if s.cgis != [] && l.cgis == [] then s.cgis else l.cgis);
        s := s.(locations := s.locations[i := l]);
      }
    }

    /** The index agrees with the linear scans of the servers before number `n`. */
    ghost predicate Indexed(n: nat)
      requires n <= |servers|
      reads this
    {
      && PortsIndexed(servers, n, portsToServers) && NamesIndexed(servers, n, portsNamesToServers)
      && (forall p: nat :: p in ports <==> p in portsToServers)
      && NoDuplicates(ports)
    }

    method SetServerNameAndPortArrays()
      requires portsToServers == map[] && portsNamesToServers == map[] && ports == []
      modifies this`portsToServers, this`portsNamesToServers, this`ports
      ensures Indexed(|servers|)
    {
      for i := 0 to |servers|
        invariant Indexed(i)
      {
        ghost var before, namesBefore := portsToServers, portsNamesToServers;
        EnterPorts(i, servers[i].ports, servers[i].names);
        PortsIndexGrows(servers, i, before, portsToServers);
        NamesIndexGrows(servers, i, namesBefore, portsNamesToServers);
        hide PortsIndexed, NamesIndexed, PortsEntered, NamesEntered;
      }
    }

    /** The entries of one server: what is already there stays. */
    method EnterPorts(i: nat, wanted: seq<nat>, names: seq<string>)
      requires NoDuplicates(ports) && forall p: nat :: p in ports <==> p in portsToServers
      modifies this`portsToServers, this`portsNamesToServers, this`ports
      ensures PortsEntered(old(portsToServers), portsToServers, wanted, i)
      ensures NamesEntered(old(portsNamesToServers), portsNamesToServers, wanted, names, i)
      ensures NoDuplicates(ports) && forall p: nat :: p in ports <==> p in portsToServers
    {
      for j := 0 to |wanted|
        invariant PortsEntered(old(portsToServers), portsToServers, wanted[..j], i)
        invariant NamesEntered(old(portsNamesToServers), portsNamesToServers, wanted[..j], names, i)
        invariant NoDuplicates(ports) && forall p: nat :: p in ports <==> p in portsToServers
      {
        assert wanted[..j + 1] == wanted[..j] + [wanted[j]];
        EnterPort(i, wanted[j]);
        EnterNames(i, wanted[j], names);
      }
      assert wanted[..|wanted|] == wanted;
    }

    method EnterPort(i: nat, port: nat)
      requires NoDuplicates(ports) && forall p: nat :: p in ports <==> p in portsToServers
      modifies this`portsToServers, this`ports
      ensures PortsEntered(old(portsToServers), portsToServers, [port], i)
      ensures NoDuplicates(ports) && forall p: nat :: p in ports <==> p in portsToServers
    {
      if port !in portsToServers {
        portsToServers := portsToServers[port := i];
      }
      if port !in ports {
        ports := ports + [port];
      }
    }

    method EnterNames(i: nat, port: nat, names: seq<string>)
      modifies this`portsNamesToServers
      ensures NamesEntered(old(portsNamesToServers), portsNamesToServers, [port], names, i)
    {
      for l := 0 to |names|
        invariant NamesEntered(old(portsNamesToServers), portsNamesToServers, [port], names[..l], i)
      {
        assert names[..l + 1] == names[..l] + [names[l]];
        if (port, names[l]) !in portsNamesToServers {
          portsNamesToServers := portsNamesToServers[(port, names[l]) := i];
        }
      }
      assert names[..|names|] == names;
    }

    /**
      The first server that listens on the port under the name, if a name is given and there is one; else the first on
      the port.
     */
    method GetServer(port: nat, name: string) returns (server: Option<nat>)
      requires Indexed(|servers|)
      ensures server.None? <==> forall i :: 0 <= i < |servers| ==> port !in servers[i].ports
      ensures server.Some? ==> server.value < |servers| && port in servers[server.value].ports
      ensures server.Some? && name != "" &&
              (exists i :: 0 <= i < |servers| && port in servers[i].ports && name in servers[i].names) ==>
                && name in servers[server.value].names
                && forall i :: 0 <= i < server.value ==> !(port in servers[i].ports && name in servers[i].names)
      ensures server.Some? &&
              (name == "" || forall i :: 0 <= i < |servers| ==>
                 !(port in servers[i].ports && name in servers[i].names)) ==>
                forall i :: 0 <= i < server.value ==> port !in servers[i].ports
    {
      if name != "" && (port, name) in portsNamesToServers {
        return Some(portsNamesToServers[(port, name)]);
      }
      if port in portsToServers {
        return Some(portsToServers[port]);
      }
      return None;
    }

    /** The list of ports is free of duplicates and holds exactly the ports some server listens on. */
    lemma PortsAreThoseInUse()
      requires Indexed(|servers|)
      ensures NoDuplicates(ports)
      ensures forall p: nat :: p in ports <==> exists i :: 0 <= i < |servers| && p in servers[i].ports
    {
      forall p: nat ensures p in ports <==> exists i :: 0 <= i < |servers| && p in servers[i].ports {
        assert p in ports <==> FirstOnPort(servers, p) < |servers|;
      }
    }
  }
}
