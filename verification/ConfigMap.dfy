/** Loading the configuration, and finding the most specific section for a request. */
module ConfigMap {
  import opened Base

  // --- Values and paths -----------------------------------------------------

  /** A parsed YAML section, as far as loading looks at it. */
  datatype Value = Mapping(entries: map<string, Value>) | Text(text: string) | Other

  /** A path as its components; the root is the component `/`. */
  type Path = seq<string>

  const ROOT: string := "/"

  predicate Absolute(p: Path) {
    p != [] && p[0] == "/"
  }

  /** `PathBuf::pop`: the last component comes off, unless there is none or it is the root. */
  function Popped(p: Path): Option<Path> {
    if p == [] || p == [ROOT] then None else Some(p[..|p| - 1])
  }

  /** The part of a host header before the port. */
  function HostName(host: string): string {
    if host == [] || host[0] == ':' then [] else [host[0]] + HostName(host[1..])
  }

  lemma {:induction false} HostNameEndsAtPort(host: string)
    ensures HostName(host) <= host && ':' !in HostName(host)
    ensures HostName(host) == host || host[|HostName(host)|] == ':'
  {
    if host != [] && host[0] != ':' {
      HostNameEndsAtPort(host[1..]);
      assert [host[0]] + host[1..] == host;
    }
  }

  // --- What is loaded -------------------------------------------------------

  datatype HostConfig<+P> = HostConfig(path: Option<map<Path, P>>, config: P)

  /** A path section, with its key as it was written. */
  datatype RawPath = RawPath(text: string, section: Value)

  datatype RawHost = RawHost(path: Option<map<Path, RawPath>>, config: Value)

  datatype Raw = Raw(host: Option<map<string, RawHost>>, path: Option<map<Path, RawPath>>, config: Value)

  /** The section handed to the plugins: a mapping is told where it stands. */
  function Marked(section: Value, key: string, name: string): Value {
    if section.Mapping? then Mapping(section.entries["config_" + key := Text(name)]) else section
  }

  function MarkedPath(p: RawPath): Value {
    Marked(p.section, "path", p.text)
  }

  /** The raw sections a request may be configured by: those under a host, if there is one, or the global ones. */
  datatype Scope = Scope(path: Option<map<Path, RawPath>>, config: Value)

  function ScopeOf(raw: Raw, host: Option<string>): Scope {
    if raw.host.Some? && host.Some? && HostName(host.value) in raw.host.value then
      var h := raw.host.value[HostName(host.value)];
      Scope(h.path, Marked(h.config, "host", HostName(host.value)))
    else Scope(raw.path, raw.config)
  }

  /** A mapping is told its host under `config_host`, its path under `config_path`, and nothing else changes. */
  lemma {:induction false} MarkedExactly(section: Value, name: string)
    ensures !section.Mapping? ==> Marked(section, "host", name) == Marked(section, "path", name) == section
    ensures section.Mapping? ==> MarkedUnder(section, "config_host", name, Marked(section, "host", name))
    ensures section.Mapping? ==> MarkedUnder(section, "config_path", name, Marked(section, "path", name))
  {
    assert "config_" + "host" == "config_host" && "config_" + "path" == "config_path";
  }

  /** A path section is told its path, as it was written. */
  lemma {:induction false} PathMarkedExactly(p: RawPath)
    ensures if p.section.Mapping? then MarkedUnder(p.section, "config_path", p.text, MarkedPath(p)) else MarkedPath(p) == p.section
  {
    MarkedExactly(p.section, p.text);
  }

  ghost predicate MarkedUnder(section: Value, key: string, name: string, marked: Value)
    requires section.Mapping?
  {
    && marked.Mapping? && marked.entries.Keys == section.entries.Keys + {key}
    && marked.entries[key] == Text(name)
    && forall k :: k in section.entries && k != key ==> marked.entries[k] == section.entries[k]
  }

  /** The host header is this name, perhaps with a port behind a colon, and the name has a section. */
  ghost predicate NamesHost(raw: Raw, host: Option<string>, name: string) {
    && host.Some? && ':' !in name && (host.value == name || name + ":" <= host.value)
    && raw.host.Some? && name in raw.host.value
  }

  /** The scope is that of the host named, marked with its name, and the global one if no host is named. */
  lemma {:induction false} ScopeExactly(raw: Raw, host: Option<string>)
    ensures forall name :: NamesHost(raw, host, name) ==>
              ScopeOf(raw, host) == Scope(raw.host.value[name].path, Marked(raw.host.value[name].config, "host", name))
    ensures (forall name :: !NamesHost(raw, host, name)) ==> ScopeOf(raw, host) == Scope(raw.path, raw.config)
  {
    if host.Some? {
      var name := HostName(host.value);
      HostNameEndsAtPort(host.value);
      if name != host.value {
        assert host.value[..|name| + 1] == name + ":";
      }
      forall other | NamesHost(raw, host, other)
        ensures other == name
      {
        HostNameOf(host.value, other);
      }
      assert raw.host.Some? && name in raw.host.value ==> NamesHost(raw, host, name);
    }
  }

  lemma {:induction false} HostNameOf(host: string, name: string)
    requires ':' !in name && (host == name || name + ":" <= host)
    ensures HostName(host) == name
  {
    if name == [] {
      assert host == [] || host[0] == ':';
    } else {
      HostNameOf(host[1..], name[1..]);
      assert host[0] == name[0] && [name[0]] + name[1..] == name;
    }
  }

  /** `k` is a key in reach of a request for `p`; the empty path reaches no absolute request. */
  predicate Reaches(k: Path, p: Path) {
    k <= p && (Absolute(p) ==> k != [])
  }

  /** `k` is the longest key that is, component by component, a prefix of the request path. */
  ghost predicate MostSpecific<V>(m: map<Path, V>, p: Path, k: Path) {
    k in m && Reaches(k, p) && forall k' :: k' in m && Reaches(k', p) ==> |k'| <= |k|
  }

  ghost predicate NoKey<V>(m: map<Path, V>, p: Path) {
    forall k :: k in m ==> !Reaches(k, p)
  }

  /** The raw section that configures a request. */
  ghost predicate Configures(raw: Raw, host: Option<string>, path: Option<Path>, section: Value) {
    var scope := ScopeOf(raw, host);
    if path.None? || scope.path.None? || NoKey(scope.path.value, path.value) then section == scope.config
    else exists k :: MostSpecific(scope.path.value, path.value, k) && section == MarkedPath(scope.path.value[k])
  }

  class Config<P> {
    var host: Option<map<string, HostConfig<P>>>
    var path: Option<map<Path, P>>
    var config: P

    /** What loading makes of the raw configuration: every section is given to the plugins once, marked. */
    ghost predicate Loaded(raw: Raw, load: Value -> P)
      reads this
    {
      && config == load(raw.config)
      && PathsLoaded(path, raw.path, load)
      && (host.None? <==> raw.host.None? || raw.host.value == map[])
      && (host.Some? ==> host.value.Keys == raw.host.value.Keys)
      && (host.Some? ==> forall h :: h in host.value ==> HostLoaded(host.value[h], raw.host.value[h], h, load))
    }

    constructor (config: P)
      ensures this.config == config && host == None && path == None
    {
      this.host, this.path, this.config := None, None, config;
    }

    /** `load`, with the plugins' own loading as a parameter; sections come in any order. */
    method Load(raw: Raw, load: Value -> P)
      requires host == None && path == None
      modifies this
      ensures Loaded(raw, load)
    {
      if raw.host.Some? {
        var todo := raw.host.value.Keys;
        while todo != {}
          invariant todo <= raw.host.value.Keys
          invariant path == None
          invariant host.None? <==> todo == raw.host.value.Keys
          invariant host.Some? ==> host.value.Keys == raw.host.value.Keys - todo
          invariant host.Some? ==> forall h :: h in host.value ==> HostLoaded(host.value[h], raw.host.value[h], h, load)
          decreases |todo|
        {
          var h :| h in todo;
          var section := raw.host.value[h];
          var paths := LoadPaths(section.path, load);
          var entry := HostConfig(paths, load(Marked(section.config, "host", h)));
          host := Some((if host.Some? then host.value else map[])[h := entry]);
          todo := todo - {h};
        }
      }
      path := LoadPaths(raw.path, load);
      config := load(raw.config);
    }

    /** The most specific configuration: a lookup that pops the path until it finds a key. */
    method Lookup(requestHost: Option<string>, requestPath: Option<Path>, ghost raw: Raw, ghost load: Value -> P)
      returns (found: P, ghost rounds: nat)
      requires Loaded(raw, load)
      ensures exists section :: Configures(raw, requestHost, requestPath, section) && found == load(section)
      ensures rounds <= if requestPath.Some? then |requestPath.value| + 1 else 0
    {
      var scope := ScopeOf(raw, requestHost);
      rounds := 0;
      found := config;
      var paths := path;
      if host.Some? && requestHost.Some? && HostName(requestHost.value) in host.value {
        found := host.value[HostName(requestHost.value)].config;
        paths := host.value[HostName(requestHost.value)].path;
      }
      assert found == load(scope.config) && PathsLoaded(paths, scope.path, load);
      if requestPath.None? || paths.None? || paths.value == map[] {
        assert Configures(raw, requestHost, requestPath, scope.config);
        return;
      }
      assert paths.value.Keys == scope.path.value.Keys;
      var p := requestPath.value;
      if p in paths.value {
        ConfiguredBy(raw, requestHost, requestPath.value, p);
        found := paths.value[p];
        return;
      }
      while true
        invariant p <= requestPath.value && Reaches(p, requestPath.value)
        invariant rounds + |p| == |requestPath.value|
        invariant forall k :: k in paths.value && Reaches(k, requestPath.value) ==> |k| <= |p|
        decreases |p|
      {
        rounds := rounds + 1;
        if p in paths.value {
          ConfiguredBy(raw, requestHost, requestPath.value, p);
          found := paths.value[p];
          return;
        }
        ShorterKeys(paths.value, requestPath.value, p);
        if Popped(p).None? {
          NoneReaches(paths.value, requestPath.value, p);
          assert Configures(raw, requestHost, requestPath, scope.config);
          return;
        }
        p := Popped(p).value;
      }
    }

    lemma {:induction false} ConfiguredBy(raw: Raw, requestHost: Option<string>, p: Path, k: Path)
      requires var scope := ScopeOf(raw, requestHost); scope.path.Some? && MostSpecific(scope.path.value, p, k)
      ensures Configures(raw, requestHost, Some(p), MarkedPath(ScopeOf(raw, requestHost).path.value[k]))
    {
      assert !NoKey(ScopeOf(raw, requestHost).path.value, p);
    }

    lemma {:induction false} ShorterKeys(m: map<Path, P>, request: Path, p: Path)
      requires p <= request && p !in m
      requires forall k :: k in m && Reaches(k, request) ==> |k| <= |p|
      ensures forall k :: k in m && Reaches(k, request) ==> |k| < |p|
    {
      forall k | k in m && Reaches(k, request)
        ensures |k| < |p|
      {
        if |k| == |p| {
          SamePrefix(k, p, request);
        }
      }
    }

    lemma {:induction false} SamePrefix(k: Path, p: Path, request: Path)
      requires k <= request && p <= request && |k| == |p|
      ensures k == p
    {
      assert k == request[..|k|];
    }

    lemma {:induction false} NoneReaches(m: map<Path, P>, request: Path, p: Path)
      requires p <= request && Popped(p).None?
      requires forall k :: k in m && Reaches(k, request) ==> |k| < |p|
      ensures NoKey(m, request)
    {
      if p != [] {
        assert request[0] == ROOT;
      }
    }
  }

  ghost predicate PathsLoaded<P>(paths: Option<map<Path, P>>, raw: Option<map<Path, RawPath>>, load: Value -> P) {
    && (paths.None? <==> raw.None? || raw.value == map[])
    && (paths.Some? ==> paths.value.Keys == raw.value.Keys)
    && (paths.Some? ==> forall k :: k in paths.value ==> paths.value[k] == load(MarkedPath(raw.value[k])))
  }

  ghost predicate HostLoaded<P>(h: HostConfig<P>, raw: RawHost, name: string, load: Value -> P) {
    h.config == load(Marked(raw.config, "host", name)) && PathsLoaded(h.path, raw.path, load)
  }

  /** The loop over path sections; the map comes into being with its first entry. */
  method LoadPaths<P>(raw: Option<map<Path, RawPath>>, load: Value -> P) returns (paths: Option<map<Path, P>>)
    ensures PathsLoaded(paths, raw, load)
  {
    paths := None;
    if raw.Some? {
      var todo := raw.value.Keys;
      while todo != {}
        invariant todo <= raw.value.Keys
        invariant paths.None? <==> todo == raw.value.Keys
        invariant paths.Some? ==> paths.value.Keys == raw.value.Keys - todo
        invariant paths.Some? ==> forall k :: k in paths.value ==> paths.value[k] == load(MarkedPath(raw.value[k]))
        decreases |todo|
      {
        var k :| k in todo;
        paths := Some((if paths.Some? then paths.value else map[])[k := load(MarkedPath(raw.value[k]))]);
        todo := todo - {k};
      }
    }
  }

  /** The section is unique: two keys of the same length that reach the request are the same key. */
  lemma {:induction false} SectionUnique(raw: Raw, host: Option<string>, path: Option<Path>, a: Value, b: Value)
    requires Configures(raw, host, path, a) && Configures(raw, host, path, b)
    ensures a == b
  {
    var scope := ScopeOf(raw, host);
    if path.Some? && scope.path.Some? && !NoKey(scope.path.value, path.value) {
      var m, p := scope.path.value, path.value;
      var k :| MostSpecific(m, p, k) && a == MarkedPath(m[k]);
      var k' :| MostSpecific(m, p, k') && b == MarkedPath(m[k']);
      assert k == p[..|k|] && k' == p[..|k'|];
    }
  }
}
