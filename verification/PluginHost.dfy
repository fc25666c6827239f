/** The plugin registries and the calling thread's lookup cache, `runtime/dcr_plugin_host.cpp`. */
module PluginHost {
  import opened Options

  type Runtime = nat

  const FAST_KINDS: nat := 16

  /** What a lookup hands out; pointers are numbers and 0 is null. */
  datatype Entry = Entry(api1: nat, api2: nat, instance: nat)

  const NOTHING := Entry(0, 0, 0)

  datatype Plugin = Plugin(entry: Entry, kind: nat)

  datatype Registry = Registry(plugins: seq<Plugin>, attempted: bool)

  /** A descriptor a library offers: whether its ABI fields fit, and whether its `create` or
      `startup` accepts, with the instance it makes. */
  datatype Descriptor = Descriptor(api: nat, fits: bool, kind: nat, accepts: bool, instance: nat)

  datatype Library = Library(opens: bool, v2: Option<Descriptor>, v1: Option<Descriptor>)

  datatype Cache = Cache(runtime: Option<Runtime>, generation: nat, kinds: seq<Entry>)

  function NoEntries(): (kinds: seq<Entry>)
    ensures |kinds| == FAST_KINDS && forall k :: 0 <= k < FAST_KINDS ==> kinds[k] == NOTHING
  {
    seq(FAST_KINDS, _ => NOTHING)
  }

  function EmptyCache(): Cache { Cache(None, 0, NoEntries()) }

  // ----- Looking a kind up

  /** The first plugin of that kind. */
  function First(plugins: seq<Plugin>, kind: nat): Option<Entry> {
    if plugins == [] then None
    else if plugins[0].kind == kind then Some(plugins[0].entry)
    else First(plugins[1..], kind)
  }

  function OrNothing(e: Option<Entry>): Entry { if e.Some? then e.value else NOTHING }

  ghost predicate UniqueKinds(plugins: seq<Plugin>) {
    forall i, j :: 0 <= i < j < |plugins| ==> plugins[i].kind != plugins[j].kind
  }

  lemma {:induction false} FirstFinds(plugins: seq<Plugin>, kind: nat)
    ensures First(plugins, kind).None? <==> forall i :: 0 <= i < |plugins| ==> plugins[i].kind != kind
    ensures First(plugins, kind).Some? ==>
              exists i :: 0 <= i < |plugins| && plugins[i].kind == kind && plugins[i].entry == First(plugins, kind).value
  {
    if plugins != [] && plugins[0].kind != kind {
      FirstFinds(plugins[1..], kind);
      assert forall i :: 1 <= i < |plugins| ==> plugins[i] == plugins[1..][i - 1];
    }
  }

  lemma FirstIsOnly(plugins: seq<Plugin>, i: nat)
    requires UniqueKinds(plugins) && i < |plugins|
    ensures First(plugins, plugins[i].kind) == Some(plugins[i].entry)
  {
    FirstFinds(plugins, plugins[i].kind);
  }

  /** The table the copying loop leaves: of several plugins of one kind the LAST wins. */
  function Table(plugins: seq<Plugin>): (kinds: seq<Entry>)
    ensures |kinds| == FAST_KINDS
  {
    if plugins == [] then NoEntries()
    else
      var last := plugins[|plugins| - 1];
      var before := Table(plugins[..|plugins| - 1]);
      if last.kind < FAST_KINDS then before[last.kind := last.entry] else before
  }

  /** With unique kinds, last-wins and first-match agree. */
  lemma {:induction false} TableIsLookup(plugins: seq<Plugin>)
    requires UniqueKinds(plugins)
    ensures forall k :: 0 <= k < FAST_KINDS ==> Table(plugins)[k] == OrNothing(First(plugins, k))
  {
    if plugins != [] {
      var n := |plugins| - 1;
      TableIsLookup(plugins[..n]);
      forall k | 0 <= k < FAST_KINDS
        ensures Table(plugins)[k] == OrNothing(First(plugins, k))
      {
        FirstFinds(plugins[..n], k);
        FirstFinds(plugins, k);
        if k == plugins[n].kind {
          FirstIsOnly(plugins, n);
        } else if First(plugins[..n], k).Some? {
          var i :| 0 <= i < n && plugins[i].kind == k && plugins[i].entry == First(plugins[..n], k).value;
          FirstIsOnly(plugins, i);
        }
      }
    }
  }

  /** Without unique kinds they do not. */
  lemma TwinsDisagree(a: Entry, b: Entry)
    requires a != b
    ensures var twins := [Plugin(a, 3), Plugin(b, 3)];
            Table(twins)[3] == b && OrNothing(First(twins, 3)) == a
  {
    var twins := [Plugin(a, 3), Plugin(b, 3)];
    assert twins[..1] == [Plugin(a, 3)];
  }

  // ----- Loading

  /** One library of the plugin directory; a fitting v2 descriptor decides alone, otherwise v1. */
  function LoadOne(plugins: seq<Plugin>, lib: Library): seq<Plugin> {
    if !lib.opens then plugins
    else if lib.v2.Some? && lib.v2.value.fits then
      var d := lib.v2.value;
      if First(plugins, d.kind).Some? || !d.accepts then plugins
      else plugins + [Plugin(Entry(0, d.api, d.instance), d.kind)]
    else if lib.v1.Some? && lib.v1.value.fits then
      var d := lib.v1.value;
      if First(plugins, d.kind).Some? || !d.accepts then plugins
      else plugins + [Plugin(Entry(d.api, 0, 0), d.kind)]
    else plugins
  }

  function LoadAll(libs: seq<Library>): seq<Plugin> {
    if libs == [] then [] else LoadOne(LoadAll(libs[..|libs| - 1]), libs[|libs| - 1])
  }

  lemma LoadOneKeepsUnique(plugins: seq<Plugin>, lib: Library)
    requires UniqueKinds(plugins)
    ensures UniqueKinds(LoadOne(plugins, lib))
  {
    if lib.opens && lib.v2.Some? && lib.v2.value.fits {
      FirstFinds(plugins, lib.v2.value.kind);
    } else if lib.opens && lib.v1.Some? && lib.v1.value.fits {
      FirstFinds(plugins, lib.v1.value.kind);
    }
  }

  lemma {:induction false} LoadAllUnique(libs: seq<Library>)
    ensures UniqueKinds(LoadAll(libs))
  {
    if libs != [] {
      LoadAllUnique(libs[..|libs| - 1]);
      LoadOneKeepsUnique(LoadAll(libs[..|libs| - 1]), libs[|libs| - 1]);
    }
  }

  /** The plugin a library has to offer: its v2 descriptor if that fits, even if it then refuses,
      otherwise its v1 descriptor. */
  function Offer(lib: Library): Option<Plugin> {
    if !lib.opens then None
    else
      match (lib.v2, lib.v1)
      case (Some(d), _) =>
        if d.fits then (if d.accepts then Some(Plugin(Entry(0, d.api, d.instance), d.kind)) else None)
        else if lib.v1.Some? && lib.v1.value.fits && lib.v1.value.accepts
        then Some(Plugin(Entry(lib.v1.value.api, 0, 0), lib.v1.value.kind)) else None
      case (None, Some(d)) => if d.fits && d.accepts then Some(Plugin(Entry(d.api, 0, 0), d.kind)) else None
      case (None, None) => None
  }

  predicate Offers(lib: Library, kind: nat) { Offer(lib).Some? && Offer(lib).value.kind == kind }

  /** One library changes the lookup of a kind only if it offers that kind and nobody did before. */
  lemma LoadOneExact(plugins: seq<Plugin>, lib: Library, kind: nat)
    ensures First(LoadOne(plugins, lib), kind)
            == if First(plugins, kind).Some? then First(plugins, kind)
               else if Offers(lib, kind) then Some(Offer(lib).value.entry) else None
  {
    if LoadOne(plugins, lib) != plugins {
      FirstAppended(plugins, LoadOne(plugins, lib)[|plugins|], kind);
    }
  }

  lemma {:induction false} FirstAppended(plugins: seq<Plugin>, p: Plugin, kind: nat)
    ensures First(plugins + [p], kind)
            == if First(plugins, kind).Some? then First(plugins, kind) else if p.kind == kind then Some(p.entry) else None
  {
    if plugins == [] {
      assert plugins + [p] == [p];
    } else {
      FirstAppended(plugins[1..], p, kind);
      assert (plugins + [p])[1..] == plugins[1..] + [p];
    }
  }

  /** Of the sorted libraries the first one that offers a kind provides it. */
  lemma {:induction false} FirstOfferWins(libs: seq<Library>, kind: nat)
    ensures First(LoadAll(libs), kind).None? <==> forall j :: 0 <= j < |libs| ==> !Offers(libs[j], kind)
    ensures forall j :: 0 <= j < |libs| && Offers(libs[j], kind) && (forall i :: 0 <= i < j ==> !Offers(libs[i], kind)) ==>
              First(LoadAll(libs), kind) == Some(Offer(libs[j]).value.entry)
  {
    hide LoadOne, Offer;
    if libs != [] {
      var n := |libs| - 1;
      FirstOfferWins(libs[..n], kind);
      LoadOneExact(LoadAll(libs[..n]), libs[n], kind);
      assert forall j :: 0 <= j < n ==> libs[..n][j] == libs[j];
    }
  }

  // ----- The invariant

  /** What a lookup in the registries means. */
  function Lookup(registries: map<Runtime, Registry>, rt: Runtime, kind: nat): Entry {
    if rt in registries then OrNothing(First(registries[rt].plugins, kind)) else NOTHING
  }

  ghost predicate ValidRegistries(registries: map<Runtime, Registry>) {
    forall rt :: rt in registries ==> registries[rt].attempted && UniqueKinds(registries[rt].plugins)
  }

  /** A cache that would hit now answers as its runtime's registry does. */
  ghost predicate Coherent(c: Cache, registries: map<Runtime, Registry>, generation: nat) {
    && |c.kinds| == FAST_KINDS && c.generation <= generation
    && (c.runtime.Some? && c.generation == generation ==> c.runtime.value in registries)
    && (c.runtime.Some? && c.generation == generation ==>
          forall k :: 0 <= k < FAST_KINDS ==> c.kinds[k] == Lookup(registries, c.runtime.value, k))
  }

  /** The file's globals as one thread sees them. */
  class Host {
    var registries: map<Runtime, Registry>
    var generation: nat
    var tls: Cache

    ghost predicate Valid()
      reads this
    {
      ValidRegistries(registries) && Coherent(tls, registries, generation)
    }

    constructor ()
      ensures Valid() && registries == map[]
    {
      registries := map[];
      generation := 1;
      tls := EmptyCache();
    }

    /** The cached lookup: always the registry's answer, and only the cache may change. */
    method FindPluginFast(rt: Runtime, kind: nat) returns (r: Entry)
      requires Valid()
      modifies this`tls
      ensures Valid() && r == Lookup(registries, rt, kind)
      ensures kind < FAST_KINDS && rt in registries ==> tls.runtime == Some(rt) && tls.generation == generation
    {
      var seen := generation;
      if kind < FAST_KINDS && tls.runtime == Some(rt) && tls.generation == seen {
        return tls.kinds[kind];
      }
      if rt !in registries {
        return NOTHING;
      }
      var plugins := registries[rt].plugins;
      if kind < FAST_KINDS {
        tls := Cache(Some(rt), seen, NoEntries());
        var i := 0;
        while i < |plugins|
          modifies this`tls
          invariant 0 <= i <= |plugins|
          invariant tls == Cache(Some(rt), seen, Table(plugins[..i]))
        {
          assert plugins[..i + 1][..i] == plugins[..i];
          var p := plugins[i];
          if p.kind < FAST_KINDS {
            tls := tls.(kinds := tls.kinds[p.kind := p.entry]);
          }
          i := i + 1;
        }
        assert plugins[..i] == plugins;
        TableIsLookup(plugins);
        return tls.kinds[kind];
      }
      r := FindPluginLocked(plugins, kind);
    }

    method FindPluginLocked(plugins: seq<Plugin>, kind: nat) returns (r: Entry)
      ensures r == OrNothing(First(plugins, kind))
    {
      var i := 0;
      while i < |plugins|
        invariant 0 <= i <= |plugins|
        invariant First(plugins, kind) == First(plugins[i..], kind)
      {
        if plugins[i].kind == kind {
          return plugins[i].entry;
        }
        i := i + 1;
      }
      r := NOTHING;
    }

    /** Loads a runtime's plugins once: libs are the sorted candidates, None a missing directory. */
    method LoadDefault(rt: Runtime, dir: Option<seq<Library>>) returns (any: bool)
      requires Valid()
      modifies this
      ensures Valid() && rt in registries && tls == old(tls)
      ensures registries - {rt} == old(registries - {rt})
      ensures registries[rt].plugins == if rt in old(registries) then old(registries)[rt].plugins
                                        else if dir.Some? then LoadAll(dir.value) else []
      ensures generation == old(generation) + if rt !in old(registries) && dir.Some? then 1 else 0
      ensures any == (registries[rt].plugins != [])
      ensures forall c :: Coherent(c, old(registries), old(generation)) ==> Coherent(c, registries, generation)
    {
      if rt !in registries {
        registries := registries[rt := Registry([], false)];
      }
      if registries[rt].attempted {
        return registries[rt].plugins != [];
      }
      registries := registries[rt := registries[rt].(attempted := true)];
      if dir.None? {
        return false;
      }
      var libs := dir.value;
      ghost var start := registries;
      for i := 0 to |libs|
        modifies this`registries
        invariant rt in registries && registries == start[rt := Registry(LoadAll(libs[..i]), true)]
      {
        assert libs[..i + 1][..i] == libs[..i];
        registries := registries[rt := registries[rt].(plugins := LoadOne(registries[rt].plugins, libs[i]))];
      }
      assert libs[..|libs|] == libs;
      LoadAllUnique(libs);
      generation := generation + 1;
      any := registries[rt].plugins != [];
    }

    /** Drops a runtime's registry; every cache that was in step still is, or has become stale. */
    method Shutdown(rt: Runtime)
      requires Valid()
      modifies this
      ensures Valid() && registries == old(registries) - {rt}
      ensures rt in old(registries) ==> tls.runtime != Some(rt) && generation == old(generation) + 1
      ensures rt !in old(registries) ==> tls == old(tls) && generation == old(generation)
      ensures forall c :: Coherent(c, old(registries), old(generation)) ==> Coherent(c, registries, generation)
    {
      if rt !in registries {
        return;
      }
      registries := registries - {rt};
      generation := generation + 1;
      if tls.runtime == Some(rt) {
        tls := EmptyCache();
      }
    }
  }
}
