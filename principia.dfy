/**
 * Discovery of the Principia adapter assembly in the host's registry of
 * loaded assemblies, the call of its entry point
 * `principia.ksp_plugin_adapter.ExternalInterface.Get()`, and the
 * process-wide state that caches the handle it returns.
 */
module Principia {
  import opened Runtime

  /** The simple name the adapter assembly is registered under. */
  const AdapterName: string := "principia.ksp_plugin_adapter"

  /** An entry of the host's registry of loaded assemblies: the assembly's
      simple name and its full name (name, version, culture, key). */
  datatype LoadedAssembly = LoadedAssembly(name: string, fullName: string)

  /** The full name of the first registry entry named exactly AdapterName,
      or DllNotFoundException when there is none. */
  function AdapterFullName(registry: seq<LoadedAssembly>): (r: Result<string>)
    ensures r.Ok? <==> exists i :: 0 <= i < |registry| && registry[i].name == AdapterName
    ensures r.Ok? ==> exists i :: 0 <= i < |registry| && registry[i].name == AdapterName
                                  && r.value == registry[i].fullName
                                  && forall j :: 0 <= j < i ==> registry[j].name != AdapterName
    ensures r.Err? ==> r.error == DllNotFound(AdapterName)
  {
    if registry == [] then Err(DllNotFound(AdapterName))
    else if registry[0].name == AdapterName then Ok(registry[0].fullName)
    else
      var r := AdapterFullName(registry[1..]);
      assert forall i :: 1 <= i < |registry| ==> registry[i] == registry[1..][i - 1];
      r
  }

  /** AssemblyName(): scans the registry in order and returns at the first
      entry whose name is AdapterName. It only reads the registry, so its
      result is a function of the registry alone. */
  method AssemblyName(registry: seq<LoadedAssembly>) returns (r: Result<string>)
    ensures r == AdapterFullName(registry)
  {
    for i := 0 to |registry|
      invariant forall j :: 0 <= j < i ==> registry[j].name != AdapterName
    {
      if registry[i].name == AdapterName {
        return Ok(registry[i].fullName);
      }
    }
    return Err(DllNotFound(AdapterName));
  }

  /** Once an adapter entry has been found, entries after it are never
      consulted. */
  lemma {:induction false} LaterEntriesIgnored(registry: seq<LoadedAssembly>, rest: seq<LoadedAssembly>)
    requires AdapterFullName(registry).Ok?
    ensures AdapterFullName(registry + rest) == AdapterFullName(registry)
  {
    if registry[0].name != AdapterName {
      assert (registry + rest)[1..] == registry[1..] + rest;
      LaterEntriesIgnored(registry[1..], rest);
    }
  }

  /** Entries with other names before the adapter make no difference. */
  lemma {:induction false} OtherEntriesIgnored(others: seq<LoadedAssembly>, registry: seq<LoadedAssembly>)
    requires forall i :: 0 <= i < |others| ==> others[i].name != AdapterName
    ensures AdapterFullName(others + registry) == AdapterFullName(registry)
  {
    if others == [] {
      assert others + registry == registry;
    } else {
      assert (others + registry)[0] == others[0];
      assert (others + registry)[1..] == others[1..] + registry;
      OtherEntriesIgnored(others[1..], registry);
    }
  }

  /** What the adapter assembly offers once it is found: the type
      ExternalInterface does not resolve, it has no method Get, Get returns a
      handle, or Get throws. */
  datatype EntryPoint = TypeUnresolved | NoGetMethod | Returns(handle: Value) | Throws

  /** Get(): resolves ExternalInterface in the adapter assembly and invokes
      its static Get(). A missing Get method yields null through the
      null-conditional call; an unresolved type and a throwing Get are
      errors the wrapper does not catch. */
  function Get(registry: seq<LoadedAssembly>, entry: EntryPoint): (r: Result<Value>)
    ensures r.Err? && r.error.DllNotFound? <==> AdapterFullName(registry).Err?
    ensures r.Ok? <==> AdapterFullName(registry).Ok? && (entry.NoGetMethod? || entry.Returns?)
    ensures r.Ok? ==> r.value == if entry.Returns? then entry.handle else Null
    ensures r.Err? ==> r.error == DllNotFound(AdapterName) || r.error == EntryPointFailed
  {
    match AdapterFullName(registry)
    case Err(e) => Err(e)
    case Ok(_) =>
      match entry
      case TypeUnresolved => Err(EntryPointFailed)
      case NoGetMethod => Ok(Null)
      case Returns(h) => Ok(h)
      case Throws => Err(EntryPointFailed)
  }

  /** With the adapter loaded but no method Get, Get() returns null without
      an error, so InitPrincipia becomes ready with a null handle. */
  lemma MissingGetYieldsNull(registry: seq<LoadedAssembly>)
    requires exists i :: 0 <= i < |registry| && registry[i].name == AdapterName
    ensures Get(registry, NoGetMethod) == Ok(Null)
  {
  }

  /** The static state `_principia` and `_ready`. */
  class PrincipiaWrapper {
    var principia: Value
    var ready: bool

    /** The handle stays null until the wrapper is ready. */
    ghost predicate Valid()
      reads this
    {
      !ready ==> principia == Null
    }

    constructor ()
      ensures Valid() && principia == Null && !ready
    {
      principia := Null;
      ready := false;
    }

    /** The Ready property. */
    function Ready(): (r: bool)
      reads this
      requires Valid()
      ensures !r ==> principia == Null
    {
      ready
    }

    /** The Principia property. */
    function Principia(): (h: Value)
      reads this
      requires Valid()
      ensures h != Null ==> ready
    {
      principia
    }

    /** InitPrincipia(): caches the result of Get() and becomes ready when
        Get() returns; a missing adapter is caught and leaves the state as
        it was; any other error escapes, also leaving the state as it was.
        The returned flag is the readiness afterwards. There is no guard
        against running it again: a second run calls Get() again. */
    method InitPrincipia(registry: seq<LoadedAssembly>, entry: EntryPoint) returns (r: Result<bool>)
      requires Valid()
      modifies this
      ensures Valid()
      ensures old(ready) ==> ready
      ensures ready && !old(ready) ==> Get(registry, entry).Ok?
      ensures r.Ok? ==> r.value == ready
      ensures Get(registry, entry).Ok? ==>
                ready && principia == Get(registry, entry).value && r == Ok(true)
      ensures Get(registry, entry).Err? && Get(registry, entry).error.DllNotFound? ==>
                unchanged(this) && r == Ok(old(ready))
      ensures Get(registry, entry).Err? && !Get(registry, entry).error.DllNotFound? ==>
                unchanged(this) && r == Err(Get(registry, entry).error)
    {
      var got := Get(registry, entry);
      if got.Ok? {
        principia := got.value;
        ready := true;
      } else if !got.error.DllNotFound? {
        return Err(got.error);
      }
      return Ok(ready);
    }
  }
}
