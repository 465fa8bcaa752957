# Principle: dynamic access to the Principia plugin, modelled in Dafny

Principle is a kRPC service for Kerbal Space Program that talks to the
Principia plugin without being compiled against it. Its core is
`PrincipiaWrapper.cs`. That file holds two pieces, and this project models both:

- **Reflection** reads a field or property by name, writes a field or
  property by name, and binds a method by name and then invokes it. It works
  on an object whose type is only known at run time. The typed forms (`<T>`)
  behave like a cast of the untyped result. A failed cast raises an
  exception that names the member kind, the member's declared type, the owner
  type, the member name, the value and the requested type. A rejected write
  names the declared type, owner type, name, requested type, the value's
  runtime type and the value. A missing getter and a failing invocation
  escape as the runtime's own exceptions, without the helper's context. The
  helper's other errors carry the member name and, where there is an object,
  its runtime type.
- **PrincipiaWrapper** scans the host's registry of loaded assemblies for
  `principia.ksp_plugin_adapter`. It then calls
  `ExternalInterface.Get()` in that assembly and caches the returned handle
  in the static fields `_principia` and `_ready`.

Files:

- `runtime.dfy` (module `Runtime`) is the host runtime as the helper sees
  it. A value is null or boxed with a runtime type tag. A `TypeSystem`
  parameter holds the reference conversions, the primitive widenings that
  reflection applies on writes, and the value types. `Castable` says whether
  the C# cast `(T) v` succeeds. `Convert` gives the value a reflective
  write stores, or None when the write is rejected. An object
  (`RuntimeObject`) has a runtime type and name-keyed maps of fields,
  properties and methods. The lookups find non-public members too, because
  the binding flags include `NonPublic`. `Error` has one constructor per
  exception kind. The helper's own exceptions carry the context their
  messages print; the two runtime exceptions that escape unwrapped
  (`GetterMissing`, `InvocationFailed`) carry none. `Target` is
  the mutable object that writes update in place.
- `reflection.dfy` (module `Reflection`) holds the accessors. Reads and
  calls are functions over an immutable `RuntimeObject`. The write is a
  method on a `Target`, proved against the function `SetSpec`.
- `principia.dfy` (module `Principia`) holds the assembly scan (a loop,
  proved against `AdapterFullName`), `Get()`, and the class
  `PrincipiaWrapper`. The class's fields `principia` and `ready` are the
  static fields, and `Valid()` keeps the handle null until the wrapper is
  ready. Its functions `Ready()` and `Principia()` are the two read-only
  properties.

Inputs the model treats as parameters:

- the registry of loaded assemblies, a `seq<LoadedAssembly>`;
- what the adapter assembly offers, an `EntryPoint`: the type does not
  resolve, there is no `Get` method, `Get` returns a handle, or `Get` throws;
- the host type system;
- each method's behaviour, a table from argument lists to results.

Behaviour of the code worth knowing, all of it modelled:

- The wrapper can be ready with a null handle. When `Get` is missing,
  `?.Invoke` yields null without an error, and `InitPrincipia` still sets
  `_ready` (`MissingGetYieldsNull`).
- Nothing guards `InitPrincipia` against a second run. A later run calls
  `Get()` again, and when that succeeds it overwrites the cached handle. A
  failed run can be followed by a successful one.
- Only `DllNotFoundException` is caught. Other failures of `Get()` escape to
  the caller.
- The error messages say "public", but member lookup uses
  `BindingFlags.NonPublic` too, so non-public members are found.
- A write is not atomic. When both a field and a property of that name exist,
  the field is written first. If the property then rejects the value, the
  field keeps the new value, and the error reports the field's declared type
  (`PartialWrite`).
- Two failures escape without the helper's context. Reading a property
  without a getter (`property.GetValue` at line 84) and a failing
  `method.Invoke` (line 165) raise the runtime's own exceptions. They name
  neither the member nor its owner type, unlike the helper's own errors
  (`PropertyReadWithoutField`, `Invoke`).

## Model

| member | source | states |
|---|---|---|
| Runtime.Convert | principle/PrincipiaWrapper.cs:126-127 | A reflective write stores the value unchanged when it already casts to the member's declared type (except a null written into a value type). Whatever is stored always casts to the declared type. The write is rejected exactly when a boxed value neither casts nor widens to that type. |
| Reflection.GetFieldOrPropertyValue | principle/PrincipiaWrapper.cs:66-105 | A successful read returns the field's value when a field of that name exists, otherwise the property's value. That value casts to `T`. A cast failure reports a value that does not cast, together with the requested type and the name. |
| Reflection.GetFieldOrPropertyObject | principle/PrincipiaWrapper.cs:141-144 | The untyped read (`T = object`) never fails with InvalidCastException. It fails only on a null target, a missing member or a property without a getter. |
| Reflection.FieldShadowsProperty | principle/PrincipiaWrapper.cs:76-81 | When a field of that name exists, the read is the field's value cast to `T`. Replacing or removing a same-named property does not change the result. |
| Reflection.PropertyReadWithoutField | principle/PrincipiaWrapper.cs:82-85 | With no field of that name, the property is read. A property without a getter raises the runtime's error unwrapped. Otherwise its value is cast to `T`. |
| Reflection.ReadCastFailure | principle/PrincipiaWrapper.cs:92-104 | A read fails with InvalidCastException exactly when the member exists and is readable and its value does not cast to `T`. The error carries the member kind, declared type, owner type, name, value and `T`. |
| Reflection.TypedReadIsCastOfUntyped | principle/PrincipiaWrapper.cs:58-62 | On a non-null object, `GetFieldOrPropertyValue<T>` succeeds exactly when the untyped read succeeds and its value casts to `T`, with the same value. On a non-null object it fails in the same way whenever the untyped read fails. |
| Reflection.CastTo | principle/PrincipiaWrapper.cs:92-104 | The typed cast succeeds exactly when the value casts to `T` and then returns the value unchanged. Otherwise it gives InvalidCastException carrying the source kind, declared type, owner, name, value and `T`. |
| Reflection.WriteField | principle/PrincipiaWrapper.cs:126 | `field?.SetValue` does nothing without a field. It fails exactly when the field rejects the value. Otherwise it changes only that field's value, which then holds the written value as converted to the field's declared type (`Convert`), and so casts to that type. |
| Reflection.WriteProperty | principle/PrincipiaWrapper.cs:127 | `property?.SetValue` does nothing without a property. It fails exactly when the property has no setter or rejects the value. Otherwise it changes only that property's value, which then holds the written value as converted to its declared type (`Convert`), and so casts to that type. |
| Reflection.SetSpec | principle/PrincipiaWrapper.cs:115-138 | A write never changes the runtime type, the methods, the set of member names, or any member other than the field and the property called `name`. Of those two it changes only the stored value. It succeeds only when such a member exists. On success, the field (if any) and also the property (if any) both hold the value as converted to their declared types. A write the field rejects leaves the object unchanged. A failed write never changes the properties. |
| Reflection.SetFieldOrPropertyValue | principle/PrincipiaWrapper.cs:107-139 | A null target fails with NullReferenceException and nothing is written. Otherwise the object's new state and the outcome are those of `SetSpec` on its old state. |
| Reflection.MissingMemberRejected | principle/PrincipiaWrapper.cs:86-122 | With neither a field nor a property of that name, both the read and the write fail with MissingMemberException naming the member and the runtime type, never with a cast or assignment error. The write leaves the object unchanged. |
| Reflection.WriteSucceedsIff | principle/PrincipiaWrapper.cs:118-128 | A write succeeds exactly when a field or property of that name exists, the field (if any) accepts the value, and the property (if any) has a setter and accepts the value. |
| Reflection.WriteRejectionContext | principle/PrincipiaWrapper.cs:129-137 | A rejected write raises ArgumentException. The error carries the field's declared type when there is a field (the property's otherwise), the owner type, the name, `T`, the value's runtime type ("null" for null) and the value. |
| Reflection.PartialWrite | principle/PrincipiaWrapper.cs:124-137 | When the field accepts the value and the same-named property rejects it, the field keeps the new value, the properties are untouched, and the error is reported against the field. |
| Reflection.FieldRoundTrip | principle/PrincipiaWrapper.cs:116-128 | After a successful write to a field, reading it returns the stored value. When the value already has the field's type, the read returns exactly the written value, for every `T` it casts to. |
| Reflection.PropertyRoundTrip | principle/PrincipiaWrapper.cs:117-127 | After a successful write to a readable property with no same-named field, reading it returns the stored value. |
| Reflection.Call | principle/PrincipiaWrapper.cs:148-162 | Binding succeeds exactly when the target is non-null and has a method of that name, and the bound delegate holds that method. A null target gives NullReferenceException. A missing name gives KeyNotFoundException naming the method and the owner type. |
| Reflection.CallObject | principle/PrincipiaWrapper.cs:181-184 | The untyped bind requests `object` as the result type. |
| Reflection.Invoke | principle/PrincipiaWrapper.cs:163-178 | Invoking the bound delegate with some arguments succeeds exactly when the method returns a result for them and that result casts to `T`; it then returns that result. A result that does not cast to `T` always gives InvalidCastException, reporting the return type, owner type, method name, result and `T`. A failing invocation escapes as the runtime's own error. |
| Reflection.BindingInvokesNothing | principle/PrincipiaWrapper.cs:155-163 | Whether binding succeeds, and the error it gives, depend only on the object's method names, never on what the methods return. |
| Reflection.UntypedCallNeverCastFails | principle/PrincipiaWrapper.cs:181-184 | An untyped call fails only when the invocation itself fails, never with InvalidCastException. |
| Reflection.TypedCallIsCastOfUntyped | principle/PrincipiaWrapper.cs:60 | Once a method is bound on a non-null object, `Call<T>(obj, name)(args)` succeeds exactly when the untyped call succeeds and its result casts to `T`, with the same result. It fails in the same way whenever the untyped call fails. |
| Reflection.NullTargetRejected | principle/PrincipiaWrapper.cs:68-72 | On a null target, reading and binding fail with NullReferenceException before any lookup. The read reports the name and `T`; the bind reports the name only. |
| Principia.AdapterFullName | principle/PrincipiaWrapper.cs:31-39 | The result is the full name of the first registry entry named exactly `principia.ksp_plugin_adapter`. It fails with DllNotFoundException exactly when no entry has that name. |
| Principia.AssemblyName | principle/PrincipiaWrapper.cs:31-39 | The `foreach` scan with its early return computes exactly `AdapterFullName` of the registry, so repeated calls on the same registry give the same result. |
| Principia.LaterEntriesIgnored | principle/PrincipiaWrapper.cs:32-35 | Once a registry contains the adapter, appending more entries does not change the result. |
| Principia.OtherEntriesIgnored | principle/PrincipiaWrapper.cs:32-36 | Prepending entries with other names does not change the result. |
| Principia.Get | principle/PrincipiaWrapper.cs:41-51 | Get fails with DllNotFoundException exactly when the adapter is not loaded. It succeeds exactly when the adapter is loaded and either `Get` returns a handle (the result is that handle) or there is no `Get` (the result is null). Every other failure is an entry-point error. |
| Principia.MissingGetYieldsNull | principle/PrincipiaWrapper.cs:47-51 | With the adapter loaded and no `Get` method, Get returns null without an error. |
| Principia.PrincipiaWrapper.constructor | principle/PrincipiaWrapper.cs:9-10 | The handle starts null and readiness starts false. |
| Principia.PrincipiaWrapper.Ready | principle/PrincipiaWrapper.cs:27 | While the wrapper is not ready, the cached handle is null. |
| Principia.PrincipiaWrapper.Principia | principle/PrincipiaWrapper.cs:29 | A non-null handle is only ever seen once the wrapper is ready. |
| Principia.PrincipiaWrapper.InitPrincipia | principle/PrincipiaWrapper.cs:12-25 | It keeps the handle null until the wrapper is ready. Readiness never goes back to false, and it becomes true only when Get succeeds; the handle then holds Get's result. A not-loaded error is caught and leaves both fields unchanged. Any other error escapes and also leaves both fields unchanged. The returned flag equals the readiness afterwards. |

## Left out

- .NET reflection internals are left out. `Type.GetType` name formatting, `BindingFlags`, and the `FieldInfo`/`PropertyInfo`/`MethodInfo` objects become map lookups on the object's runtime type.
- Overloads are left out: the model has at most one method per name. With several, `GetMethod` by name alone may throw an ambiguous-match error, and that behaviour belongs to the host runtime.
- Member names are non-null strings. The runtime's ArgumentNullException for a null `name` from `GetField`, `GetProperty` and `GetMethod` is not modelled; in the setter it would escape before the `try`.
- The ambiguous-match error of `GetProperty` (lines 77 and 117) is not modelled: the model has at most one property per name. In the runtime it arises when, for example, a derived class hides a base-class property of the same name, and it escapes unwrapped.
- A getter that throws, and a read through an indexer property with `index: null`, are not modelled. At line 84 both would escape unwrapped, like the missing getter.
- Property getters and setters are modelled as a stored value with optional accessors. A getter that computes a value, or a setter with other effects or exceptions, is not modelled.
- Reflection.Invoke: a method is a fixed table from argument lists to results. The model does not count invocations, and it does not model side effects of the invoked method or exceptions it throws beyond "the invocation failed".
- Message text is left out. Errors are structured records holding the values the messages print.
- `Console.WriteLine` of the caught exception is left out. It is logging with no effect on the state.
- `Get()` is reduced to the registry scan plus an `EntryPoint` parameter. The parameter says whether `ExternalInterface` resolves and what its `Get` does. Resolving a type from its assembly-qualified name is not modelled.
- Concurrency is not modelled. The code has no guard against concurrent or repeated initialization, and the model adds none.
- principle/Principle.cs is not part of this model. It is kRPC service glue: a readiness check that throws when the wrapper is not ready, and a procedure forwarding to a wrapper member that the wrapper does not define.
- principle/Addon.cs is not part of this model. It is the Unity start-up hook, which only calls `InitPrincipia`.
