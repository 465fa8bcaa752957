/**
 * The host runtime as the reflection helper sees it: boxed values with a
 * runtime type tag, the casts and assignments the runtime accepts, objects
 * whose fields, properties and methods are looked up by name, and the
 * exceptions the helper raises or lets through.
 */
module Runtime {

  /** The full name of a runtime type, e.g. "System.Int32". */
  type TypeName = string

  /** The root of the type hierarchy: every value can be cast to it. */
  const ObjectType: TypeName := "System.Object"

  datatype Option<+T> = None | Some(value: T)

  /** A value as the runtime holds it: a null reference, or a boxed value
      or reference whose runtime type is `tag`; `payload` stands for its
      identity or contents. */
  datatype Value = Null | Boxed(tag: TypeName, payload: int)

  /** What the runtime knows about types: the reference and boxing
      conversions (`subtypes`), the primitive widenings that reflection
      performs when a member is written (`widenings`), and which types are
      value types (null cannot be cast to those). */
  datatype TypeSystem = TypeSystem(
    subtypes: set<(TypeName, TypeName)>,
    widenings: set<(TypeName, TypeName)>,
    valueTypes: set<TypeName>)

  /** Whether the cast `(T) v` succeeds for T = `target`. */
  predicate Castable(ts: TypeSystem, v: Value, target: TypeName)
  {
    target == ObjectType ||
    match v
    case Null => target !in ts.valueTypes
    case Boxed(tag, _) => tag == target || (tag, target) in ts.subtypes
  }

  /** The value a reflective write of `v` into a member declared as
      `declared` stores, or None when the runtime rejects the write.
      A null written into a value-typed member stores that type's default;
      a primitive widening stores the widened value. */
  function Convert(ts: TypeSystem, v: Value, declared: TypeName): (r: Option<Value>)
    ensures Castable(ts, v, declared) && !(v.Null? && declared in ts.valueTypes) ==> r == Some(v)
    ensures r.Some? ==> Castable(ts, r.value, declared)
    ensures r.None? <==> v.Boxed? && !Castable(ts, v, declared) && (v.tag, declared) !in ts.widenings
  {
    match v
    case Null => Some(if declared in ts.valueTypes then Boxed(declared, 0) else Null)
    case Boxed(tag, payload) =>
      if Castable(ts, v, declared) then Some(v)
      else if (tag, declared) in ts.widenings then Some(Boxed(declared, payload))
      else None
  }

  /** The runtime type name of a value as the helper prints it: the tag of a
      boxed value, "null" for a null reference. */
  function RuntimeTypeName(v: Value): string
  {
    match v
    case Null => "null"
    case Boxed(tag, _) => tag
  }

  /** An instance field: its declared type and current value. */
  datatype Field = Field(declared: TypeName, value: Value)

  /** An instance property, modelled as a stored value with an optional
      getter and setter. */
  datatype Property = Property(declared: TypeName, value: Value, hasGetter: bool, hasSetter: bool)

  /** An instance method: its declared return type and what it returns for
      each argument list it accepts. An argument list outside `results`
      makes the invocation throw. */
  datatype MethodInfo = MethodInfo(returnType: TypeName, results: map<seq<Value>, Value>)

  /** A live, non-null object: its runtime type and its instance members
      by name (public and non-public alike). At most one method per name. */
  datatype RuntimeObject = RuntimeObject(
    runtimeType: TypeName,
    fields: map<string, Field>,
    properties: map<string, Property>,
    methods: map<string, MethodInfo>)

  /** Which accessor found a null target. */
  datatype Access = Reading | Writing | Calling

  /** Where a value that failed a cast came from. */
  datatype Source = FieldValue | PropertyValue | MethodResult

  /** The kind of member a rejected write was reported against. */
  datatype MemberKind = FieldMember | PropertyMember

  /** The exceptions of the core. The helper's own exceptions carry the
      context their messages print; the two that come from the runtime and
      escape unwrapped carry none of the helper's context. */
  datatype Error =
      /** NullReferenceException: the target object is null. `typeArgument` is
          the type argument for get and set; a call does not report one. */
    | NullReference(access: Access, typeArgument: Option<TypeName>, name: string)
      /** MissingMemberException: no field or property of that name. */
    | MissingMember(name: string, owner: TypeName)
      /** InvalidCastException: a value could not be cast to `requested`. */
    | InvalidCast(source: Source, declared: TypeName, owner: TypeName, name: string,
                  value: Value, requested: TypeName)
      /** ArgumentException: the runtime rejected a field or property write. */
    | Argument(kind: MemberKind, declared: TypeName, owner: TypeName, name: string,
               requested: TypeName, valueType: string, value: Value)
      /** KeyNotFoundException: no method of that name. */
    | KeyNotFound(name: string, owner: TypeName)
      /** DllNotFoundException: the named assembly is not loaded. */
    | DllNotFound(assembly: string)
      /** The runtime's own exception from reading a property that has no
          getter; the helper lets it through unwrapped, so it names neither
          the property nor its owner. */
    | GetterMissing
      /** The runtime's own exception from invoking a method (wrong
          arguments, or the method threw); the helper lets it through
          unwrapped, so it names neither the method nor its owner. */
    | InvocationFailed
      /** Any other exception raised while obtaining the plugin's entry
          point (an unresolved type, a failing factory). */
    | EntryPointFailed

  datatype Result<+T> = Ok(value: T) | Err(error: Error)

  /** An object whose fields and properties are updated in place. Its
      runtime type and its methods never change. */
  class Target {
    const runtimeType: TypeName
    var fields: map<string, Field>
    var properties: map<string, Property>
    const methods: map<string, MethodInfo>

    constructor (o: RuntimeObject)
      ensures View() == o
    {
      runtimeType := o.runtimeType;
      fields := o.fields;
      properties := o.properties;
      methods := o.methods;
    }

    /** The object's current state as a value. */
    function View(): (o: RuntimeObject)
      reads this
    {
      RuntimeObject(runtimeType, fields, properties, methods)
    }
  }
}
