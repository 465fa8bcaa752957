/**
 * Name-based dynamic member access: read a field or property, write a field
 * or property, and bind then invoke a method, on an object whose type is
 * only known at run time. The typed forms behave like a cast of the result
 * of the untyped ones, with an error that names what failed to convert.
 */
module Reflection {
  import opened Runtime

  /** `(T) v`, or the InvalidCastException that reports where `v` came from. */
  function CastTo(ts: TypeSystem, v: Value, source: Source, declared: TypeName,
                  owner: TypeName, name: string, requested: TypeName): (r: Result<Value>)
    ensures r.Ok? <==> Castable(ts, v, requested)
    ensures r == Ok(v) || r == Err(InvalidCast(source, declared, owner, name, v, requested))
  {
    if Castable(ts, v, requested) then Ok(v)
    else Err(InvalidCast(source, declared, owner, name, v, requested))
  }

  // ----- Reading -----

  /** The value of the field or, failing that, the property `name` of `obj`,
      cast to `requested`. */
  function GetFieldOrPropertyValue(ts: TypeSystem, obj: Option<RuntimeObject>, name: string,
                                   requested: TypeName): (r: Result<Value>)
    ensures r.Ok? ==> obj.Some? && Castable(ts, r.value, requested)
    ensures obj.Some? && r.Ok? && name in obj.value.fields ==> r.value == obj.value.fields[name].value
    ensures obj.Some? && r.Ok? && name !in obj.value.fields ==>
              name in obj.value.properties && r.value == obj.value.properties[name].value
    ensures r.Err? && r.error.InvalidCast? ==>
              !Castable(ts, r.error.value, requested) && r.error.requested == requested && r.error.name == name
  {
    match obj
    case None => Err(NullReference(Reading, Some(requested), name))
    case Some(o) =>
      if name in o.fields then
        var f := o.fields[name];
        CastTo(ts, f.value, FieldValue, f.declared, o.runtimeType, name, requested)
      else if name in o.properties then
        var p := o.properties[name];
        if !p.hasGetter then Err(GetterMissing)
        else CastTo(ts, p.value, PropertyValue, p.declared, o.runtimeType, name, requested)
      else
        Err(MissingMember(name, o.runtimeType))
  }

  /** The untyped read: the typed read at the root type. */
  function GetFieldOrPropertyObject(ts: TypeSystem, obj: Option<RuntimeObject>, name: string): (r: Result<Value>)
    ensures r.Err? ==> !r.error.InvalidCast?
    ensures r.Err? ==> r.error.NullReference? || r.error.MissingMember? || r.error.GetterMissing?
  {
    GetFieldOrPropertyValue(ts, obj, name, ObjectType)
  }

  /** A field of the requested name hides any property of the same name:
      the property can be replaced or removed without changing the read. */
  lemma FieldShadowsProperty(ts: TypeSystem, o: RuntimeObject, name: string, requested: TypeName,
                             other: Option<Property>)
    requires name in o.fields
    ensures var o' := o.(properties := if other.None? then o.properties - {name}
                                       else o.properties[name := other.value]);
            GetFieldOrPropertyValue(ts, Some(o'), name, requested) == GetFieldOrPropertyValue(ts, Some(o), name, requested)
    ensures var f := o.fields[name];
            GetFieldOrPropertyValue(ts, Some(o), name, requested) ==
              if Castable(ts, f.value, requested) then Ok(f.value)
              else Err(InvalidCast(FieldValue, f.declared, o.runtimeType, name, f.value, requested))
  {
  }

  /** Without a field of that name the property is read through its getter. */
  lemma PropertyReadWithoutField(ts: TypeSystem, o: RuntimeObject, name: string, requested: TypeName)
    requires name !in o.fields && name in o.properties
    ensures var p := o.properties[name];
            GetFieldOrPropertyValue(ts, Some(o), name, requested) ==
              if !p.hasGetter then Err(GetterMissing)
              else if Castable(ts, p.value, requested) then Ok(p.value)
              else Err(InvalidCast(PropertyValue, p.declared, o.runtimeType, name, p.value, requested))
  {
  }

  /** A read fails with InvalidCastException exactly when the member exists
      and can be read but its value does not cast to the requested type; the
      error names the member kind, its declared type, the owner type, the
      name, the value and the requested type. */
  lemma ReadCastFailure(ts: TypeSystem, o: RuntimeObject, name: string, requested: TypeName)
    ensures var r := GetFieldOrPropertyValue(ts, Some(o), name, requested);
            r.Err? && r.error.InvalidCast? <==>
              if name in o.fields then !Castable(ts, o.fields[name].value, requested)
              else name in o.properties && o.properties[name].hasGetter
                   && !Castable(ts, o.properties[name].value, requested)
    ensures var r := GetFieldOrPropertyValue(ts, Some(o), name, requested);
            r.Err? && r.error.InvalidCast? ==>
              if name in o.fields then
                r.error == InvalidCast(FieldValue, o.fields[name].declared, o.runtimeType, name,
                                       o.fields[name].value, requested)
              else
                r.error == InvalidCast(PropertyValue, o.properties[name].declared, o.runtimeType, name,
                                       o.properties[name].value, requested)
  {
  }

  /** The typed read is the untyped read followed by a cast: it succeeds
      exactly when the untyped read does and its value casts, with the same
      value, and fails the same way when the untyped read fails on an object. */
  lemma TypedReadIsCastOfUntyped(ts: TypeSystem, o: RuntimeObject, name: string, requested: TypeName)
    ensures var typed := GetFieldOrPropertyValue(ts, Some(o), name, requested);
            var untyped := GetFieldOrPropertyObject(ts, Some(o), name);
            (typed.Ok? <==> untyped.Ok? && Castable(ts, untyped.value, requested)) &&
            (typed.Ok? ==> typed.value == untyped.value) &&
            (untyped.Err? ==> typed == untyped)
  {
  }

  // ----- Writing -----

  /** `field?.SetValue(obj, value)`: no change when there is no field of that
      name, the object with the converted value stored when the runtime
      accepts the value, None when it rejects it. */
  function WriteField(ts: TypeSystem, o: RuntimeObject, name: string, value: Value): (r: Option<RuntimeObject>)
    ensures r.None? <==> name in o.fields && Convert(ts, value, o.fields[name].declared).None?
    ensures r.Some? ==> r.value.runtimeType == o.runtimeType && r.value.methods == o.methods
                        && r.value.properties == o.properties && r.value.fields.Keys == o.fields.Keys
    ensures r.Some? ==> forall n :: n in o.fields && n != name ==> r.value.fields[n] == o.fields[n]
    ensures r.Some? && name in o.fields ==>
              r.value.fields[name].declared == o.fields[name].declared &&
              Castable(ts, r.value.fields[name].value, o.fields[name].declared)
    ensures r.Some? && name in o.fields ==>
              r.value.fields[name].value == Convert(ts, value, o.fields[name].declared).value
    ensures name !in o.fields ==> r == Some(o)
  {
    if name !in o.fields then Some(o)
    else
      var f := o.fields[name];
      match Convert(ts, value, f.declared)
      case None => None
      case Some(stored) => Some(o.(fields := o.fields[name := f.(value := stored)]))
  }

  /** `property?.SetValue(obj, value, null)`: as WriteField; a property
      without a setter rejects every value. */
  function WriteProperty(ts: TypeSystem, o: RuntimeObject, name: string, value: Value): (r: Option<RuntimeObject>)
    ensures r.None? <==> name in o.properties && (!o.properties[name].hasSetter
                                                  || Convert(ts, value, o.properties[name].declared).None?)
    ensures r.Some? ==> r.value.runtimeType == o.runtimeType && r.value.methods == o.methods
                        && r.value.fields == o.fields && r.value.properties.Keys == o.properties.Keys
    ensures r.Some? ==> forall n :: n in o.properties && n != name ==> r.value.properties[n] == o.properties[n]
    ensures r.Some? && name in o.properties ==>
              r.value.properties[name] == o.properties[name].(value := r.value.properties[name].value) &&
              Castable(ts, r.value.properties[name].value, o.properties[name].declared)
    ensures r.Some? && name in o.properties ==>
              r.value.properties[name].value == Convert(ts, value, o.properties[name].declared).value
    ensures name !in o.properties ==> r == Some(o)
  {
    if name !in o.properties then Some(o)
    else
      var p := o.properties[name];
      match if p.hasSetter then Convert(ts, value, p.declared) else None
      case None => None
      case Some(stored) => Some(o.(properties := o.properties[name := p.(value := stored)]))
  }

  /** The object after a write, and the write's outcome. */
  datatype Written = Written(after: RuntimeObject, result: Result<()>)

  /** A write of `value` (statically of type `requested`) to the member
      `name` of a non-null object: the field is written first, then the
      property; the first rejection ends the write, and is reported against
      the field when there is one. */
  function SetSpec(ts: TypeSystem, o: RuntimeObject, name: string, requested: TypeName, value: Value): (w: Written)
    ensures w.after.runtimeType == o.runtimeType && w.after.methods == o.methods
    ensures w.after.fields == o.fields ||
            (name in o.fields && name in w.after.fields && w.after.fields == o.fields[name := o.fields[name].(value := w.after.fields[name].value)])
    ensures w.after.properties == o.properties ||
            (name in o.properties && name in w.after.properties &&
             w.after.properties == o.properties[name := o.properties[name].(value := w.after.properties[name].value)])
    ensures w.result.Ok? ==> name in o.fields || name in o.properties
    ensures w.result.Ok? && name in o.fields ==>
              Convert(ts, value, o.fields[name].declared).Some? &&
              w.after.fields[name].value == Convert(ts, value, o.fields[name].declared).value
    ensures w.result.Ok? && name in o.properties ==>
              Convert(ts, value, o.properties[name].declared).Some? &&
              w.after.properties[name].value == Convert(ts, value, o.properties[name].declared).value
    ensures name in o.fields && Convert(ts, value, o.fields[name].declared).None? ==> w.after == o
    ensures w.result.Err? ==> w.after.properties == o.properties
  {
    if name !in o.fields && name !in o.properties then
      Written(o, Err(MissingMember(name, o.runtimeType)))
    else
      var kind := if name in o.fields then FieldMember else PropertyMember;
      var declared := if name in o.fields then o.fields[name].declared else o.properties[name].declared;
      var rejected := Err(Argument(kind, declared, o.runtimeType, name, requested, RuntimeTypeName(value), value));
      match WriteField(ts, o, name, value)
      case None => Written(o, rejected)
      case Some(o1) =>
        match WriteProperty(ts, o1, name, value)
        case None => Written(o1, rejected)
        case Some(o2) => Written(o2, Ok(()))
  }

  /** SetFieldOrPropertyValue<T>: writes `value` to the field and then the
      property called `name` of `obj`, in place. */
  method SetFieldOrPropertyValue(ts: TypeSystem, obj: Target?, name: string, requested: TypeName, value: Value)
    returns (r: Result<()>)
    modifies obj
    ensures obj == null ==> r == Err(NullReference(Writing, Some(requested), name))
    ensures obj != null ==> var w := SetSpec(ts, old(obj.View()), name, requested, value);
                            obj.View() == w.after && r == w.result
  {
    if obj == null {
      return Err(NullReference(Writing, Some(requested), name));
    }
    var hasField, hasProperty := name in obj.fields, name in obj.properties;
    if !hasField && !hasProperty {
      return Err(MissingMember(name, obj.runtimeType));
    }
    var kind := if hasField then FieldMember else PropertyMember;
    var declared := if hasField then obj.fields[name].declared else obj.properties[name].declared;
    var rejected := Err(Argument(kind, declared, obj.runtimeType, name, requested, RuntimeTypeName(value), value));
    if hasField {
      var f := obj.fields[name];
      var stored := Convert(ts, value, f.declared);
      if stored.None? {
        return rejected;
      }
      obj.fields := obj.fields[name := f.(value := stored.value)];
    }
    if hasProperty {
      var p := obj.properties[name];
      var stored := if p.hasSetter then Convert(ts, value, p.declared) else None;
      if stored.None? {
        return rejected;
      }
      obj.properties := obj.properties[name := p.(value := stored.value)];
    }
    return Ok(());
  }

  /** Neither a field nor a property of that name: reads and writes fail
      with MissingMemberException naming the member and the runtime type,
      never with a cast or assignment error, and a write changes nothing. */
  lemma MissingMemberRejected(ts: TypeSystem, o: RuntimeObject, name: string, requested: TypeName, value: Value)
    requires name !in o.fields && name !in o.properties
    ensures GetFieldOrPropertyValue(ts, Some(o), name, requested) == Err(MissingMember(name, o.runtimeType))
    ensures SetSpec(ts, o, name, requested, value) == Written(o, Err(MissingMember(name, o.runtimeType)))
  {
  }

  /** A write succeeds exactly when some member of that name exists and each
      such member accepts the value. */
  lemma WriteSucceedsIff(ts: TypeSystem, o: RuntimeObject, name: string, requested: TypeName, value: Value)
    ensures SetSpec(ts, o, name, requested, value).result.Ok? <==>
              (name in o.fields || name in o.properties) &&
              (name in o.fields ==> Convert(ts, value, o.fields[name].declared).Some?) &&
              (name in o.properties ==> o.properties[name].hasSetter
                                        && Convert(ts, value, o.properties[name].declared).Some?)
  {
  }

  /** A rejected write reports the field's declared type when there is a
      field (the property's otherwise), the owner type, the name, the
      requested type, the value's runtime type ("null" for null) and the
      value. */
  lemma WriteRejectionContext(ts: TypeSystem, o: RuntimeObject, name: string, requested: TypeName, value: Value)
    requires name in o.fields || name in o.properties
    requires SetSpec(ts, o, name, requested, value).result.Err?
    ensures SetSpec(ts, o, name, requested, value).result.error ==
              if name in o.fields then
                Argument(FieldMember, o.fields[name].declared, o.runtimeType, name,
                         requested, RuntimeTypeName(value), value)
              else
                Argument(PropertyMember, o.properties[name].declared, o.runtimeType, name,
                         requested, RuntimeTypeName(value), value)
  {
  }

  /** The write is not atomic: when the field accepts the value and the
      property of the same name rejects it, the field keeps the new value,
      the property is untouched, and the error is reported against the
      field. */
  lemma PartialWrite(ts: TypeSystem, o: RuntimeObject, name: string, requested: TypeName, value: Value)
    requires name in o.fields && name in o.properties
    requires Convert(ts, value, o.fields[name].declared).Some?
    requires !o.properties[name].hasSetter || Convert(ts, value, o.properties[name].declared).None?
    ensures var w := SetSpec(ts, o, name, requested, value);
            w.after.fields[name].value == Convert(ts, value, o.fields[name].declared).value &&
            w.after.properties == o.properties &&
            w.result == Err(Argument(FieldMember, o.fields[name].declared, o.runtimeType, name,
                                     requested, RuntimeTypeName(value), value))
  {
  }

  /** Round trip through a field: after a successful write, a read of the
      same name returns the stored value, which is the written value itself
      when the value already has the field's type and is not a null written
      into a value type. */
  lemma FieldRoundTrip(ts: TypeSystem, o: RuntimeObject, name: string, requested: TypeName, value: Value)
    requires name in o.fields
    requires SetSpec(ts, o, name, requested, value).result.Ok?
    ensures var after := SetSpec(ts, o, name, requested, value).after;
            var stored := Convert(ts, value, o.fields[name].declared);
            stored.Some? && GetFieldOrPropertyObject(ts, Some(after), name) == Ok(stored.value)
    ensures var after := SetSpec(ts, o, name, requested, value).after;
            var declared := o.fields[name].declared;
            Castable(ts, value, declared) && !(value.Null? && declared in ts.valueTypes) ==>
              forall t :: Castable(ts, value, t) ==> GetFieldOrPropertyValue(ts, Some(after), name, t) == Ok(value)
  {
    var w := SetSpec(ts, o, name, requested, value);
    var f := o.fields[name];
    assert WriteField(ts, o, name, value).Some?;
    var o1 := WriteField(ts, o, name, value).value;
    assert o1.fields[name].value == Convert(ts, value, f.declared).value;
    assert w.after.fields[name] == o1.fields[name];
  }

  /** Round trip through a property with a getter and no field of that name. */
  lemma PropertyRoundTrip(ts: TypeSystem, o: RuntimeObject, name: string, requested: TypeName, value: Value)
    requires name !in o.fields && name in o.properties && o.properties[name].hasGetter
    requires SetSpec(ts, o, name, requested, value).result.Ok?
    ensures var after := SetSpec(ts, o, name, requested, value).after;
            var stored := Convert(ts, value, o.properties[name].declared);
            stored.Some? && GetFieldOrPropertyObject(ts, Some(after), name) == Ok(stored.value)
  {
  }

  // ----- Calling -----

  /** The delegate Call<T> returns: the method it resolved, the owner type
      and name for error messages, and the requested result type. */
  datatype BoundMethod = BoundMethod(owner: TypeName, name: string, target: MethodInfo, requested: TypeName)

  /** Call<T>, the binding phase: resolves the method `name` of `obj`
      without invoking it. */
  function Call(obj: Option<RuntimeObject>, name: string, requested: TypeName): (r: Result<BoundMethod>)
    ensures r.Ok? <==> obj.Some? && name in obj.value.methods
    ensures r.Ok? ==> r.value == BoundMethod(obj.value.runtimeType, name, obj.value.methods[name], requested)
    ensures obj.None? ==> r == Err(NullReference(Calling, None, name))
    ensures obj.Some? && r.Err? ==> r == Err(KeyNotFound(name, obj.value.runtimeType))
  {
    match obj
    case None => Err(NullReference(Calling, None, name))
    case Some(o) =>
      if name in o.methods then Ok(BoundMethod(o.runtimeType, name, o.methods[name], requested))
      else Err(KeyNotFound(name, o.runtimeType))
  }

  /** The untyped Call: the typed one at the root type. */
  function CallObject(obj: Option<RuntimeObject>, name: string): (r: Result<BoundMethod>)
    ensures r.Ok? ==> r.value.requested == ObjectType
  {
    Call(obj, name, ObjectType)
  }

  /** The invocation phase: one call of the bound method with `args`, its
      result cast to the requested type. */
  function Invoke(ts: TypeSystem, b: BoundMethod, args: seq<Value>): (r: Result<Value>)
    ensures r.Ok? <==> args in b.target.results && Castable(ts, b.target.results[args], b.requested)
    ensures r.Ok? ==> r.value == b.target.results[args]
    ensures r.Err? && r.error.InvalidCast? ==>
              args in b.target.results &&
              r.error == InvalidCast(MethodResult, b.target.returnType, b.owner, b.name,
                                     b.target.results[args], b.requested)
    ensures args in b.target.results && !Castable(ts, b.target.results[args], b.requested) ==>
              r == Err(InvalidCast(MethodResult, b.target.returnType, b.owner, b.name,
                                   b.target.results[args], b.requested))
    ensures args !in b.target.results ==> r == Err(InvocationFailed)
  {
    if args !in b.target.results then Err(InvocationFailed)
    else CastTo(ts, b.target.results[args], MethodResult, b.target.returnType, b.owner, b.name, b.requested)
  }

  /** Binding depends only on which method names the object has, never on
      what the methods do: nothing is invoked at bind time. */
  lemma BindingInvokesNothing(o: RuntimeObject, methods: map<string, MethodInfo>, name: string, requested: TypeName)
    requires methods.Keys == o.methods.Keys
    ensures Call(Some(o.(methods := methods)), name, requested).Ok? == Call(Some(o), name, requested).Ok?
    ensures Call(Some(o), name, requested).Err? ==>
              Call(Some(o.(methods := methods)), name, requested) == Call(Some(o), name, requested)
  {
  }

  /** An untyped call never fails with InvalidCastException. */
  lemma UntypedCallNeverCastFails(ts: TypeSystem, o: RuntimeObject, name: string, args: seq<Value>)
    requires name in o.methods
    ensures var r := Invoke(ts, CallObject(Some(o), name).value, args);
            r.Err? ==> r.error == InvocationFailed
  {
  }

  /** The typed call is the untyped call followed by a cast. */
  lemma TypedCallIsCastOfUntyped(ts: TypeSystem, o: RuntimeObject, name: string, requested: TypeName,
                                 args: seq<Value>)
    requires name in o.methods
    ensures var typed := Invoke(ts, Call(Some(o), name, requested).value, args);
            var untyped := Invoke(ts, CallObject(Some(o), name).value, args);
            (typed.Ok? <==> untyped.Ok? && Castable(ts, untyped.value, requested)) &&
            (typed.Ok? ==> typed.value == untyped.value) &&
            (untyped.Err? ==> typed == untyped)
  {
  }

  /** A null target fails with NullReferenceException in every accessor,
      before any member is looked up: the outcome does not depend on the
      name being present anywhere. */
  lemma NullTargetRejected(ts: TypeSystem, name: string, requested: TypeName)
    ensures GetFieldOrPropertyValue(ts, None, name, requested) == Err(NullReference(Reading, Some(requested), name))
    ensures Call(None, name, requested) == Err(NullReference(Calling, None, name))
  {
  }
}
