/**
 * `JsState`: the per-thread registration sets of the serializer, recording
 * the types whose serializer or deserializer is currently running. A set that
 * is null counts as empty, is created by the first registration and is
 * nulled again by `Reset`.
 */
module SerializerState {
  import opened Common

  /** A type, by its full name. */
  type TypeName = string

  /** `In*<T>()`: the set exists and holds the type. */
  predicate Registered(fns: Option<set<TypeName>>, t: TypeName) {
    fns.Some? && t in fns.value
  }

  /** `Register*<T>()`: creates the set when it is null, then adds the type. */
  function Register(fns: Option<set<TypeName>>, t: TypeName): (r: Option<set<TypeName>>)
    ensures r.Some?
  {
    Some((if fns.None? then {} else fns.value) + {t})
  }

  /** `UnRegister*<T>()`: removes the type; a null set stays null. */
  function Unregister(fns: Option<set<TypeName>>, t: TypeName): (r: Option<set<TypeName>>)
    ensures fns.None? <==> r.None?
  {
    if fns.None? then None else Some(fns.value - {t})
  }

  /** After registering `u`, exactly `u` and the types registered before are registered. */
  lemma RegisterAdds(fns: Option<set<TypeName>>, u: TypeName, t: TypeName)
    ensures Registered(Register(fns, u), t) <==> t == u || Registered(fns, t)
  {
  }

  /** After unregistering `u`, `u` is not registered and every other type is as before. */
  lemma UnregisterRemoves(fns: Option<set<TypeName>>, u: TypeName, t: TypeName)
    ensures Registered(Unregister(fns, u), t) <==> t != u && Registered(fns, t)
  {
  }

  /** Registering and then unregistering a type that was not registered leaves the same registrations. */
  lemma RegisterThenUnregister(fns: Option<set<TypeName>>, u: TypeName, t: TypeName)
    requires !Registered(fns, u)
    ensures Registered(Unregister(Register(fns, u), u), t) <==> Registered(fns, t)
  {
  }

  class JsState {
    var inSerializerFns: Option<set<TypeName>>
    var inDeserializerFns: Option<set<TypeName>>

    /** The initial state: an empty serializer set and no deserializer set. */
    constructor ()
      ensures inSerializerFns == Some({}) && inDeserializerFns.None?
    {
      inSerializerFns := Some({});
      inDeserializerFns := None;
    }

    /** `InSerializer<T>()`. */
    function InSerializer(t: TypeName): bool
      reads this
    {
      Registered(inSerializerFns, t)
    }

    /** `InDeserializer<T>()`. */
    function InDeserializer(t: TypeName): bool
      reads this
    {
      Registered(inDeserializerFns, t)
    }

    /** `RegisterSerializer<T>()`: the type is then registered; the deserializer set is untouched. */
    method RegisterSerializer(t: TypeName)
      modifies this
      ensures inSerializerFns == Register(old(inSerializerFns), t)
      ensures inDeserializerFns == old(inDeserializerFns)
      ensures InSerializer(t)
    {
      if inSerializerFns.None? {
        inSerializerFns := Some({});
      }
      inSerializerFns := Some(inSerializerFns.value + {t});
    }

    /** `UnRegisterSerializer<T>()`. */
    method UnRegisterSerializer(t: TypeName)
      modifies this
      ensures inSerializerFns == Unregister(old(inSerializerFns), t)
      ensures inDeserializerFns == old(inDeserializerFns)
      ensures !InSerializer(t)
    {
      if inSerializerFns.None? {
        return;
      }
      inSerializerFns := Some(inSerializerFns.value - {t});
    }

    /** `RegisterDeserializer<T>()`: the type is then registered; the serializer set is untouched. */
    method RegisterDeserializer(t: TypeName)
      modifies this
      ensures inDeserializerFns == Register(old(inDeserializerFns), t)
      ensures inSerializerFns == old(inSerializerFns)
      ensures InDeserializer(t)
    {
      if inDeserializerFns.None? {
        inDeserializerFns := Some({});
      }
      inDeserializerFns := Some(inDeserializerFns.value + {t});
    }

    /** `UnRegisterDeserializer<T>()`. */
    method UnRegisterDeserializer(t: TypeName)
      modifies this
      ensures inDeserializerFns == Unregister(old(inDeserializerFns), t)
      ensures inSerializerFns == old(inSerializerFns)
      ensures !InDeserializer(t)
    {
      if inDeserializerFns.None? {
        return;
      }
      inDeserializerFns := Some(inDeserializerFns.value - {t});
    }

    /** `Reset`: both sets null, so no type is registered in either. */
    method Reset()
      modifies this
      ensures inSerializerFns.None? && inDeserializerFns.None?
      ensures forall t :: !InSerializer(t) && !InDeserializer(t)
    {
      inSerializerFns := None;
      inDeserializerFns := None;
    }
  }
}
