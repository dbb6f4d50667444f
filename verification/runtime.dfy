/**
 The parts of the .NET runtime the registry and the codec consult: type
 identities with their reflection facts, and messages.
 */
module Runtime {

  /** A .NET `ushort`. */
  newtype ushort = x: int | 0 <= x < 0x1_0000

  /** A message type tag (`ushort MessageType`). */
  type Tag = ushort

  /**
   The identity of a runtime type. The reflection questions the source asks
   (`IsPublic`, `IsClass`, `typeof(Message).IsAssignableFrom`,
   `GetConstructor(Type.EmptyTypes) != null`) are fields, so every
   combination of answers is a possible type. `handle` is the runtime type
   handle: distinct types have distinct handles, so two types that share a
   short `name` (the `t.Name` used in exception messages) are still two
   types. `declaredTag` is the `MessageType` an instance built by the
   parameterless constructor reports.
   */
  datatype TypeId = TypeId(
    handle: nat,
    name: string,
    isPublic: bool,
    isClass: bool,
    isMessage: bool,
    hasParameterlessConstructor: bool,
    declaredTag: Tag)

  /** A message instance: the tag it reports and the concrete type it was built as. */
  datatype Message = Message(messageType: Tag, concreteType: TypeId)

  /** Invoking the parameterless constructor of `t`. */
  function Construct(t: TypeId): Message
  {
    Message(t.declaredTag, t)
  }
}
