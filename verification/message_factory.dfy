/**
 The message registry: a map from a 16-bit message type tag to a
 zero-argument factory, filled by `Register`/`Discover` and consulted by
 `Create`. The `lock` sections are left out; the model is sequential.
 */
module MessageFactory {
  import opened Exceptions
  import opened Runtime

  /** A `Func<Message>`; Dafny functions are deterministic, so each factory produces a fixed tag. */
  type Factory = () -> Message

  /** One `KeyValuePair<Type, Func<Message>>` of a batch. `Register` never consults the key. */
  datatype Entry = Entry(key: TypeId, factory: Factory)

  /** The private `messageCtors` dictionary. */
  type Registry = map<Tag, Factory>

  /**
   What a registration leaves behind: the registry (possibly grown even when
   an exception was thrown) and the exception, if any.
   */
  datatype Outcome = Outcome(registry: Registry, thrown: Option<Exception>)

  /** An assembly, as the list of types `GetTypes` returns. */
  datatype Assembly = Assembly(types: seq<TypeId>)

  /** The tag of the message a factory produces. */
  function TagOf(f: Factory): Tag
  {
    f().messageType
  }

  /** The tags the factories of a batch produce, in batch order. */
  function Tags(batch: seq<Entry>): (ts: seq<Tag>)
    ensures |ts| == |batch|
    ensures forall j :: 0 <= j < |batch| ==> ts[j] == TagOf(batch[j].factory)
  {
    seq(|batch|, j requires 0 <= j < |batch| => TagOf(batch[j].factory))
  }

  /** Every entry is keyed by the tag its factory produces. */
  ghost predicate WellKeyed(reg: Registry)
  {
    forall t :: t in reg ==> TagOf(reg[t]) == t
  }

  /**
   The `j`-th tag of a batch can be added: it is neither in the registry
   nor produced by an earlier entry of the same batch.
   */
  predicate FreshAt(reg: Registry, ts: seq<Tag>, j: int)
    requires 0 <= j < |ts|
  {
    ts[j] !in reg && ts[j] !in ts[..j]
  }

  /** The first `k` tags of a batch are all fresh. */
  ghost predicate FreshPrefix(reg: Registry, ts: seq<Tag>, k: int)
    requires 0 <= k <= |ts|
  {
    forall j :: 0 <= j < k ==> FreshAt(reg, ts, j)
  }

  /** `m` is `reg` with the keys `added` inserted, and every old entry as it was. */
  ghost predicate Extends(reg: Registry, m: Registry, added: seq<Tag>)
  {
    && (forall t :: t in m <==> t in reg || t in added)
    && (forall t :: t in reg ==> m[t] == reg[t])
  }

  /**
   The shape every batch registration has: the first `k` tags were fresh and
   were added one by one, where `k` is the number of new entries; either all
   tags were added and nothing was thrown, or tag `k` clashed, an
   `ArgumentException` naming it was thrown, and no later entry was added.
   */
  ghost predicate PartialBatch(reg: Registry, ts: seq<Tag>, r: Outcome)
  {
    var k := |r.registry| - |reg|;
    && 0 <= k <= |ts|
    && (forall j :: 0 <= j < k ==> FreshAt(reg, ts, j))
    && (r.thrown.None? <==> k == |ts|)
    && (k < |ts| ==>
          && !FreshAt(reg, ts, k)
          && r.thrown == Some(Argument("messageTypes", DuplicateMessageType(ts[k]))))
    && Extends(reg, r.registry, ts[..k])
  }

  /** A batch that threw nothing has registered every tag it carried. */
  lemma CompleteBatchRegistersAll(reg: Registry, ts: seq<Tag>, r: Outcome)
    requires PartialBatch(reg, ts, r) && r.thrown.None?
    ensures forall j :: 0 <= j < |ts| ==> ts[j] in r.registry
  {
    assert ts[..|ts|] == ts;
  }

  /** A batch registration succeeds exactly when every tag of the batch is fresh. */
  lemma SucceedsIffAllFresh(reg: Registry, ts: seq<Tag>, r: Outcome)
    requires PartialBatch(reg, ts, r)
    ensures r.thrown.None? <==> forall j :: 0 <= j < |ts| ==> FreshAt(reg, ts, j)
  {
  }

  /** A tag already among the registry's keys is not fresh. */
  lemma ClashIsNotFresh(reg: Registry, current: Registry, ts: seq<Tag>, i: int)
    requires 0 <= i < |ts|
    requires Extends(reg, current, ts[..i])
    requires ts[i] in current
    ensures !FreshAt(reg, ts, i)
  {
  }

  /** Inserting a tag not yet in the registry extends the registered prefix by that tag. */
  lemma InsertFresh(reg: Registry, current: Registry, ts: seq<Tag>, i: int, f: Factory)
    requires 0 <= i < |ts|
    requires FreshPrefix(reg, ts, i)
    requires Extends(reg, current, ts[..i])
    requires ts[i] !in current
    ensures FreshPrefix(reg, ts, i + 1)
    ensures Extends(reg, current[ts[i] := f], ts[..i + 1])
    ensures |current[ts[i] := f]| == |current| + 1
  {
  }

  /** `m` stores the factory of each of the first `k` entries of the batch under the tag it produces. */
  ghost predicate Stores(m: Registry, batch: seq<Entry>, k: int)
    requires 0 <= k <= |batch|
  {
    forall j :: 0 <= j < k ==> TagOf(batch[j].factory) in m && m[TagOf(batch[j].factory)] == batch[j].factory
  }

  /** Inserting the next fresh entry keeps the earlier entries stored. */
  lemma InsertStores(reg: Registry, current: Registry, batch: seq<Entry>, i: int)
    requires 0 <= i < |batch|
    requires Stores(current, batch, i)
    requires FreshPrefix(reg, Tags(batch), i + 1)
    ensures Stores(current[TagOf(batch[i].factory) := batch[i].factory], batch, i + 1)
  {
    var ts := Tags(batch);
    var x := ts[i];
    assert FreshAt(reg, ts, i);
    forall j | 0 <= j < i
      ensures ts[j] != x
    {
      assert ts[j] in ts[..i];
    }
  }

  /**
   `Register(IEnumerable<KeyValuePair<Type, Func<Message>>>)`: invokes each
   factory once and inserts it under the tag of the message it produced,
   throwing on the first tag already present. Entries inserted before the
   clash stay registered.
   */
  method Register(reg: Registry, messageTypes: Option<seq<Entry>>) returns (r: Outcome)
    ensures messageTypes.None? ==> r == Outcome(reg, Some(ArgumentNull("messageTypes")))
    ensures messageTypes.Some? ==> PartialBatch(reg, Tags(messageTypes.value), r)
    ensures messageTypes.Some? ==>
              var batch := messageTypes.value;
              Stores(r.registry, batch, |r.registry| - |reg|)
    ensures WellKeyed(reg) ==> WellKeyed(r.registry)
  {
    if messageTypes.None? {
      return Outcome(reg, Some(ArgumentNull("messageTypes")));
    }
    var batch := messageTypes.value;
    ghost var ts := Tags(batch);
    var current: Registry := reg;
    var i := 0;
    while i < |batch|
      invariant 0 <= i <= |batch|
      invariant |current| == |reg| + i
      invariant FreshPrefix(reg, ts, i)
      invariant Extends(reg, current, ts[..i])
      invariant Stores(current, batch, i)
      invariant WellKeyed(reg) ==> WellKeyed(current)
    {
      var m := batch[i].factory();
      if m.messageType in current {
        r := Outcome(current, Some(Argument("messageTypes", DuplicateMessageType(m.messageType))));
        ClashIsNotFresh(reg, current, ts, i);
        return;
      }
      InsertFresh(reg, current, ts, i, batch[i].factory);
      InsertStores(reg, current, batch, i);
      current := current[m.messageType := batch[i].factory];
      i := i + 1;
    }
    assert ts[..i] == ts;
    r := Outcome(current, None);
  }

  /** `t.IsPublic && t.IsClass && typeof(Message).IsAssignableFrom(t)`. */
  predicate IsMessageClass(t: TypeId)
  {
    t.isPublic && t.isClass && t.isMessage
  }

  /** The `j`-th type passes every check `Register(IEnumerable<Type>)` makes before adding it. */
  predicate Acceptable(types: seq<TypeId>, j: int)
    requires 0 <= j < |types|
  {
    IsMessageClass(types[j]) && types[j].hasParameterlessConstructor && types[j] !in types[..j]
  }

  /** The exception `Register(IEnumerable<Type>)` throws for an unacceptable type, checks taken in source order. */
  function Rejection(t: TypeId): Exception
  {
    if !IsMessageClass(t) then Argument("messageTypes", NotAMessage(t.name))
    else if !t.hasParameterlessConstructor then Argument("messageTypes", NoParameterlessConstructor(t.name))
    else Argument("", DuplicateKey(t.name))
  }

  /**
   `Register(IEnumerable<Type>)`: validates every type (a public class
   implementing `Message`, with a parameterless constructor, not repeated)
   before registering anything, then registers the constructors as one
   batch. The batch step is the non-atomic `Register` above.
   */
  method RegisterTypes(reg: Registry, messageTypes: Option<seq<TypeId>>) returns (r: Outcome)
    ensures messageTypes.None? ==> r == Outcome(reg, Some(ArgumentNull("messageTypes")))
    ensures messageTypes.Some? ==>
              var types := messageTypes.value;
              if forall j :: 0 <= j < |types| ==> Acceptable(types, j) then
                && PartialBatch(reg, DeclaredTags(types), r)
                && forall j :: 0 <= j < |r.registry| - |reg| ==> Create(r.registry, types[j].declaredTag) == Some(Construct(types[j]))
              else
                && r.registry == reg
                && exists i :: 0 <= i < |types| && !Acceptable(types, i) && r.thrown == Some(Rejection(types[i]))
                               && forall j :: 0 <= j < i ==> Acceptable(types, j)
    ensures WellKeyed(reg) ==> WellKeyed(r.registry)
  {
    if messageTypes.None? {
      return Outcome(reg, Some(ArgumentNull("messageTypes")));
    }
    var types := messageTypes.value;
    var entries: seq<Entry> := [];
    var i := 0;
    while i < |types|
      invariant 0 <= i <= |types|
      invariant |entries| == i
      invariant forall j :: 0 <= j < i ==> Acceptable(types, j)
      invariant forall j :: 0 <= j < i ==> entries[j].key == types[j] && entries[j].factory() == Construct(types[j])
    {
      var t := types[i];
      if !t.isPublic || !t.isClass || !t.isMessage {
        r := Outcome(reg, Some(Argument("messageTypes", NotAMessage(t.name))));
        assert !Acceptable(types, i);
        return;
      }
      if !t.hasParameterlessConstructor {
        r := Outcome(reg, Some(Argument("messageTypes", NoParameterlessConstructor(t.name))));
        assert !Acceptable(types, i);
        return;
      }
      if t in types[..i] {
        // `Dictionary.Add` on a key already present; its exception carries no parameter name.
        r := Outcome(reg, Some(Argument("", DuplicateKey(t.name))));
        assert !Acceptable(types, i);
        return;
      }
      var f: Factory := () => Construct(t);
      entries := entries + [Entry(t, f)];
      i := i + 1;
    }
    assert Tags(entries) == DeclaredTags(types);
    r := Register(reg, Some(entries));
  }

  /** The tags the constructors of `types` produce. */
  function DeclaredTags(types: seq<TypeId>): (ts: seq<Tag>)
    ensures |ts| == |types|
    ensures forall j :: 0 <= j < |types| ==> ts[j] == types[j].declaredTag
  {
    seq(|types|, j requires 0 <= j < |types| => types[j].declaredTag)
  }

  /** The `Where` filter of `Discover`: public classes implementing `Message`, in order. */
  function MessageClasses(types: seq<TypeId>): (r: seq<TypeId>)
    ensures forall j :: 0 <= j < |r| ==> IsMessageClass(r[j])
    ensures forall t :: t in types && IsMessageClass(t) <==> t in r
    ensures |r| <= |types|
  {
    if types == [] then []
    else if IsMessageClass(types[0]) then [types[0]] + MessageClasses(types[1..])
    else MessageClasses(types[1..])
  }

  /** Filtering a single type keeps it exactly when it is a message class. */
  lemma MessageClassesSingleton(t: TypeId)
    ensures MessageClasses([t]) == if IsMessageClass(t) then [t] else []
  {
    assert [t][1..] == [];
  }

  /**
   Filtering distributes over concatenation: the classes kept keep the
   assembly's order and multiplicity.
   */
  lemma {:induction false} MessageClassesAppend(a: seq<TypeId>, b: seq<TypeId>)
    ensures MessageClasses(a + b) == MessageClasses(a) + MessageClasses(b)
  {
    if a == [] {
      assert a + b == b;
    } else {
      assert (a + b)[0] == a[0];
      assert (a + b)[1..] == a[1..] + b;
      MessageClassesAppend(a[1..], b);
    }
  }

  /**
   `Discover(Assembly)`: registers every public class implementing `Message`
   that the assembly declares, exactly as `Register(IEnumerable<Type>)` does
   for the filtered list. The filter guarantees the
   "not an implementation of Message" rejection never fires.
   */
  method Discover(reg: Registry, assembly: Option<Assembly>) returns (r: Outcome)
    ensures assembly.None? ==> r == Outcome(reg, Some(ArgumentNull("assembly")))
    ensures assembly.Some? ==>
              var types := MessageClasses(assembly.value.types);
              if forall j :: 0 <= j < |types| ==> Acceptable(types, j) then
                && PartialBatch(reg, DeclaredTags(types), r)
                && forall j :: 0 <= j < |r.registry| - |reg| ==> Create(r.registry, types[j].declaredTag) == Some(Construct(types[j]))
              else
                && r.registry == reg
                && exists i :: 0 <= i < |types| && !Acceptable(types, i) && r.thrown == Some(Rejection(types[i]))
                               && forall j :: 0 <= j < i ==> Acceptable(types, j)
    ensures r.thrown.Some? && r.thrown.value.Argument? ==> !r.thrown.value.reason.NotAMessage?
    ensures WellKeyed(reg) ==> WellKeyed(r.registry)
  {
    if assembly.None? {
      return Outcome(reg, Some(ArgumentNull("assembly")));
    }
    r := RegisterTypes(reg, Some(MessageClasses(assembly.value.types)));
  }

  /**
   `Create(ushort)`: `null` for an unregistered tag, otherwise the message
   the stored factory builds, which reports the requested tag.
   */
  function Create(reg: Registry, messageType: Tag): (r: Option<Message>)
    ensures r.None? <==> messageType !in reg
    ensures r.Some? ==> r.value == reg[messageType]()
    ensures WellKeyed(reg) && r.Some? ==> r.value.messageType == messageType
  {
    if messageType in reg then Some(reg[messageType]()) else None
  }
}
