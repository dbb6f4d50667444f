/**
 The generic value writer/reader front-end and the process-wide serializer
 cache. A value writer is the sequence of primitive tokens written so far; a
 value reader is a token sequence with a read position. `ObjectSerializer`,
 its `Serialize`/`Deserialize`, and `DateTime.ToBinary`/`FromBinary` are
 code this model does not see: they are passed in as functions. The two
 serializer operations may throw; the two date conversions are taken to
 return a value.
 */
module Extensions {
  import opened Exceptions
  import opened Runtime

  /** A .NET `int`. */
  newtype int32 = x: int | -0x8000_0000 <= x < 0x8000_0000

  /** A .NET `long`. */
  newtype long = x: int | -0x8000_0000_0000_0000 <= x < 0x8000_0000_0000_0000

  /**
   One primitive value as an `IValueWriter` writes it. The front-end itself
   writes only `Bool` and `Int64`; the others are what a serializer may write.
   */
  datatype Token =
    | Bool(b: bool)
    | Int32(i: int32)
    | Int64(l: long)
    | String(s: string)
    | Bytes(bytes: seq<bv8>)

  /** An `IValueWriter`: the tokens written to it so far. */
  datatype Writer = Writer(tokens: seq<Token>)

  /** An `IValueReader`: a token stream and the position of the next token. */
  datatype Reader = Reader(tokens: seq<Token>, position: nat)

  datatype DateTimeKind = Unspecified | Utc | Local

  /** A `DateTime`; its binary form is produced by the parameters `toBinary`/`fromBinary`. */
  datatype DateTime = DateTime(ticks: int, kind: DateTimeKind)

  /** A boxed object: its runtime type and an identity standing for its state. */
  datatype Object = Object(runtimeType: TypeId, identity: nat)

  /**
   An `ObjectSerializer` instance: the type it was built for and which
   `new ObjectSerializer(t)` call built it, so two serializers for the same
   type built by different calls are different instances.
   */
  datatype ObjectSerializer = ObjectSerializer(forType: TypeId, instance: nat)

  /**
   The static `Serializers` dictionary, with the number of serializers
   built so far (which numbers the next one).
   */
  datatype SerializerCache = SerializerCache(entries: map<TypeId, ObjectSerializer>, built: nat)

  /** What `GetSerializer` leaves behind and returns. */
  datatype Lookup = Lookup(cache: SerializerCache, serializer: ObjectSerializer)

  /**
   What `Write` leaves behind: the serializer cache, which keeps any entry
   the lookup inserted even when serialization then throws, and the writer
   or the exception.
   */
  datatype Written = Written(cache: SerializerCache, result: Result<Writer>)

  /**
   What `Read` leaves behind: the serializer cache, kept even when
   deserialization throws, and the object read (`None` is `null`) with the
   reader after it, or the exception.
   */
  datatype ReadBack = ReadBack(cache: SerializerCache, result: Result<(Option<Object>, Reader)>)

  /** The behaviour of `ObjectSerializer.Serialize`: the tokens it writes for an object, or an exception. */
  type SerializeFn = (ObjectSerializer, Object) -> Result<seq<Token>>

  /** The behaviour of `ObjectSerializer.Deserialize`: the object read and the reader after it, or an exception. */
  type DeserializeFn = (ObjectSerializer, Reader) -> Result<(Option<Object>, Reader)>

  /**
   The cache is consistent: each entry was built for its key, by a
   construction already counted, and no instance serves two types.
   */
  ghost predicate Valid(cache: SerializerCache)
  {
    && (forall t :: t in cache.entries ==> cache.entries[t].forType == t && cache.entries[t].instance < cache.built)
    && (forall t, u :: t in cache.entries && u in cache.entries && t != u ==>
          cache.entries[t].instance != cache.entries[u].instance)
  }

  /** `after` keeps every entry of `before` unchanged. */
  ghost predicate Grows(before: SerializerCache, after: SerializerCache)
  {
    && before.built <= after.built
    && forall t :: t in before.entries ==> t in after.entries && after.entries[t] == before.entries[t]
  }

  /** `IValueReader.ReadInt64`, on the token model: the next token must be a `long`. */
  function ReadInt64(reader: Reader): (r: Result<(long, Reader)>)
    ensures r.Ok? <==> reader.position < |reader.tokens| && reader.tokens[reader.position].Int64?
    ensures r.Ok? ==> r.value.1 == reader.(position := reader.position + 1)
                      && Int64(r.value.0) == reader.tokens[reader.position]
  {
    if reader.position < |reader.tokens| && reader.tokens[reader.position].Int64? then
      Ok((reader.tokens[reader.position].l, reader.(position := reader.position + 1)))
    else
      Throw(ReadFault)
  }

  /** `WriteDate`: appends the date's 64-bit binary form, and nothing else. */
  function WriteDate(writer: Option<Writer>, date: DateTime, toBinary: DateTime -> long): (r: Result<Writer>)
    ensures writer.None? <==> r == Throw(ArgumentNull("writer"))
    ensures writer.Some? ==> r == Ok(Writer(writer.value.tokens + [Int64(toBinary(date))]))
  {
    if writer.None? then Throw(ArgumentNull("writer"))
    else Ok(Writer(writer.value.tokens + [Int64(toBinary(date))]))
  }

  /** `ReadDate`: consumes one 64-bit token and decodes it with `fromBinary`; nothing else is consumed. */
  function ReadDate(reader: Option<Reader>, fromBinary: long -> DateTime): (r: Result<(DateTime, Reader)>)
    ensures reader.None? ==> r == Throw(ArgumentNull("reader"))
    ensures reader.Some? ==>
              var rd := reader.value;
              if rd.position < |rd.tokens| && rd.tokens[rd.position].Int64? then
                r == Ok((fromBinary(rd.tokens[rd.position].l), rd.(position := rd.position + 1)))
              else
                r.Throw?
  {
    if reader.None? then Throw(ArgumentNull("reader"))
    else
      match ReadInt64(reader.value)
      case Ok((l, rest)) => Ok((fromBinary(l), rest))
      case Throw(e) => Throw(e)
  }

  /**
   Writing a date and reading it back from where it was written yields
   `FromBinary(ToBinary(date))` and moves past exactly the one token. Nothing
   here assumes the two conversions are inverse.
   */
  lemma DateRoundTrip(writer: Writer, date: DateTime, toBinary: DateTime -> long, fromBinary: long -> DateTime)
    ensures WriteDate(Some(writer), date, toBinary).Ok?
    ensures var w := WriteDate(Some(writer), date, toBinary).value;
            ReadDate(Some(Reader(w.tokens, |writer.tokens|)), fromBinary)
              == Ok((fromBinary(toBinary(date)), Reader(w.tokens, |writer.tokens| + 1)))
  {
  }

  /**
   `GetSerializer`: the cached serializer for `t`, building and inserting a
   new one only when `t` has no entry. Sequential model of both the
   `GetOrAdd` and the double-checked `lock` variants; in the latter a thread
   losing the insertion race returns its own unused serializer, which this
   sequential model cannot exhibit.
   */
  function GetSerializer(cache: SerializerCache, t: TypeId): (r: Lookup)
    ensures t in r.cache.entries && r.cache.entries[t] == r.serializer
    ensures t in cache.entries ==> r == Lookup(cache, cache.entries[t])
    ensures t !in cache.entries ==>
              && r.cache.entries == cache.entries[t := r.serializer]
              && r.serializer.forType == t
    ensures Valid(cache) && t !in cache.entries ==>
              forall u :: u in cache.entries ==> cache.entries[u].instance != r.serializer.instance
    ensures Grows(cache, r.cache)
    ensures Valid(cache) ==> Valid(r.cache) && r.serializer.forType == t
  {
    if t in cache.entries then Lookup(cache, cache.entries[t])
    else
      var s := ObjectSerializer(t, cache.built);
      Lookup(SerializerCache(cache.entries[t := s], cache.built + 1), s)
  }

  /** The cache after a sequence of `GetSerializer` calls, one per type of `types`. */
  function LookupAll(cache: SerializerCache, types: seq<TypeId>): SerializerCache
    decreases |types|
  {
    if types == [] then cache
    else LookupAll(GetSerializer(cache, types[0]).cache, types[1..])
  }

  /**
   Any sequence of lookups only grows the cache: old entries keep their
   serializer, every looked-up type gains an entry, and consistency is kept.
   */
  lemma {:induction false} LookupAllGrows(cache: SerializerCache, types: seq<TypeId>)
    ensures Grows(cache, LookupAll(cache, types))
    ensures forall j :: 0 <= j < |types| ==> types[j] in LookupAll(cache, types).entries
    ensures Valid(cache) ==> Valid(LookupAll(cache, types))
    decreases |types|
  {
    if types != [] {
      var next := GetSerializer(cache, types[0]).cache;
      LookupAllGrows(next, types[1..]);
      var last := LookupAll(next, types[1..]);
      forall j | 0 <= j < |types|
        ensures types[j] in last.entries
      {
        if j > 0 {
          assert types[j] == types[1..][j - 1];
        }
      }
    }
  }

  /**
   Repeated lookups of a type return the serializer the first lookup
   returned, whatever other lookups happen in between.
   */
  lemma FirstLookupSticks(cache: SerializerCache, t: TypeId, between: seq<TypeId>)
    ensures var first := GetSerializer(cache, t);
            GetSerializer(LookupAll(first.cache, between), t) == Lookup(LookupAll(first.cache, between), first.serializer)
  {
    LookupAllGrows(GetSerializer(cache, t).cache, between);
  }

  /**
   `Write(object)`: a `null` value is written as the single token `false`
   without touching the cache; any other value is written by the cached
   serializer of its runtime type, whose entry stays cached even if
   serialization throws.
   */
  function Write(cache: SerializerCache, writer: Option<Writer>, value: Option<Object>, serialize: SerializeFn): (r: Written)
    ensures writer.None? ==> r == Written(cache, Throw(ArgumentNull("writer")))
    ensures writer.Some? && value.None? ==> r == Written(cache, Ok(Writer(writer.value.tokens + [Bool(false)])))
    ensures writer.Some? && value.Some? ==>
              var t := value.value.runtimeType;
              && t in r.cache.entries
              && r.cache == GetSerializer(cache, t).cache
              && var out := serialize(r.cache.entries[t], value.value);
                 && (r.result.Ok? <==> out.Ok?)
                 && (r.result.Ok? ==> r.result.value.tokens == writer.value.tokens + out.value)
                 && (r.result.Throw? ==> r.result.error == out.error)
    ensures Grows(cache, r.cache) && (Valid(cache) ==> Valid(r.cache))
  {
    if writer.None? then Written(cache, Throw(ArgumentNull("writer")))
    else if value.None? then Written(cache, Ok(Writer(writer.value.tokens + [Bool(false)])))
    else
      var l := GetSerializer(cache, value.value.runtimeType);
      match serialize(l.serializer, value.value)
      case Ok(out) => Written(l.cache, Ok(Writer(writer.value.tokens + out)))
      case Throw(e) => Written(l.cache, Throw(e))
  }

  /**
   `Read(Type)` (and `Read<T>`, which is `Read(typeof(T))`): the cached
   serializer of the requested type deserializes from the reader; its
   entry stays cached even if deserialization throws.
   */
  function Read(cache: SerializerCache, reader: Option<Reader>, t: TypeId, deserialize: DeserializeFn): (r: ReadBack)
    ensures reader.None? ==> r == ReadBack(cache, Throw(ArgumentNull("reader")))
    ensures reader.Some? ==>
              && t in r.cache.entries
              && r.cache == GetSerializer(cache, t).cache
              && r.result == deserialize(r.cache.entries[t], reader.value)
    ensures Grows(cache, r.cache) && (Valid(cache) ==> Valid(r.cache))
  {
    if reader.None? then ReadBack(cache, Throw(ArgumentNull("reader")))
    else
      var l := GetSerializer(cache, t);
      ReadBack(l.cache, deserialize(l.serializer, reader.value))
  }

  /**
   Writing an object and then reading its runtime type uses one and the same
   cache entry, whether or not the write threw: the reader is handed the very
   serializer instance the write looked up, and the read adds nothing to the
   cache.
   */
  lemma WriteThenReadShareSerializer(cache: SerializerCache, writer: Writer, value: Object,
                                     serialize: SerializeFn, reader: Reader, deserialize: DeserializeFn)
    ensures var w := Write(cache, Some(writer), Some(value), serialize);
            var s := GetSerializer(cache, value.runtimeType).serializer;
            Read(w.cache, Some(reader), value.runtimeType, deserialize) == ReadBack(w.cache, deserialize(s, reader))
  {
  }
}
