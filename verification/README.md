# Tempest client side: message registry, value-writer front-end, client connect

A Dafny model of three sequential pieces of the Tempest message transport:

- **The message registry** (`MessageFactory`): a map from a 16-bit message
  type tag to a zero-argument factory. Batches are registered by invoking
  each factory once and keying it by the tag of the message it produced.
  `Create` looks a tag up and either returns `null` or runs the factory.
- **The generic value writer/reader front-end** (`Extensions`): date
  encoding through a 64-bit integer, the `null` marker of `Write`, and the
  process-wide serializer cache with get-or-add semantics. Writers and
  readers are sequences of primitive tokens.
- **The client connect guard and completion dispatch**
  (`NetworkClientConnection`): `Connect` checks its guards in a fixed order,
  then starts the socket connect. The completion maps success or failure to
  exactly one of the two notifications. Every step is recorded in an effect
  trace, so ordering can be stated.

Files: `runtime.dfy` (tags, type identities, messages), `exceptions.dfy`
(nullable references, the thrown exceptions, results),
`message_factory.dfy`, `extensions.dfy`, `network_client_connection.dfy`.

Most code that is not visible here is passed in as functions: a factory
(`() -> Message`), `ObjectSerializer.Serialize` and `Deserialize`, which
may each yield a value or throw, and `DateTime.ToBinary` and `FromBinary`,
which are taken to return a value. Three assumptions go beyond that, each
listed under "Left out": the `ObjectSerializer` constructor always
succeeds, a serializer that throws leaves no partial output or consumption
behind, and subscribers never throw. The reflection
questions (`IsPublic`, `IsClass`, assignable to `Message`, has a
parameterless constructor) are fields of a type identity, so every
combination of answers is possible. A type identity also carries an
opaque handle, so two distinct types never compare equal even when their
names and answers agree. The socket is an input saying whether
`ConnectAsync` and `ReceiveAsync` finished synchronously, and with which
error. `IsConnected` is an input field of the client.

Behaviour worth noting, which the model follows as the code has it:

- A batch registration is **not** all-or-nothing. Entries before a
  duplicate tag stay registered (MessageFactory.cs:78-85).
  `Register(IEnumerable<Type>)` validates types before registering. Two
  distinct types that declare the same tag still leave a partial
  registration behind.
- `Connect` guards only on `IsConnected`. There is no separate
  "connecting" state check (NetworkClientConnection.cs:47-48).
- A non-null `Write` hands the whole value to the serializer of its runtime
  type. The front-end itself writes no leading `true` presence flag
  (Extensions.cs:77-78).
- A failed connect raises `ConnectionFailed` with arguments that carry only
  the connection, not the socket error (NetworkClientConnection.cs:65).

## Model

| member | source | states |
|---|---|---|
| `MessageFactory.Register` | MessageFactory.cs:71-87 | A null batch throws `ArgumentNullException("messageTypes")` and changes nothing. Otherwise, with k the number of entries added: the first k tags were each absent from the registry and from the earlier batch entries, and each was stored with its own factory. Either all entries were added and nothing thrown, or tag k clashed (already present, or produced earlier in the batch), an `ArgumentException` naming it was thrown, and no later entry was added. Old entries are never changed. Keying by the produced tag is kept. |
| `MessageFactory.CompleteBatchRegistersAll` | MessageFactory.cs:77-83 | A batch registration that threw nothing has registered every tag of the batch. |
| `MessageFactory.SucceedsIffAllFresh` | MessageFactory.cs:78-85 | A batch registration throws nothing exactly when every tag of the batch is new, both against the registry and within the batch. |
| `MessageFactory.RegisterTypes` | MessageFactory.cs:96-122 | A null argument throws `ArgumentNullException`. The first type that is not a public class implementing `Message`, lacks a parameterless constructor, or repeats an earlier type throws the matching `ArgumentException`, in that check order, before anything is registered. If every type passes, the batch step behaves as `Register` over the declared tags, and `Create` on each registered tag builds an instance of its type. |
| `MessageFactory.MessageClasses` | MessageFactory.cs:55 | The discovery filter keeps exactly the public classes implementing `Message` that the assembly declares. The result is never longer than the assembly's type list. |
| `MessageFactory.MessageClassesSingleton` | MessageFactory.cs:55 | Filtering one type keeps it exactly when it is a public class implementing `Message`. |
| `MessageFactory.MessageClassesAppend` | MessageFactory.cs:55 | Filtering a concatenation is the concatenation of the filtered parts. With the singleton case, the kept types are in the assembly's order and keep their multiplicity. |
| `MessageFactory.Discover` | MessageFactory.cs:44-56 | A null assembly throws `ArgumentNullException("assembly")` and changes nothing. Otherwise the assembly's public classes implementing `Message` are registered, in the assembly's order. If each of them has a parameterless constructor and none repeats, the batch behaves as `Register` over their declared tags, and `Create` on each registered tag builds an instance of its type. Otherwise the first failing class throws its rejection and nothing is registered. Discovery never fails with "not an implementation of Message", and it keeps every entry keyed by its produced tag. |
| `MessageFactory.Create` | MessageFactory.cs:131-141 | Returns null exactly for an unregistered tag. Otherwise it returns the stored factory's message. In a registry keyed by produced tags, that message reports the requested tag. |
| `Extensions.WriteDate` | Extensions.cs:41-47 | A null writer throws `ArgumentNullException("writer")`. Otherwise exactly one 64-bit token holding `ToBinary(date)` is appended. |
| `Extensions.ReadDate` | Extensions.cs:52-58 | A null reader throws `ArgumentNullException("reader")`. Otherwise exactly one 64-bit token is consumed and decoded with `FromBinary`, and a reader not positioned at one throws. |
| `Extensions.DateRoundTrip` | Extensions.cs:41-58 | Reading back a written date from where it was written yields `FromBinary(ToBinary(date))` and consumes exactly that token. The two conversions are not assumed to be inverses. |
| `Extensions.GetSerializer` | Extensions.cs:81-103 | After the call the type has an entry, and the returned serializer is that entry. A cached entry is returned without changing the cache. A new serializer, built for the type and distinct from every cached instance, is inserted only when the type was absent. No entry is ever replaced, and cache consistency is kept. |
| `Extensions.LookupAllGrows` | Extensions.cs:81-103 | After any sequence of lookups, every earlier entry still holds its serializer, every looked-up type has an entry, and consistency is kept. |
| `Extensions.FirstLookupSticks` | Extensions.cs:81-103 | Whatever other lookups happen in between, a later lookup of a type returns the serializer instance of the first lookup and leaves the cache unchanged. |
| `Extensions.Write` | Extensions.cs:66-79 | A null writer throws `ArgumentNullException("writer")` and leaves the cache untouched. A null value appends exactly the token `false` and leaves the cache untouched. Any other value is written by the serializer cached for its runtime type. The write succeeds exactly when that serializer does and appends exactly its tokens; otherwise it throws the serializer's exception. On both paths the serializer lookup's cache is kept, and the cache only grows. |
| `Extensions.Read` | Extensions.cs:105-117 | A null reader throws `ArgumentNullException("reader")` and leaves the cache untouched. Otherwise the serializer cached for the requested type deserializes: its result or its exception is what `Read` yields. On both paths the lookup's cache is kept, and the cache only grows. |
| `Extensions.WriteThenReadShareSerializer` | Extensions.cs:66-117 | After writing a value, whether or not the write threw, reading its runtime type uses the very serializer instance the write used, and adds nothing to the cache. |
| `NetworkClientConnection.Connect` | Providers/Network/NetworkClientConnection.cs:40-58 | The guards apply in this order: a null endpoint throws `ArgumentNullException`, then a request including the unreliable channel throws `NotSupportedException` (even with the reliable flag set), then an already connected client throws `InvalidOperationException`. The call succeeds exactly when all three pass. A successful call creates a fresh socket, starts the connect, and runs the completion inline exactly when `ConnectAsync` finished synchronously. The only change to the client record is the new socket: the connected flag, the buffer and both subscriber lists are kept. |
| `NetworkClientConnection.OnConnected` | Providers/Network/NetworkClientConnection.cs:80-85 | Raising `Connected` is followed by exactly one invocation per subscriber: the j-th invocation after the raise is the j-th subscriber, for `Connected`. Nothing else happens. With no subscribers it does nothing beyond the raise itself. |
| `NetworkClientConnection.OnConnectionFailed` | Providers/Network/NetworkClientConnection.cs:87-92 | Raising `ConnectionFailed` is followed by exactly one invocation per subscriber: the j-th invocation after the raise is the j-th subscriber, for `ConnectionFailed`. Nothing else happens. With no subscribers it does nothing beyond the raise itself. |
| `NetworkClientConnection.Invoke` | Providers/Network/NetworkClientConnection.cs:82-84 | Invoking a multicast handler yields one effect per subscriber, and the j-th effect is the invocation of the j-th subscriber. |
| `NetworkClientConnection.ConnectCompleted` | Providers/Network/NetworkClientConnection.cs:60-78 | The completion leaves the tracked client record unchanged. It starts a receive exactly on success and calls `Disconnect(true)` exactly on failure. It processes the receive inline exactly when the connect succeeded and the receive finished synchronously. |
| `NetworkClientConnection.ExactlyOneNotification` | Providers/Network/NetworkClientConnection.cs:62-77 | Every completion raises exactly one of `Connected` and `ConnectionFailed`: `Connected` exactly on success, `ConnectionFailed` exactly on failure. |
| `NetworkClientConnection.OnlyRaisedEventsHandlersRun` | Providers/Network/NetworkClientConnection.cs:60-92 | The raised event's subscribers run, in order, at the end of the completion. The other event's subscribers never run. |
| `NetworkClientConnection.CompletionOrdering` | Providers/Network/NetworkClientConnection.cs:60-78 | A failed completion calls `Disconnect(true)`, then raises `ConnectionFailed`, and after that only invokes subscribers, one per `ConnectionFailed` subscriber. It sets up and starts no receive. A successful one calls no `Disconnect` at all. Before raising `Connected` it points the receive at the whole message buffer from offset 0, builds a reader over that buffer, starts the receive, and processes it inline exactly when it finished synchronously. After the raise it only invokes subscribers, one per `Connected` subscriber. |
| `NetworkClientConnection.SynchronousCompletionSamePath` | Providers/Network/NetworkClientConnection.cs:54-57 | A connect that finishes synchronously does exactly what a pending connect followed by the asynchronous completion does. |

## Left out

- Concurrency: the `lock` sections of the registry and the serializer cache, and `ConcurrentDictionary.GetOrAdd`, are left out because the model is sequential. The non-`NET_4` cache variant has a race in which a thread that loses the insert returns its own unused serializer; a sequential model cannot exhibit it.
- Reflection and IL emission: the type checks are fields of a type identity. The emitted constructor thunk is a Dafny function that builds the type's message.
- `NetworkClientConnection.Invoke`: subscribers are modelled as never throwing. In the source a throwing subscriber stops the later subscribers from running (NetworkClientConnection.cs:84, 91). The exception then propagates out of `ConnectCompleted`, and out of `Connect` when the connect completed synchronously (NetworkClientConnection.cs:57).
- Null references inside a batch are not modelled: a null factory, a factory that returns null (MessageFactory.cs:80-81), or a null element of the type list (MessageFactory.cs:106). Each makes the source throw a `NullReferenceException`. The model's factories always return a message, and its type lists hold no nulls.
- Factories are Dafny functions, so they are deterministic. A `Func<Message>` that reports different tags on different calls is not modelled, and `Create`'s tag guarantee relies on this. A factory that throws is not modelled either.
- Dictionary enumeration order: `Register(IEnumerable<Type>)` hands its local dictionary to the batch step. The model takes the dictionary's enumeration order to be insertion order.
- `Dictionary.Add` on a repeated type throws an `ArgumentException` with no parameter name. The model gives it the empty parameter name.
- `Discover()` without arguments takes the calling assembly. The caller supplies the assembly here, because stack inspection is platform behaviour.
- Extensions.GetSerializer: building a serializer for a type that has none is modelled as always succeeding, so after every lookup the type has an entry. `new ObjectSerializer(type)` (Extensions.cs:85, 93) is not part of this model. If it threw, the exception would propagate out of `GetSerializer` and the cache would stay as it was.
- Extensions.Write: when the serializer throws, the thrown result carries no writer. Tokens the serializer had already written into the caller's writer before throwing (Extensions.cs:78) are not modelled.
- Extensions.Read: when the deserializer throws, the thrown result carries no reader. How far the deserializer had already advanced the caller's reader before throwing (Extensions.cs:116) is not modelled.
- `ObjectSerializer`, `IValueWriter` and `BufferValueReader` are not part of this model. Serialization and deserialization are function parameters, and a writer is a token sequence. A primitive read that finds the wrong token throws one generic read fault, standing for whatever the reader throws.
- `Read<T>`: the `(T)` cast of the result and the `new()` constraint are not modelled. `Read<T>` is `Read` with the requested type.
- `DateTime.ToBinary`/`FromBinary` and time-zone handling are function parameters, and the model does not assume they are inverses.
- Extensions.ReadDate: `FromBinary` is taken to return a value. An `ArgumentException` thrown by `FromBinary` for an out-of-range 64-bit value is not modelled.
- Sockets: `Socket`, `ConnectAsync`, `ReceiveAsync` and the swap of `SocketAsyncEventArgs` completion handlers are replaced by an input saying how each operation completed.
- NetworkClientConnection.ConnectCompleted: `NetworkConnection` is not part of this model. What `Disconnect(true)` does to the connection state is not modelled: the client record is left as it was and the call is recorded in the trace. `ReliableReceiveCompleted` is recorded only as the inline call. Receive-side frame extraction and the wire layout are not modelled.
- `ClientConnectionEventArgs` rejects a null connection (IClientConnection.cs:67-68). The client always passes itself, so this check never fires and is not modelled.
- `MessageTypes` is modelled as two booleans, one per flag. The flags' numeric values are not visible here.
