# NexusCore core in Dafny

This project models the parts of the NexusCore chat and file-transfer server
(repository FlowEngine) whose behaviour is written out in its headers:

- **MemoryPool** (`Core/MemoryPool.h`): a bounded FIFO pool of reusable objects.
  The constructor pre-fills it. `Acquire` hands out the front idle object, or a
  newly allocated one when the pool is empty. `Release` appends an object while
  the pool is below its maximum size and discards it otherwise. In the model the
  pool is a class whose `pool` field is the queue, a `seq` of object references.
  A pooled object is a `PooledObject`, and `new PooledObject()` stands for
  `std::make_unique<T>()`. The same queue discipline is also written as pure
  functions (`Acquired`, `PoolAfterAcquire`, `PoolAfterRelease`, `FinalPool`,
  `Handed`). The class methods are proved against these functions, and the
  lemmas over arbitrary call sequences (size bound, FIFO order) are stated on them.
- **Protocol** (`Common/Protocol.h`): the packed 8-byte `PacketHeader`, its two
  constructors, and its byte image on a little-endian target (the struct is declared
  under `#pragma pack(1)`, and the packet handlers receive a `PacketHeader*`
  beside a `char*` payload, `Core/Session.h:61` and `Core/PacketHandler.h:286`). `Encode` gives
  that image and `Decode` reads it back. The module also holds the message
  identifiers, error codes and configuration constants, with lemmas about them.
- **Session** (`Core/Session.h`): the `PerIoContext` constructor, which zeroes the
  OVERLAPPED block and the 4096-byte receive buffer and points the `WSABUF`
  descriptor at that buffer, and the `SendData` constructor, which copies an
  outgoing buffer into fresh storage. `ZeroMemory` and `memcpy` are written as
  loops over arrays.
- **Exceptions** (`Common/Exception.h`): the base exception with `GetMessage` and
  `what`, and the five derived exceptions that put a subsystem prefix in front of
  their message.

Constants keep the source's names (`LOGIN_REQ`, `MAX_PACKET_SIZE`, ...).
Fixed-width integers are subset types (`uint8`, `uint16`, `uint32`, `uint64`,
`int32`); `char` buffers are `array<uint8>` holding the byte values.

`what()` returns `message_.c_str()`. A reader of that pointer sees the text up to
the first NUL character. The model takes `What()` to be that text. So `What()`
equals `GetMessage()` exactly when the message holds no NUL character, and
`Exceptions.WhatMatchesGetMessage` proves this for the derived exceptions.

`Release` takes a `std::unique_ptr`. The caller therefore owns the object
exclusively, and it cannot be one of the pool's idle objects. The model states
this ownership as the precondition `obj !in pool`. The pool invariant `Valid()`
says the idle objects are pairwise distinct and that there are at most
`max(initial_size, max_size)` of them.

## Model

| member | source | states |
|---|---|---|
| `MemoryPool.MemoryPool.constructor` | Core/MemoryPool.h:13-18 | the pool holds exactly `initialSize` idle objects, all newly allocated and pairwise distinct; defaults are 100 and 1000 |
| `MemoryPool.MemoryPool.Acquire` | Core/MemoryPool.h:22-31 | on an empty pool: a newly allocated object, and the pool stays empty; otherwise: the front object, and the pool becomes its old tail in order |
| `MemoryPool.MemoryPool.Release` | Core/MemoryPool.h:33-41 | null: nothing changes; below `maxSize`: the object is appended at the back; at or above `maxSize`: the pool is unchanged (object discarded); the invariant is kept |
| `MemoryPool.MemoryPool.GetPoolSize` | Core/MemoryPool.h:43-46 | returns the number of idle objects, which is within the capacity, without changing the pool |
| `MemoryPool.Acquired` | Core/MemoryPool.h:24-30 | Acquire hands out an idle object exactly when the queue is non-empty, and then it is the front one |
| `MemoryPool.PoolAfterAcquire` | Core/MemoryPool.h:24-30 | on an empty queue the queue stays empty; otherwise Acquire removes exactly the front object and keeps the rest in order |
| `MemoryPool.PoolAfterRelease` | Core/MemoryPool.h:33-41 | Release appends exactly when the object is non-null and the queue is below the maximum, otherwise the queue is unchanged |
| `MemoryPool.FinalPoolBounded` | Core/MemoryPool.h:13-18 | after any sequence of Acquire and Release calls the pool holds at most `max(initial size, max_size)` objects |
| `MemoryPool.FinalPoolWithin` | Core/MemoryPool.h:37-38 | any bound that covers the starting size and `max_size` is kept by every call sequence |
| `MemoryPool.RunAppend` | Core/MemoryPool.h:22-41 | running two call sequences in turn is the same as running their concatenation, for both the final queue and the objects handed out |
| `MemoryPool.ReleasesAppend` | Core/MemoryPool.h:37-38 | releases that fit under the maximum append the objects in release order and hand nothing out |
| `MemoryPool.AcquiresDrain` | Core/MemoryPool.h:28-30 | as many Acquires as there are idle objects hand them out front to back and leave the pool empty |
| `MemoryPool.HandedThenIdleIsAccepted` | Core/MemoryPool.h:22-41 | FIFO for every call sequence (interleaved, partial drains, discarded or null releases): the idle objects handed out, followed by those still idle, are exactly the starting idle objects followed by the objects Release enqueued, in call order, so the handed-out objects are a prefix of that queue |
| `MemoryPool.StepConserves` | Core/MemoryPool.h:22-41 | one Acquire or Release: what it hands out from the queue, followed by the new queue, is the old queue followed by what it enqueues |
| `MemoryPool.Accepted` | Core/MemoryPool.h:34-40 | the objects a call sequence's Release calls enqueue (non-null ones released while the pool is below `max_size`, in call order): no more objects than calls, each the argument of some Release in the sequence |
| `MemoryPool.StepAccepted` | Core/MemoryPool.h:34-40 | one Release enqueues at most one object: exactly its argument, and only when it is non-null and the pool is below `max_size`; an Acquire enqueues nothing |
| `MemoryPool.AcquireFollowsReleaseOrder` | Core/MemoryPool.h:28-38 | the special case of a block of releases that all fit, followed by a full drain: the already idle objects come out first, then the released ones in release order |
| `MemoryPool.EmptyPoolAlwaysAllocates` | Core/MemoryPool.h:24-26 | on an empty pool every Acquire allocates a new object and the pool stays empty |
| `MemoryPool.ReleaseThenAcquireInOrder` | Core/MemoryPool.h:33-46 | a client call sequence on the class: two objects released into an empty pool come back from Acquire in release order, and the size reads 2 then 0 |
| `Protocol.DefaultHeader` | Common/Protocol.h:16 | the default header has packet id, payload length and checksum all zero |
| `Protocol.NewHeader` | Common/Protocol.h:17-19 | the constructor stores id, length and checksum verbatim |
| `Protocol.NewHeaderWithoutChecksum` | Common/Protocol.h:17 | the checksum defaults to zero, and `(0, 0)` gives the default header |
| `Protocol.Encode` | Common/Protocol.h:10-14 | the image is 8 bytes: packet id at offset 0, payload length at offset 2, checksum at offset 4, each little-endian, no padding |
| `Protocol.Decode` | Common/Protocol.h:10-14 | a header is read exactly when at least 8 bytes are available |
| `Protocol.DecodeEncode` | Common/Protocol.h:10-14 | decoding the image of a header, whatever payload follows it, gives back that header |
| `Protocol.EncodeDecode` | Common/Protocol.h:10-14 | every 8-byte buffer is the image of the header decoded from it |
| `Protocol.EncodeInjective` | Common/Protocol.h:11-14 | distinct headers have distinct images |
| `Protocol.U16ToFromBytes` | Common/Protocol.h:12-13 | two bytes read as a little-endian 16-bit field and written back are unchanged |
| `Protocol.U32ToFromBytes` | Common/Protocol.h:14 | four bytes read as a little-endian 32-bit field and written back are unchanged |
| `Protocol.U32FromToBytes` | Common/Protocol.h:14 | a 32-bit field written as four bytes and read back is unchanged |
| `Protocol.U16FromToBytes` | Common/Protocol.h:12-13 | a 16-bit field written as two bytes and read back is unchanged |
| `Protocol.PacketIdsDistinct` | Common/Protocol.h:24-53 | the 21 message identifiers are pairwise distinct |
| `Protocol.ResponseFollowsRequest` | Common/Protocol.h:26-52 | for login, logout, heartbeat, enter-room, file-upload, admin-user-list and kick-user, the response id is the request id plus one |
| `Protocol.ErrorCodesDistinct` | Common/Protocol.h:56-67 | the 10 error codes are pairwise distinct and only `SUCCESS` is 0 |
| `Protocol.FitsInMaxPacketIff` | Common/Protocol.h:73 | header plus payload fits in `MAX_PACKET_SIZE` exactly when the payload length is at most 65528 |
| `Protocol.LengthFieldExceedsMaxPayload` | Common/Protocol.h:13 | every length the 16-bit field can hold above 65528 announces a frame larger than `MAX_PACKET_SIZE` |
| `Protocol.ConfigBounds` | Common/Protocol.h:70-79 | the receive buffer and the send buffer each fit in a maximum-size packet and each hold a whole header; the file limit is 104857600 bytes, and the two ports differ |
| `Session.PerIoContext.constructor` | Core/Session.h:29-34 | records the operation type, zeroes the 32-byte overlapped block and the 4096-byte buffer, sets the descriptor length to 4096 and its pointer to the context's own buffer |
| `Session.ZeroMemory` | Core/Session.h:30-31 | every byte of the array is zero afterwards |
| `Session.MemCopy` | Core/Session.h:44 | the first `len` bytes of the destination equal those of the source and the rest is unchanged |
| `Session.SendData.constructor` | Core/Session.h:42-45 | `size == len`, and `data` is a newly allocated buffer of `len` bytes equal to `src[0..len)` |
| `Session.SendDataIsIndependentCopy` | Core/Session.h:43-44 | writing the source buffer after the copy leaves the queued bytes as they were |
| `Exceptions.NewNexusException` | Common/Exception.h:12 | the base exception stores its argument as the message and satisfies the constructor invariant |
| `Exceptions.BaseGetMessage` | Common/Exception.h:12-19 | `GetMessage` of a base exception returns its argument, and `what` reads a prefix of it |
| `Exceptions.NexusException.GetMessage` | Common/Exception.h:19 | returns the stored message itself |
| `Exceptions.ConstructedIsBuilt` | Common/Exception.h:12-62 | every exception satisfying the constructor invariant is exactly what its class's constructor builds from the message with the prefix removed |
| `Exceptions.NexusException.What` | Common/Exception.h:15-17 | `what` reads a prefix of the message, and the whole message exactly when it holds no NUL |
| `Exceptions.NulTerminated` | Common/Exception.h:16 | the text before the first NUL: a prefix of the string, with no NUL, ended by a NUL or the end of the string |
| `Exceptions.WhatMatchesGetMessage` | Common/Exception.h:15-19 | for a derived exception, `what` and `GetMessage` give the same text exactly when the argument holds no NUL |
| `Exceptions.NewDerivedException` | Common/Exception.h:28-62 | a derived message is the class prefix followed by the argument, so the constructor invariant holds |
| `Exceptions.NewNetworkException` | Common/Exception.h:28-30 | the message is `"Network Error: "` followed by the argument |
| `Exceptions.NewProtocolException` | Common/Exception.h:36-38 | the message is `"Protocol Error: "` followed by the argument |
| `Exceptions.NewConfigException` | Common/Exception.h:44-46 | the message is `"Config Error: "` followed by the argument |
| `Exceptions.NewFileException` | Common/Exception.h:52-54 | the message is `"File Error: "` followed by the argument |
| `Exceptions.NewCryptoException` | Common/Exception.h:60-62 | the message is `"Crypto Error: "` followed by the argument |
| `Exceptions.StripPrefix` | Common/Exception.h:29 | stripping succeeds exactly when the message starts with the prefix, and prefix plus remainder is the message |
| `Exceptions.StripPrefixRecoversArgument` | Common/Exception.h:28-62 | removing a derived class's prefix from its message gives back the constructor's argument |
| `Exceptions.PrefixIdentifiesClass` | Common/Exception.h:28-62 | a derived message never starts with another derived class's prefix, so the message identifies the class |
| `Exceptions.PrefixHasNoNul` | Common/Exception.h:29-61 | no prefix contains a NUL character |

## Left out

- The mutex in `MemoryPool` and every lock: the model is single-threaded.
- The destructors (`~MemoryPool`, `~SendData`'s `delete[]`, the pool discarding an object): Dafny has no explicit deallocation, so a discarded object is simply no longer referenced.
- `size_t` width: pool sizes, `max_size` and `SendData::size` are unbounded naturals; no real pool or buffer reaches 2^64.
- `OVERLAPPED` is modelled as a 32-byte block, its size on 64-bit Windows; its fields are not modelled.
- `Session` methods (`PostRecv`, `PostSend`, `ProcessPacket`, `ParsePackets`, `ProcessSendQueue`, `Disconnect`, login and room state, `CalculateCRC32`): only declared in the header, with no bodies to model.
- Strings: `std::string` holds bytes; the model uses Dafny's `string`, a sequence of characters. Concatenation, prefix stripping and cutting at the first NUL behave the same on either, so no stated property depends on the difference.
- Allocation failure: `std::bad_alloc` from `make_unique<T>()` in the pool and from `new char[len]` in `SendData` is not modelled; in Dafny allocation always succeeds.
- An exception value whose message lacks its class's prefix is expressible as a datatype value but is built by no constructor; the invariant `Constructed()` marks the values the constructors build.
- Byte order: the header image is little-endian, as on the Windows/x86 target; a big-endian target is not modelled.
- Chat rooms, the session, room and transfer managers, the packet dispatcher, the capture and analysis tools, the server's I/O engine, statistics, logging, configuration files, utilities and the desktop client: they are declarations without bodies, or I/O, threads and GUI code.
