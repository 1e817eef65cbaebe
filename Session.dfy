/**
  The per-operation I/O context and the owned outgoing buffer of a NexusCore
  session: a receive buffer that is zeroed and described to the socket layer,
  and an outgoing payload copied into storage the send queue owns.
 */
module Session {

  import opened Protocol

  /** Which asynchronous socket operation a context belongs to. */
  datatype IoOperationType = Recv | Send | Accept

  /** Size in bytes of the completion-port OVERLAPPED block on a 64-bit target. */
  const OVERLAPPED_SIZE: nat := 32

  /** The socket layer's buffer descriptor: a length and a pointer to the bytes. */
  datatype WsaBuf = WsaBuf(len: uint32, buf: array<uint8>)

  /** Sets every byte of `a` to zero, as the Win32 ZeroMemory macro does. */
  method ZeroMemory(a: array<uint8>)
    modifies a
    ensures forall i :: 0 <= i < a.Length ==> a[i] == 0
  {
    var i := 0;
    while i < a.Length
      invariant 0 <= i <= a.Length
      invariant forall k :: 0 <= k < i ==> a[k] == 0
    {
      a[i] := 0;
      i := i + 1;
    }
  }

  /** Copies the first `len` bytes of `src` to the front of `dst`, as memcpy does. */
  method MemCopy(dst: array<uint8>, src: array<uint8>, len: nat)
    requires len <= dst.Length && len <= src.Length
    requires dst != src
    modifies dst
    ensures dst[..len] == src[..len]
    ensures dst[len..] == old(dst[len..])
  {
    var i := 0;
    while i < len
      invariant 0 <= i <= len
      invariant forall k :: 0 <= k < i ==> dst[k] == src[k]
      invariant forall k :: len <= k < dst.Length ==> dst[k] == old(dst[k])
    {
      dst[i] := src[i];
      i := i + 1;
    }
  }

  /** The context of one outstanding socket operation. */
  class PerIoContext {
    const overlapped: array<uint8>
    var wsaBuffer: WsaBuf
    const buffer: array<uint8>
    var operationType: IoOperationType

    /** Records the operation type, zeroes the overlapped block and the buffer, and points the descriptor at the buffer. */
    constructor (operationType: IoOperationType)
      ensures this.operationType == operationType
      ensures fresh(overlapped) && overlapped.Length == OVERLAPPED_SIZE
      ensures forall i :: 0 <= i < overlapped.Length ==> overlapped[i] == 0
      ensures fresh(buffer) && buffer.Length == RECV_BUFFER_SIZE
      ensures forall i :: 0 <= i < buffer.Length ==> buffer[i] == 0
      ensures wsaBuffer.len == RECV_BUFFER_SIZE && wsaBuffer.buf == buffer
      ensures overlapped != buffer
    {
      this.operationType := operationType;
      var o := new uint8[OVERLAPPED_SIZE];
      ZeroMemory(o);
      var b := new uint8[RECV_BUFFER_SIZE];
      ZeroMemory(b);
      overlapped := o;
      buffer := b;
      wsaBuffer := WsaBuf(b.Length as uint32, b);
    }
  }

  /** An outgoing payload, copied into a buffer the send queue owns. */
  class SendData {
    var data: array<uint8>
    var size: nat

    /** Allocates `len` bytes and copies the first `len` bytes of `src` into them. */
    constructor (src: array<uint8>, len: nat)
      requires len <= src.Length
      ensures size == len
      ensures fresh(data) && data.Length == len
      ensures data[..] == src[..len]
    {
      size := len;
      var d := new uint8[len];
      MemCopy(d, src, len);
      data := d;
      assert d[..] == d[..len];
    }
  }

  /** The copy is independent of its source: writing the caller's buffer afterwards leaves the queued bytes as they were. */
  method SendDataIsIndependentCopy(src: array<uint8>, len: nat, i: nat, v: uint8) returns (sd: SendData)
    requires len <= src.Length && i < src.Length
    modifies src
    ensures fresh(sd) && sd.size == len
    ensures sd.data[..] == old(src[..len])
    ensures src[i] == v
  {
    sd := new SendData(src, len);
    src[i] := v;
  }
}
