/**
 * The network buffer: a vector of bytes of which a middle part is readable, with room before it for
 * prepending and after it for writing.  Every operation is stated on the readable bytes alone.
 */
module Buffer {
  import opened Common

  const CHEAP_PREPEND := 8
  const INITIAL_SIZE := 1024
  const EXTRA_SIZE := 65536

  datatype ReadV = Failed(errno: int) | Filled(bytes: seq<Byte>)

  class Buffer {
    var buffer: array<Byte>
    var readerIndex: nat
    var writerIndex: nat

    ghost predicate Valid()
      reads this
    {
      CHEAP_PREPEND <= buffer.Length && readerIndex <= writerIndex <= buffer.Length
    }

    // The readable bytes, oldest first.
    function Contents(): seq<Byte>
      requires Valid()
      reads this, buffer
    {
      buffer[readerIndex..writerIndex]
    }

    constructor (initialSize: nat := INITIAL_SIZE)
      ensures Valid() && fresh(buffer) && Contents() == [] && Writable() == initialSize
    {
      buffer := new Byte[CHEAP_PREPEND + initialSize];
      readerIndex, writerIndex := CHEAP_PREPEND, CHEAP_PREPEND;
    }

    function Readable(): (n: nat)
      requires Valid()
      reads this, buffer
      ensures n == |Contents()|
    {
      writerIndex - readerIndex
    }

    function Writable(): nat
      requires Valid()
      reads this
    {
      buffer.Length - writerIndex
    }

    function Prependable(): nat
      reads this
    {
      readerIndex
    }

    method Retrieve(len: nat)
      requires Valid() && len <= Readable()
      modifies `readerIndex, `writerIndex
      ensures Valid() && Contents() == old(Contents())[len..]
    {
      if len < Readable() {
        readerIndex := readerIndex + len;
      } else {
        RetrieveAll();
      }
    }

    method RetrieveAll()
      requires Valid()
      modifies `readerIndex, `writerIndex
      ensures Valid() && Contents() == []
    {
      readerIndex, writerIndex := CHEAP_PREPEND, CHEAP_PREPEND;
    }

    method RetrieveAsBytes(len: nat) returns (result: seq<Byte>)
      requires Valid() && len <= Readable()
      modifies `readerIndex, `writerIndex
      ensures Valid() && result + Contents() == old(Contents()) && |result| == len
    {
      result := buffer[readerIndex..readerIndex + len];
      Retrieve(len);
    }

    // Room for len more bytes, by moving the readable bytes down or by growing.
    method MakeSpace(len: nat)
      requires Valid() && Writable() < len
      modifies this, buffer
      ensures Valid() && (buffer == old(buffer) || fresh(buffer))
      ensures Contents() == old(Contents()) && Writable() >= len
    {
      if Writable() + Prependable() < len + CHEAP_PREPEND {
        var grown := new Byte[writerIndex + len];
        forall k | 0 <= k < buffer.Length {
          grown[k] := buffer[k];
        }
        buffer := grown;
      } else {
        MoveDown();
      }
    }

    // Moves the readable bytes to the front, in place.
    method MoveDown()
      requires Valid() && CHEAP_PREPEND < readerIndex
      modifies this, buffer
      ensures Valid() && buffer == old(buffer) && Contents() == old(Contents())
      ensures readerIndex == CHEAP_PREPEND && writerIndex == CHEAP_PREPEND + old(writerIndex - readerIndex)
    {
      var readable := Readable();
      ghost var was := buffer[..];
      for k := 0 to readable
        invariant unchanged(this)
        invariant buffer[CHEAP_PREPEND..CHEAP_PREPEND + k] == was[readerIndex..readerIndex + k]
        invariant buffer[readerIndex + k..] == was[readerIndex + k..]
      {
        assert buffer[readerIndex + k] == buffer[readerIndex + k..][0] == was[readerIndex + k];
        label before:
        buffer[CHEAP_PREPEND + k] := buffer[readerIndex + k];
        assert buffer[readerIndex + k + 1..] == old@before(buffer[readerIndex + k..])[1..];
        assert buffer[CHEAP_PREPEND..CHEAP_PREPEND + k + 1] == old@before(buffer[CHEAP_PREPEND..CHEAP_PREPEND + k]) + [was[readerIndex + k]];
      }
      readerIndex := CHEAP_PREPEND;
      writerIndex := readerIndex + readable;
    }

    method EnsureWritableBytes(len: nat)
      requires Valid()
      modifies this, buffer
      ensures Valid() && (buffer == old(buffer) || fresh(buffer))
      ensures Contents() == old(Contents()) && Writable() >= len && Writable() >= old(Writable())
    {
      if Writable() < len {
        MakeSpace(len);
      }
    }

    // Copies bytes to the writable area, without claiming them.
    method CopyToWritable(data: seq<Byte>)
      requires Valid() && |data| <= Writable()
      modifies buffer
      ensures Contents() == old(Contents()) && buffer[writerIndex..writerIndex + |data|] == data
    {
      forall k | 0 <= k < |data| {
        buffer[writerIndex + k] := data[k];
      }
    }

    method HasWritten(len: nat)
      requires Valid() && len <= Writable()
      modifies `writerIndex
      ensures Valid() && Contents() == old(Contents()) + old(buffer[writerIndex..writerIndex + len])
    {
      writerIndex := writerIndex + len;
    }

    method Append(data: seq<Byte>)
      requires Valid()
      modifies this, buffer
      ensures Valid() && (buffer == old(buffer) || fresh(buffer))
      ensures Contents() == old(Contents()) + data && Writable() >= old(Writable()) - |data|
    {
      EnsureWritableBytes(|data|);
      CopyToWritable(data);
      HasWritten(|data|);
    }

    method Unwrite(len: nat)
      requires Valid() && len <= Readable()
      modifies `writerIndex
      ensures Valid() && Contents() == old(Contents())[..old(Readable()) - len]
    {
      writerIndex := writerIndex - len;
    }

    method Prepend(data: seq<Byte>)
      requires Valid() && |data| <= Prependable()
      modifies `readerIndex, buffer
      ensures Valid() && Contents() == data + old(Contents())
    {
      readerIndex := readerIndex - |data|;
      forall k | 0 <= k < |data| {
        buffer[readerIndex + k] := data[k];
      }
    }

    method Swap(that: Buffer)
      requires Valid() && that.Valid()
      modifies this, that
      ensures Valid() && that.Valid()
      ensures buffer == old(that.buffer) && that.buffer == old(buffer)
      ensures Writable() == old(that.Writable()) && that.Writable() == old(Writable())
      ensures Contents() == old(that.Contents()) && that.Contents() == old(Contents())
    {
      buffer, that.buffer := that.buffer, buffer;
      readerIndex, that.readerIndex := that.readerIndex, readerIndex;
      writerIndex, that.writerIndex := that.writerIndex, writerIndex;
    }

    method Shrink(reserve: nat)
      requires Valid()
      modifies this, buffer
      ensures Valid() && fresh(buffer)
      ensures Contents() == old(Contents()) && Writable() >= reserve
    {
      var other := new Buffer();
      other.EnsureWritableBytes(Readable() + reserve);
      var bytes := RetrieveAsBytes(Readable());
      other.Append(bytes);
      Swap(other);
    }

    // What one readv can deliver: the writable area, and the area on the stack unless that is the smaller.
    function Room(): nat
      requires Valid()
      reads this
    {
      Writable() + if Writable() < EXTRA_SIZE then EXTRA_SIZE else 0
    }

    // readv has failed, or has filled the two areas in order with the bytes it read.
    method ReadFd(readv: ReadV, savedErrno: int) returns (n: int, errno: int)
      requires Valid() && (readv.Filled? ==> |readv.bytes| <= Room())
      modifies this, buffer
      ensures Valid() && (buffer == old(buffer) || fresh(buffer))
      ensures readv.Failed? ==> n < 0 && errno == readv.errno && unchanged(this, old(buffer))
      ensures readv.Filled? ==> n == |readv.bytes| && errno == savedErrno && Contents() == old(Contents()) + readv.bytes
    {
      errno := savedErrno;
      if readv.Failed? {
        return -1, readv.errno;
      }
      var incoming, writable := readv.bytes, Writable();
      n := |incoming|;
      if n <= writable {
        CopyToWritable(incoming);
        HasWritten(n);
      } else {
        var extra := incoming[writable..];
        CopyToWritable(incoming[..writable]);
        HasWritten(writable);
        assert Contents() == old(Contents()) + incoming[..writable];
        Append(extra);
        assert incoming[..writable] + extra == incoming;
        assert old(Contents()) + incoming[..writable] + extra == old(Contents()) + (incoming[..writable] + extra);
      }
    }
  }
}
