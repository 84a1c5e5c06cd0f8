/**
 * The sending side of a connection: what the socket does not take at once waits in the output buffer,
 * and the channel asks to be told when the socket can take more.
 */
module TcpConnection {
  import opened Common
  import opened Buffer

  datatype StateE = Connecting | Connected | Disconnecting | Disconnected

  class TcpConnection {
    var state: StateE
    const outputBuffer: Buffer
    // The channel's interest.
    var reading: bool
    var writing: bool
    // The socket: what it has been given, and whether its sending side has been shut down.
    var written: seq<Byte>
    var halfClosed: bool
    // Every message passed to SendInLoop.
    ghost var sent: seq<Byte>

    ghost predicate Valid()
      reads this, outputBuffer, outputBuffer.buffer
    {
      && outputBuffer.Valid()
      && written + outputBuffer.Contents() == sent
      && (state != Disconnected ==> (writing <==> outputBuffer.Contents() != []))
    }

    constructor ()
      ensures Valid() && fresh(outputBuffer) && fresh(outputBuffer.buffer)
      ensures state == Connecting && sent == [] && !halfClosed
    {
      state, reading, writing := Connecting, false, false;
      written, halfClosed, sent := [], false, [];
      outputBuffer := new Buffer();
    }

    // The write system call: it takes some bytes from the front, or fails with -1.
    method Write(bytes: seq<Byte>, n: int) returns (r: int)
      requires -1 <= n <= |bytes|
      modifies `written
      ensures r == n && written == old(written) + if n > 0 then bytes[..n] else []
    {
      if n > 0 {
        written := written + bytes[..n];
      }
      r := n;
    }

    // Unless the connection has been closed, the socket is shut down only when everything has been written.
    method ShutdownWrite()
      requires state != Disconnected ==> written == sent
      modifies `halfClosed
      ensures halfClosed
    {
      halfClosed := true;
    }

    method ConnectEstablished()
      requires Valid() && state == Connecting
      modifies `state, `reading
      ensures Valid() && state == Connected && reading
    {
      state := Connected;
      reading := true;
    }

    // n: what write will return, if it is called.
    method SendInLoop(message: seq<Byte>, n: int)
      requires Valid() && -1 <= n <= |message|
      modifies this, outputBuffer, outputBuffer.buffer
      ensures Valid() && (outputBuffer.buffer == old(outputBuffer.buffer) || fresh(outputBuffer.buffer))
      ensures sent == old(sent) + message && state == old(state) && halfClosed == old(halfClosed) && reading == old(reading)
      ensures written == old(written) + if !old(writing) && old(outputBuffer.Contents()) == [] && n > 0 then message[..n] else []
      ensures writing == (old(writing) || written != old(written) + message)
    {
      var nwrote := 0;
      if !writing && outputBuffer.Readable() == 0 {
        nwrote := Write(message, n);
        if nwrote < 0 {
          nwrote := 0;
        }
      }
      sent := sent + message;
      if nwrote < |message| {
        outputBuffer.Append(message[nwrote..]);
        if !writing {
          writing := true;
        }
      }
    }

    method HandleWrite(n: int)
      requires Valid() && -1 <= n <= outputBuffer.Readable()
      modifies this, outputBuffer
      ensures Valid() && outputBuffer.buffer == old(outputBuffer.buffer)
      ensures sent == old(sent) && state == old(state) && reading == old(reading)
      ensures written == old(written) + if old(writing) && n > 0 then old(outputBuffer.Contents())[..n] else []
      ensures writing == (old(writing) && (n <= 0 || written != sent))
      ensures halfClosed == (old(halfClosed) || (old(writing) && !writing && state == Disconnecting))
    {
      if writing {
        var r := Write(outputBuffer.Contents(), n);
        if r > 0 {
          outputBuffer.Retrieve(r);
          if outputBuffer.Readable() == 0 {
            writing := false;
            if state == Disconnecting {
              ShutdownWrite();
            }
          }
        }
      }
    }

    // The first half of Shutdown, on the caller's thread; ShutdownInLoop follows on the loop's.
    method Shutdown()
      requires Valid()
      modifies `state
      ensures Valid() && state == if old(state) == Connected then Disconnecting else old(state)
    {
      if state == Connected {
        state := Disconnecting;
      }
    }

    method ShutdownInLoop()
      requires Valid()
      modifies `halfClosed
      ensures Valid()
      ensures halfClosed == (old(halfClosed) || !writing)
      ensures state != Disconnected ==> (halfClosed && !old(halfClosed) ==> written == sent)
    {
      if !writing {
        ShutdownWrite();
      }
    }

    method HandleClose()
      requires Valid() && (state == Connected || state == Disconnecting)
      modifies `state, `reading, `writing
      ensures Valid() && state == Disconnected && !writing && !reading
    {
      state := Disconnected;
      reading, writing := false, false;
    }

    method ForceCloseInLoop()
      requires Valid()
      modifies `state, `reading, `writing
      ensures Valid()
      ensures state == if old(state) == Connected || old(state) == Disconnecting then Disconnected else old(state)
    {
      if state == Connected || state == Disconnecting {
        HandleClose();
      }
    }

    method ConnectDestroyed()
      requires Valid()
      modifies `state, `reading, `writing
      ensures Valid()
      ensures state == if old(state) == Connected then Disconnected else old(state)
      ensures writing == (old(writing) && old(state) != Connected) && reading == (old(reading) && old(state) != Connected)
    {
      if state == Connected {
        state := Disconnected;
        reading, writing := false, false;
      }
    }
  }

  // ---------------------------------------------------------------- whole runs

  datatype Event =
    | Establish
    | Send(message: seq<Byte>, taken: int)
    | Writable(taken: int)
    | Shutdown
    | ShutdownInLoop
    | ForceClose
    | Destroy

  // What a write of `length` bytes returns, when the socket would take `taken`.
  function Result(taken: int, length: nat): (n: int)
    ensures -1 <= n <= length
  {
    if taken < 0 then -1 else if taken <= length then taken else length
  }

  function Messages(events: seq<Event>): seq<Byte> {
    if events == [] then []
    else (if events[0].Send? then events[0].message else []) + Messages(events[1..])
  }

  // What an event says is added to what was sent.
  method React(conn: TcpConnection, e: Event)
    requires conn.Valid()
    modifies conn, conn.outputBuffer, conn.outputBuffer.buffer
    ensures conn.Valid()
    ensures conn.outputBuffer.buffer == old(conn.outputBuffer.buffer) || fresh(conn.outputBuffer.buffer)
    ensures conn.sent == old(conn.sent) + if e.Send? then e.message else []
  {
    ghost var before := conn.sent;
    assert before + [] == before;
    match e {
      case Establish => if conn.state == Connecting { conn.ConnectEstablished(); }
      case Send(message, taken) => conn.SendInLoop(message, Result(taken, |message|));
      case Writable(taken) => conn.HandleWrite(Result(taken, conn.outputBuffer.Readable()));
      case Shutdown => conn.Shutdown();
      case ShutdownInLoop => conn.ShutdownInLoop();
      case ForceClose => conn.ForceCloseInLoop();
      case Destroy => conn.ConnectDestroyed();
    }
  }

  // However the socket behaves, what it has taken followed by what waits is all that was ever sent, in order.
  method Serve(conn: TcpConnection, events: seq<Event>)
    requires conn.Valid()
    modifies conn, conn.outputBuffer, conn.outputBuffer.buffer
    ensures conn.Valid()
    ensures conn.written + conn.outputBuffer.Contents() == old(conn.written + conn.outputBuffer.Contents()) + Messages(events)
  {
    for i := 0 to |events|
      invariant conn.Valid()
      invariant conn.outputBuffer.buffer == old(conn.outputBuffer.buffer) || fresh(conn.outputBuffer.buffer)
      invariant conn.sent + Messages(events[i..]) == old(conn.sent) + Messages(events)
    {
      ghost var before := conn.sent;
      ghost var said := if events[i].Send? then events[i].message else [];
      assert events[i..][1..] == events[i + 1..];
      React(conn, events[i]);
      assert before + (said + Messages(events[i + 1..])) == before + said + Messages(events[i + 1..]);
    }
    assert events[|events|..] == [];
    assert conn.sent + [] == conn.sent;
  }
}
