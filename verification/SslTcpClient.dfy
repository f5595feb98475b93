/** The objects of the outbound side: the socket with its send buffer, the client with its queue, the pool's queue. */
module SslClient {
  import opened Bytes
  import opened SocketErrors
  import opened Sender
  import opened SenderRuns
  import opened ApnsRequest

  const OS_NOT_ENOUGH_SPACE := 28

  class SslTcpClientSocket {
    const fSendBuffer: array<Byte>
    /** The results of the writes, one after the other. */
    const flushes: nat -> Flush
    ghost const first: nat

    var len: nat
    var sentLength: nat
    var attempts: nat
    var connected: bool
    ghost var accepted: ByteString

    ghost predicate Valid()
      reads this
    {
      sentLength <= len <= fSendBuffer.Length
    }

    ghost function View(): Link
      requires Valid()
      reads this, fSendBuffer
    {
      Link(first, fSendBuffer[..sentLength], fSendBuffer[sentLength..len], accepted, connected)
    }

    ghost function NextFlush(): Flush
      reads this
    {
      flushes(attempts)
    }

    constructor (capacity: nat, flushes: nat -> Flush, ghost first: nat)
      ensures Valid() && fresh(fSendBuffer) && fSendBuffer.Length == capacity
      ensures View() == NewLink(first)
    {
      this.flushes, this.first := flushes, first;
      len, sentLength, attempts, accepted, connected := 0, 0, 0, [], false;
      fSendBuffer := new Byte[capacity];
    }

    /** A new connection, by the SSL connect of the pool; the send buffer is not touched. */
    method Connect()
      requires Valid()
      modifies this`connected
      ensures Valid() && View() == old(View()).(connected := true)
    {
      connected := true;
    }

    /** The connection is gone: an SSL connect that fails has freed it, or a read finds that the peer went away. */
    method LoseConnection()
      requires Valid()
      modifies this`connected
      ensures Valid() && View() == old(View()).(connected := false)
    {
      connected := false;
    }

    /** `ClientSocket::SendSendBuffer`, by its contract: it writes a part of the rest, and on success all of it. */
    method SendSendBuffer() returns (err: int)
      requires Valid()
      modifies this
      ensures Valid()
      ensures View() == WriteOut(old(View()), old(NextFlush())) && err == WriteError(old(View()), old(NextFlush()))
    {
      var f := flushes(attempts);
      attempts := attempts + 1;
      if !connected {
        assert fSendBuffer[sentLength..len] == View().rest[0..];
        return ENOTCONN;
      }
      err := f.err;
      if err == NO_ERROR {
        accepted := accepted + fSendBuffer[sentLength..len];
        len, sentLength := 0, 0;
      } else {
        var stop := if sentLength + f.count < len then sentLength + f.count else len;
        ghost var written, rest := fSendBuffer[..sentLength], fSendBuffer[sentLength..len];
        accepted := accepted + fSendBuffer[sentLength..stop];
        assert fSendBuffer[sentLength..stop] == rest[..stop - sentLength];
        assert fSendBuffer[..stop] == written + rest[..stop - sentLength];
        assert fSendBuffer[stop..len] == rest[stop - sentLength..];
        sentLength, connected := stop, !f.drops;
      }
    }

    /** Fills the send buffer only when it is empty, then flushes it. */
    method SendV(inVec: seq<ByteString>) returns (err: int)
      requires Valid() && (len == 0 ==> |Flatten(inVec)| < fSendBuffer.Length)
      modifies this, fSendBuffer
      ensures Valid()
      ensures View() == WriteOut(Fill(old(View()), Flatten(inVec)), old(NextFlush()))
      ensures err == WriteError(old(View()), old(NextFlush()))
    {
      ghost var before := View();
      assert Buffer(before) == fSendBuffer[..len];
      if len == 0 {
        for count := 0 to |inVec|
          invariant sentLength == 0 && attempts == old(attempts)
          invariant accepted == old(accepted) && connected == old(connected)
          invariant len <= fSendBuffer.Length && fSendBuffer[..len] == Flatten(inVec[..count])
        {
          FlattenSnoc(inVec[..count], inVec[count]);
          assert inVec[..count] + [inVec[count]] == inVec[..count + 1];
          FlattenConcat(inVec[..count + 1], inVec[count + 1..]);
          assert inVec[..count + 1] + inVec[count + 1..] == inVec;
          CopyIn(inVec[count]);
        }
        assert inVec[..|inVec|] == inVec;
      }
      err := SendSendBuffer();
    }

    /** `memcpy` of one piece behind what the send buffer holds already. */
    method CopyIn(piece: ByteString)
      requires len + |piece| <= fSendBuffer.Length
      modifies this`len, fSendBuffer
      ensures len == old(len) + |piece| && fSendBuffer[..len] == old(fSendBuffer[..len]) + piece
    {
      forall i | 0 <= i < |piece| {
        fSendBuffer[len + i] := piece[i];
      }
      len := len + |piece|;
    }
  }

  /** `OSQueue::Remove`. */
  function Without<T(==)>(clients: seq<T>, client: T): (r: seq<T>)
    ensures client !in r
  {
    if clients == [] then []
    else (if clients[0] == client then [] else [clients[0]]) + Without(clients[1..], client)
  }

  lemma {:induction false} WithoutKeepsOthers<T>(clients: seq<T>, client: T, other: T)
    ensures other != client ==> (other in Without(clients, client) <==> other in clients)
  {
    if clients != [] {
      WithoutKeepsOthers(clients[1..], client, other);
      assert clients == [clients[0]] + clients[1..];
    }
  }

  /** The pool: its queue of clients to be connected, and its connect event. */
  class ClientPool {
    var fQueue: seq<SslTcpClient>
    var connectEvent: bool

    constructor ()
      ensures fQueue == [] && !connectEvent
    {
      fQueue, connectEvent := [], false;
    }

    /** An element that is in the queue already stays where it is. */
    method RequestConnect(client: SslTcpClient)
      modifies this
      ensures connectEvent && client in fQueue
      ensures fQueue == if client in old(fQueue) then old(fQueue) else old(fQueue) + [client]
    {
      if client !in fQueue {
        fQueue := fQueue + [client];
      }
      connectEvent := true;
    }

    /** One turn of the task, for one client: `connected` is the result of its connect, if that is tried. */
    method Run(client: SslTcpClient, lcsEvent: bool, connected: bool)
      requires client.Valid() && client.m_clientPool == this
      modifies this, client, client.fTcpSocket
      ensures client.Valid() && client.View() == PoolRun(old(client.View()), lcsEvent, connected)
      ensures fQueue == old(fQueue) || fQueue == Without(old(fQueue), client)
    {
      var event := connectEvent;
      connectEvent := false;
      if lcsEvent || !event || client !in fQueue {
        return;
      }
      if client.status != Offline {
        fQueue := Without(fQueue, client);
      } else if !connected {
        client.fTcpSocket.LoseConnection();
      } else {
        client.fTcpSocket.Connect();
        client.conns := client.conns + [Conn(|client.completed|, client.fTcpSocket.View().written, [])];
        fQueue := Without(fQueue, client);
        client.Online();
        client.notified := true;
      }
    }
  }

  class SslTcpClient {
    const m_clientPool: ClientPool
    const capacity: nat
    /** The results of the writes on each socket that the client makes. */
    const sockets: nat -> nat -> Flush

    var fMsgList: seq<ByteString>
    var fTcpSocket: SslTcpClientSocket
    var made: nat
    var status: Status
    var timer: Timer
    var notified: bool

    ghost var enqueued: seq<ByteString>
    ghost var completed: seq<ByteString>
    ghost var past: seq<Link>
    ghost var conns: seq<Conn>

    ghost predicate Valid()
      reads this, fTcpSocket
    {
      fTcpSocket.Valid() && fTcpSocket.fSendBuffer.Length == capacity
    }

    ghost function View(): Outbound
      requires Valid()
      reads this, fTcpSocket, fTcpSocket.fSendBuffer, m_clientPool
    {
      Outbound(fMsgList, fTcpSocket.View(), status, timer,
               notified, this in m_clientPool.fQueue, m_clientPool.connectEvent,
               enqueued, completed, past, conns)
    }

    constructor (pool: ClientPool, capacity: nat, sockets: nat -> nat -> Flush)
      requires pool.fQueue == [] && !pool.connectEvent
      ensures Valid() && View() == START && m_clientPool == pool && this.capacity == capacity
      ensures fresh(fTcpSocket) && fresh(fTcpSocket.fSendBuffer)
    {
      m_clientPool, this.capacity, this.sockets := pool, capacity, sockets;
      fMsgList, status, timer, notified := [], Status.Offline, Initial, false;
      enqueued, completed, past, conns := [], [], [], [];
      var socket := new SslTcpClientSocket(capacity, sockets(0), 0);
      fTcpSocket, made := socket, 1;
    }

    method Online()
      requires Valid()
      modifies this`status, this`timer
      ensures Valid() && View() == GoOnline(old(View()))
    {
      status := Status.Online;
      timer := KeepAlive;
    }

    method Offline()
      requires Valid()
      modifies this`status, this`timer
      ensures Valid() && View() == GoOffline(old(View()))
    {
      status := Status.Offline;
      timer := Never;
    }

    method OnNetConnecting()
      requires Valid()
      modifies this`status, this`timer
      ensures Valid() && View() == GoConnecting(old(View()))
    {
      if status != Connecting {
        status := Connecting;
        timer := Reconnect;
      }
    }

    method OnNetConnectted()
      requires Valid()
      modifies this`timer
      ensures Valid() && View() == Step(old(View()), ConnectDone)
    {
      timer := KeepAlive;
    }

    method OnTimeout()
      requires Valid()
      modifies this
      ensures Valid() && View() == Timeout(old(View()))
      ensures fresh(fTcpSocket) && fresh(fTcpSocket.fSendBuffer)
    {
      timer := KeepAlive;
      status := Status.Offline;
      past := past + [fTcpSocket.View()];
      fTcpSocket := new SslTcpClientSocket(capacity, sockets(made), |completed|);
      made := made + 1;
    }

    method OnSendMessage(pBuffer: array<Byte>, nLen: nat) returns (err: int)
      requires Valid() && nLen <= pBuffer.Length
      modifies this`fMsgList, this`notified, this`enqueued
      ensures Valid() && View() == Enqueue(old(View()), pBuffer[..nLen]) && err == NO_ERROR
    {
      var pData := pBuffer[..nLen];
      fMsgList := fMsgList + [pData];
      enqueued := enqueued + [pData];
      notified := true;
      err := NO_ERROR;
    }

    /** The message that is copied into the send buffer must fit there. */
    method OnTrySendMsg() returns (err: int)
      requires Valid() && (fMsgList != [] && fTcpSocket.len == 0 ==> |fMsgList[0]| < capacity)
      modifies this, fTcpSocket, fTcpSocket.fSendBuffer, m_clientPool
      ensures Valid() && fTcpSocket == old(fTcpSocket)
      ensures View() == TrySend(old(View()), old(fTcpSocket.NextFlush()))
      ensures err == if old(fMsgList) == [] ||
                        WriteError(old(fTcpSocket.View()), old(fTcpSocket.NextFlush())) == NO_ERROR
                     then NO_ERROR else OS_NOT_ENOUGH_SPACE
      ensures m_clientPool.fQueue == if err == NO_ERROR || this in old(m_clientPool.fQueue)
                                     then old(m_clientPool.fQueue) else old(m_clientPool.fQueue) + [this]
    {
      err := NO_ERROR;
      if fMsgList != [] {
        ghost var v, f := View(), fTcpSocket.NextFlush();
        ghost var l := Fill(v.link, v.queue[0]);
        err := SendData(fMsgList[0]);
        assert View() == v.(link := WriteOut(l, f),
                            conns := if l.connected then Carry(v.conns, Sends(l, f)) else v.conns);
        if err == NO_ERROR {
          completed := completed + [fMsgList[0]];
          fMsgList := fMsgList[1..];
          if fMsgList != [] {
            notified := true;
          }
        } else {
          m_clientPool.RequestConnect(this);
          err := OS_NOT_ENOUGH_SPACE;
        }
      }
    }

    /** `TcpClient::SendData`, by its contract: one whole message goes to the socket. */
    method SendData(message: ByteString) returns (err: int)
      requires Valid() && (fTcpSocket.len == 0 ==> |message| < capacity)
      modifies this`conns, fTcpSocket, fTcpSocket.fSendBuffer
      ensures Valid()
      ensures var l, f := Fill(old(fTcpSocket.View()), message), old(fTcpSocket.NextFlush());
              && fTcpSocket.View() == WriteOut(l, f) && err == WriteError(l, f)
              && conns == if l.connected then Carry(old(conns), Sends(l, f)) else old(conns)
    {
      OneMessage(message);
      ghost var l, f := Fill(fTcpSocket.View(), message), fTcpSocket.NextFlush();
      err := fTcpSocket.SendV([message]);
      conns := if l.connected then Carry(conns, Sends(l, f)) else conns;
    }
  }

  lemma OneMessage(message: ByteString)
    ensures Flatten([message]) == message
  {
    assert [message][1..] == [];
    assert message + [] == message;
  }

  /** The client for the enhanced message format, on top of `SslTcpClient`. */
  class ApsApnsAdvanceClient {
    const client: SslTcpClient

    constructor (client: SslTcpClient)
      ensures this.client == client
    {
      this.client := client;
    }

    method OnTimeout()
      requires client.Valid()
      modifies client, client.m_clientPool
      ensures client.Valid() && client.View() == Sender.RequestConnect(Timeout(old(client.View())))
    {
      client.OnTimeout();
      client.m_clientPool.RequestConnect(client);
    }

    /** The request is laid out in a buffer of 2048 bytes, and what was filled is queued. */
    method OnPublish(publish: Request) returns (err: int)
      requires client.Valid() && |Encode(publish)| <= 2048
      modifies client
      ensures client.Valid() && client.View() == Enqueue(old(client.View()), Encode(publish)) && err == NO_ERROR
    {
      var buf := new Byte[2048];
      var message := Encode(publish);
      forall i | 0 <= i < |message| {
        buf[i] := message[i];
      }
      assert buf[..|message|] == message;
      err := client.OnSendMessage(buf, |message|);
    }
  }
}
