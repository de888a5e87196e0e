/**
  The key server's reactor-side state: per-connection attachments and the
  server object holding the registry maps and the pending-delivery queue.
  Socket readiness is modelled by the methods' parameters: what a read
  returned, how many bytes a write accepted, and how a generation job ended.
*/
module KeyServer {
  import opened Wrappers
  import opened Bytes
  import opened KeyProtocol
  import opened KeyRegistry

  /**
    The operations a SelectionKey can be interested in. The key's int bit
    mask is modelled as the set of operations whose bit is set: OR-ing a bit
    in is adding it, masking it out is removing it.
  */
  datatype Interest = OpRead | OpWrite | OpConnect | OpAccept

  /** What SocketChannel.read returned: end of stream (-1) or the bytes read. */
  datatype ReadResult = EndOfStream | Data(bytes: seq<byte>)

  /**
    A connection's observable state: the attachment's fields, whether its
    selection key is still registered (not cancelled and closed), the key's
    interest set, and the bytes the socket has accepted so far.
  */
  datatype Connection = Connection(
    readBuffer: seq<byte>,
    nameReceived: bool,
    name: Option<string>,
    writeBuffer: Option<seq<byte>>,  // the bytes of the response not yet written
    registered: bool,
    interestOps: set<Interest>,
    sent: seq<byte>)

  class ClientAttachment {
    var readBuffer: seq<byte>
    var nameReceived: bool
    var name: Option<string>
    var writeBuffer: Option<seq<byte>>
    var registered: bool
    var interestOps: set<Interest>
    var sent: seq<byte>

    function View(): Connection
      reads this
    {
      Connection(readBuffer, nameReceived, name, writeBuffer, registered, interestOps, sent)
    }

    /** A name is set exactly when it was received; an open connection still reading its name holds at most MaxNameLength bytes. */
    ghost predicate Valid()
      reads this
    {
      && (nameReceived <==> name.Some?)
      && (registered && !nameReceived ==> |readBuffer| <= MaxNameLength)
    }

    /** An accepted connection, registered for reading. */
    constructor ()
      ensures Valid()
      ensures View() == Connection([], false, None, None, true, {OpRead}, [])
    {
      readBuffer := [];
      nameReceived := false;
      name := None;
      writeBuffer := None;
      registered := true;
      interestOps := {OpRead};
      sent := [];
    }
  }

  /** The outcome of a request whose name bytes n have arrived on att. */
  function NameReceived(r: Registry<ClientAttachment>, v: Connection, n: seq<byte>, att: ClientAttachment): (Registry<ClientAttachment>, Connection)
  {
    var name := DecodeAscii(n);
    var j := Join(r, name, att);
    (j.registry, v.(readBuffer := n, nameReceived := true, name := Some(name), registered := v.registered && !j.closeConnection))
  }

  /** What one readable event does to the registry and to the connection att. */
  function ReadEffect(r: Registry<ClientAttachment>, v: Connection, att: ClientAttachment, input: ReadResult): (Registry<ClientAttachment>, Connection)
    requires input.Data? && !v.nameReceived ==> |v.readBuffer| <= MaxNameLength
  {
    match input
    case EndOfStream => (r, v.(registered := false))
    case Data(bytes) =>
      if v.nameReceived then (r, v)
      else match ScanName(v.readBuffer, bytes)
        case NeedMore(b) => (r, v.(readBuffer := b))
        case TooLong(b) => (r, v.(readBuffer := b, registered := false))
        case NameComplete(n) => NameReceived(r, v, n, att)
  }

  /**
    The drain's effect on one connection: when its key is still valid the last
    buffer queued for it becomes its write buffer and OpWrite joins its interest set.
  */
  function Armed(v: Connection, last: Option<seq<byte>>): Connection
  {
    if v.registered && last.Some? then v.(writeBuffer := last, interestOps := v.interestOps + {OpWrite}) else v
  }

  /** The clients that have a delivery in the queue. */
  function Clients(q: seq<PendingDelivery<ClientAttachment>>): set<ClientAttachment>
  {
    set pd | pd in q :: pd.client
  }

  /** Arming again with a newer buffer replaces the older one. */
  lemma ArmedTwice(v: Connection, b: seq<byte>)
    ensures forall x :: Armed(Armed(v, x), Some(b)) == Armed(v, Some(b))
  {
  }

  /** The buffer of the last delivery queued for c, if any. */
  function LastBuffer(q: seq<PendingDelivery<ClientAttachment>>, c: ClientAttachment): Option<seq<byte>>
  {
    if q == [] then None
    else if q[|q| - 1].client == c then Some(q[|q| - 1].buffer)
    else LastBuffer(q[..|q| - 1], c)
  }

  /** Taking one more delivery of the queue changes only its client's last buffer. */
  lemma LastBufferStep(q: seq<PendingDelivery<ClientAttachment>>, k: nat)
    requires k < |q|
    ensures forall c :: LastBuffer(q[..k + 1], c) == if c == q[k].client then Some(q[k].buffer) else LastBuffer(q[..k], c)
  {
    var q' := q[..k + 1];
    assert |q'| == k + 1 && q'[k] == q[k] && q'[..k] == q[..k];
    forall c
      ensures LastBuffer(q', c) == if c == q[k].client then Some(q[k].buffer) else LastBuffer(q[..k], c)
    {
      assert q' != [];
    }
  }

  /**
    A writable event that lets the socket accept `accepted` bytes: with no
    buffer only OpWrite is removed; otherwise the accepted bytes move from
    the buffer to the socket, and a drained buffer closes the connection.
  */
  function WriteEffect(v: Connection, accepted: nat): Connection
  {
    match v.writeBuffer
    case None => v.(interestOps := v.interestOps - {OpWrite})
    case Some(b) =>
      var k := if accepted < |b| then accepted else |b|;
      v.(writeBuffer := Some(b[k..]), sent := v.sent + b[..k], registered := v.registered && k < |b|)
  }

  /** Arming adds OpWrite and keeps every other interest. */
  lemma ArmedInterest(v: Connection, b: seq<byte>)
    requires v.registered
    ensures Armed(v, Some(b)).writeBuffer == Some(b)
    ensures OpWrite in Armed(v, Some(b)).interestOps
    ensures Armed(v, Some(b)).interestOps - {OpWrite} == v.interestOps - {OpWrite}
  {
  }

  /** A write with nothing to send removes OpWrite and keeps every other interest. */
  lemma IdleWriteClearsOnlyWriteInterest(v: Connection, accepted: nat)
    requires v.writeBuffer.None?
    ensures OpWrite !in WriteEffect(v, accepted).interestOps
    ensures WriteEffect(v, accepted).interestOps + {OpWrite} == v.interestOps + {OpWrite}
  {
  }

  /** Writes neither lose nor repeat bytes: sent bytes followed by the rest of the buffer stay the same. */
  lemma WriteConservesBytes(v: Connection, accepted: nat)
    requires v.writeBuffer.Some?
    ensures var w := WriteEffect(v, accepted);
      w.writeBuffer.Some? && w.sent + w.writeBuffer.value == v.sent + v.writeBuffer.value
  {
    var b := v.writeBuffer.value;
    var k := if accepted < |b| then accepted else |b|;
    assert b == b[..k] + b[k..];
  }

  /** A write that the socket takes whole sends the entire frame and closes the connection. */
  lemma FullWriteSendsFrameAndCloses(v: Connection, accepted: nat)
    requires v.writeBuffer.Some? && accepted >= |v.writeBuffer.value|
    ensures var w := WriteEffect(v, accepted);
      w.sent == v.sent + v.writeBuffer.value && !w.registered && w.writeBuffer == Some([])
  {
    var b := v.writeBuffer.value;
    assert b[..|b|] == b && b[|b|..] == [];
  }

  /**
    How a name arrives over several reads does not matter: a read that leaves
    the name incomplete followed by another read ends as one read of both.
  */
  lemma ReadSegments(r: Registry<ClientAttachment>, v: Connection, att: ClientAttachment, b1: seq<byte>, b2: seq<byte>)
    requires !v.nameReceived && |v.readBuffer| <= MaxNameLength
    requires ScanName(v.readBuffer, b1).NeedMore?
    ensures var (r1, v1) := ReadEffect(r, v, att, Data(b1));
      && |v1.readBuffer| <= MaxNameLength
      && ReadEffect(r1, v1, att, Data(b2)) == ReadEffect(r, v, att, Data(b1 + b2))
  {
    ScanNameSegments(v.readBuffer, b1, b2);
  }

  /** Once the name is received further reads change nothing, so a connection makes at most one request. */
  lemma RequestHandledOnce(r: Registry<ClientAttachment>, v: Connection, att: ClientAttachment, b1: seq<byte>, b2: seq<byte>)
    requires !v.nameReceived && |v.readBuffer| <= MaxNameLength
    requires ScanName(v.readBuffer, b1).NameComplete?
    ensures var (r1, v1) := ReadEffect(r, v, att, Data(b1));
      && v1.nameReceived
      && r1 == Join(r, DecodeAscii(ScanName(v.readBuffer, b1).name), att).registry
      && ReadEffect(r1, v1, att, Data(b2)) == (r1, v1)
  {
  }

  class KeyServer {
    var nameTable: map<string, Completion>
    var waitingClients: map<string, seq<ClientAttachment>>
    var pendingDeliveries: seq<PendingDelivery<ClientAttachment>>
    var jobs: seq<string>

    function State(): Registry<ClientAttachment>
      reads this
    {
      Registry(nameTable, waitingClients, pendingDeliveries, jobs)
    }

    ghost predicate Valid()
      reads this
    {
      Inv(State())
    }

    constructor ()
      ensures Valid() && State() == Registry(map[], map[], [], [])
    {
      nameTable := map[];
      waitingClients := map[];
      pendingDeliveries := [];
      jobs := [];
    }

    /** closeChannel: cancels the key and closes the socket. */
    method CloseChannel(att: ClientAttachment)
      modifies att
      ensures att.View() == old(att.View()).(registered := false)
    {
      att.registered := false;
    }

    /**
      deliverResultToWaitingClients, run by a generator thread or by the
      reactor; thrown tells whether building the frame threw.
    */
    method DeliverResultToWaitingClients(name: string, res: KeyResult) returns (thrown: bool)
      modifies this
      ensures State() == Deliver(old(State()), name, res)
      ensures thrown == DeliverThrows(old(State()), name, res)
    {
      var clients := if name in waitingClients then waitingClients[name] else [];
      waitingClients := waitingClients - {name};
      if clients == [] {
        return false;
      }
      var built := BuildFrame(res);
      if built.None? {
        return true;
      }
      var frame := built.value;
      var k := 0;
      while k < |clients|
        invariant 0 <= k <= |clients|
        invariant nameTable == old(nameTable) && jobs == old(jobs)
        invariant waitingClients == old(waitingClients) - {name}
        invariant pendingDeliveries == old(pendingDeliveries) + Deliveries(clients[..k], frame)
      {
        assert Deliveries(clients[..k + 1], frame) == Deliveries(clients[..k], frame) + [PendingDelivery(clients[k], frame)];
        pendingDeliveries := pendingDeliveries + [PendingDelivery(clients[k], frame)];
        k := k + 1;
      }
      assert clients[..k] == clients;
      thrown := false;
    }

    /** handleNameRequest: get-or-create the name's future, join its waiters, settle at once if it is finished. */
    method HandleNameRequest(name: string, att: ClientAttachment)
      requires Valid()
      modifies this, att
      ensures Valid()
      ensures var j := Join(old(State()), name, att);
        State() == j.registry && att.View() == old(att.View()).(registered := old(att.registered) && !j.closeConnection)
    {
      JoinPreservesInv(State(), name, att);
      if name !in nameTable {
        nameTable := nameTable[name := Pending];
        jobs := jobs + [name];
      }
      var earlier := if name in waitingClients then waitingClients[name] else [];
      waitingClients := waitingClients[name := earlier + [att]];
      match nameTable[name]
      case Pending =>
      case Done(res) =>
        var thrown := DeliverResultToWaitingClients(name, res);
        if thrown {
          // the catch of handleNameRequest
          CloseChannel(att);
        }
      case Failed =>
        CloseChannel(att);
    }

    /** The generation job submitted for name runs to the given outcome. */
    method RunGenerationJob(name: string, outcome: GenerationOutcome)
      requires Valid() && name in nameTable && nameTable[name].Pending?
      modifies this
      ensures Valid() && State() == Complete(old(State()), name, outcome)
    {
      CompletePreservesInv(State(), name, outcome);
      match outcome
      case Generated(res) =>
        nameTable := nameTable[name := Done(res)];
        // an exception here is caught by the job, and the future is already complete
        var _ := DeliverResultToWaitingClients(name, res);
      case GenerationFailed =>
        nameTable := nameTable[name := Failed];
    }

    /** read: scans the bytes one at a time until the name's terminating zero. */
    method Read(att: ClientAttachment, input: ReadResult)
      requires Valid() && att.Valid() && att.registered
      modifies this, att
      ensures Valid() && att.Valid()
      ensures (State(), att.View()) == ReadEffect(old(State()), old(att.View()), att, input)
    {
      if input.EndOfStream? {
        CloseChannel(att);
        return;
      }
      if att.nameReceived {
        // every byte after the name is ignored
        return;
      }
      var buf := input.bytes;
      ghost var b0 := att.readBuffer;
      var k := 0;
      while k < |buf|
        invariant 0 <= k <= |buf|
        invariant Valid() && att.Valid()
        invariant !att.nameReceived ==>
          && ScanName(b0, buf[..k]) == NeedMore(att.readBuffer)
          && State() == old(State()) && att.View() == old(att.View()).(readBuffer := att.readBuffer)
        invariant att.nameReceived ==>
          && ScanName(b0, buf[..k]).NameComplete?
          && (State(), att.View()) == NameReceived(old(State()), old(att.View()), ScanName(b0, buf[..k]).name, att)
      {
        if !att.nameReceived {
          ghost var v := att.View();
          var closed := ScanByte(att, b0, buf, k);
          if closed {
            ScanNameSettled(b0, buf, k + 1);
            return;
          }
          if att.nameReceived {
            var n := ScanName(b0, buf[..k + 1]).name;
            assert NameReceived(old(State()), v, n, att) == NameReceived(old(State()), old(att.View()), n, att);
          }
        } else {
          assert buf[..k + 1][..k] == buf[..k];
          ScanNameSettled(b0, buf[..k + 1], k);
        }
        k := k + 1;
      }
      assert buf[..k] == buf;
    }

    /** One byte of read's loop while the name is still being received. */
    method ScanByte(att: ClientAttachment, ghost b0: seq<byte>, buf: seq<byte>, k: nat) returns (closed: bool)
      requires Valid() && att.Valid() && att.registered && !att.nameReceived
      requires |b0| <= MaxNameLength && k < |buf|
      requires ScanName(b0, buf[..k]) == NeedMore(att.readBuffer)
      modifies this, att
      ensures Valid() && att.Valid()
      ensures closed <==> ScanName(b0, buf[..k + 1]).TooLong?
      ensures match ScanName(b0, buf[..k + 1])
        case NeedMore(nb) => State() == old(State()) && att.View() == old(att.View()).(readBuffer := nb)
        case TooLong(nb) => State() == old(State()) && att.View() == old(att.View()).(readBuffer := nb, registered := false)
        case NameComplete(n) => (State(), att.View()) == NameReceived(old(State()), old(att.View()), n, att)
    {
      ScanNameStep(b0, buf, k);
      closed := false;
      var b := buf[k];
      if b == 0 {
        att.nameReceived := true;
        att.name := Some(DecodeAscii(att.readBuffer));
        HandleNameRequest(att.name.value, att);
      } else {
        att.readBuffer := att.readBuffer + [b];
        if |att.readBuffer| > MaxNameLength {
          CloseChannel(att);
          closed := true;
        }
      }
    }

    /** The reactor's drain of pendingDeliveries at the top of each select round. */
    method DrainPendingDeliveries()
      requires Valid()
      modifies this, Clients(pendingDeliveries)
      ensures Valid() && State() == old(State()).(pendingDeliveries := [])
      ensures forall c :: c in Clients(old(pendingDeliveries)) ==>
        c.View() == Armed(old(c.View()), LastBuffer(old(pendingDeliveries), c))
    {
      ghost var queue := pendingDeliveries;
      ghost var done := 0;
      while pendingDeliveries != []
        invariant 0 <= done <= |queue| && pendingDeliveries == queue[done..]
        invariant nameTable == old(nameTable) && waitingClients == old(waitingClients) && jobs == old(jobs)
        invariant forall c :: c in Clients(queue) ==> c.View() == Armed(old(c.View()), LastBuffer(queue[..done], c))
        decreases |pendingDeliveries|
      {
        var pd := pendingDeliveries[0];
        assert pd == queue[done] && pd.client in Clients(queue);
        LastBufferStep(queue, done);
        ArmedTwice(pd.client.View(), pd.buffer);
        Arm(pd.client, pd.buffer);
        pendingDeliveries := pendingDeliveries[1..];
        done := done + 1;
      }
      assert queue[..done] == queue;
    }

    /** One drained delivery: a registered client gets the buffer and OpWrite interest. */
    method Arm(ca: ClientAttachment, buffer: seq<byte>)
      modifies ca
      ensures ca.View() == Armed(old(ca.View()), Some(buffer))
    {
      if ca.registered {
        ca.writeBuffer := Some(buffer);
        ca.interestOps := ca.interestOps + {OpWrite};
      }
    }

    /** write: with a buffer, sends what the socket accepts and closes once it is drained. */
    method Write(att: ClientAttachment, accepted: nat)
      modifies att
      ensures att.View() == WriteEffect(old(att.View()), accepted)
    {
      if att.writeBuffer.None? {
        att.interestOps := att.interestOps - {OpWrite};
        return;
      }
      var b := att.writeBuffer.value;
      var k := if accepted < |b| then accepted else |b|;
      att.sent := att.sent + b[..k];
      att.writeBuffer := Some(b[k..]);
      if k == |b| {
        CloseChannel(att);
      }
    }
  }
}
