/** The brokers that pass each frame on to the clients: WebSocket
    connections, which a broadcast prunes, and a fixed list of UDP targets. */
module Brokers {
  import opened Wrappers

  /** An accepted WebSocket connection, known by the order it was accepted in. */
  type Socket = nat

  /** What `read_message` on a non-blocking connection gives. */
  datatype ReadOutcome =
    | CloseFrame                  // `Ok(message)` with `message.is_close()`
    | OtherFrame(message: string) // any other message from the client
    | WouldBlock                  // `Err(Io(e))` of kind `WouldBlock`: nothing to read
    | ReadFailure(error: string)  // any other error

  /** What `write_message(Message::text(..))` gives. */
  datatype WriteOutcome =
    | WriteOk
    | ConnectionAborted           // `Err(Io(e))` of kind `ConnectionAborted`
    | WriteFailure(error: string) // any other error

  /** How one connection answers during one broadcast: its read, its write
      (looked at only when the read would block) and `can_write()` after it. */
  datatype Reaction = Reaction(read: ReadOutcome, write: WriteOutcome, canWrite: bool)

  /** The panics of `broadcast`, by the number in their message. */
  datatype Panic =
    | UnknownMessage(message: string) // "[003] unknown message"
    | UnknownReadError(error: string) // "[001] encountered unknown error"
    | UnknownWriteError(error: string) // "[002] encountered unknown error"

  /** What the `retain_mut` closure decides for one connection. */
  datatype Fate = Survives | PeerClosed | WriteAborted | Unwritable | Fatal(panic: Panic)

  /** The closure of `retain_mut`: the read first, the write only when there
      was nothing to read, `can_write()` last. */
  function FateOf(r: Reaction): (f: Fate)
    ensures f == Survives <==> r.read == WouldBlock && r.write == WriteOk && r.canWrite
    ensures f == PeerClosed <==> r.read == CloseFrame
    ensures f == WriteAborted <==> r.read == WouldBlock && r.write == ConnectionAborted
    ensures f == Unwritable <==> r.read == WouldBlock && r.write == WriteOk && !r.canWrite
    ensures f.Fatal? <==> r.read.OtherFrame? || r.read.ReadFailure? || (r.read == WouldBlock && r.write.WriteFailure?)
    ensures f.Fatal? && r.read.OtherFrame? ==> f.panic == UnknownMessage(r.read.message)
    ensures f.Fatal? && r.read.ReadFailure? ==> f.panic == UnknownReadError(r.read.error)
    ensures f.Fatal? && r.read == WouldBlock ==> f.panic == UnknownWriteError(r.write.error)
  {
    match r.read
    case CloseFrame => PeerClosed
    case OtherFrame(m) => Fatal(UnknownMessage(m))
    case ReadFailure(e) => Fatal(UnknownReadError(e))
    case WouldBlock =>
      match r.write
      case WriteOk => if r.canWrite then Survives else Unwritable
      case ConnectionAborted => WriteAborted
      case WriteFailure(e) => Fatal(UnknownWriteError(e))
  }

  /** The write step is reached exactly when there was nothing to read. */
  predicate WriteAttempted(r: Reaction)
  {
    r.read == WouldBlock
  }

  /** The index of the first connection whose reaction panics, or the count
      of connections when none does. */
  function FirstFatal(rs: seq<Reaction>): (k: nat)
    ensures k <= |rs|
    ensures forall j :: 0 <= j < k ==> !FateOf(rs[j]).Fatal?
    ensures k < |rs| ==> FateOf(rs[k]).Fatal?
    decreases |rs|
  {
    if |rs| == 0 then 0
    else if FateOf(rs[0]).Fatal? then 0
    else 1 + FirstFatal(rs[1..])
  }

  /** A connection that is idle, takes the write and can still be written:
      the one fate that keeps it. */
  predicate Live(r: Reaction)
  {
    FateOf(r) == Survives
  }

  /** The connections, in order, whose reaction keeps them. */
  function Survivors(socks: seq<Socket>, rs: seq<Reaction>): seq<Socket>
    requires |socks| == |rs|
    decreases |socks|
  {
    if |socks| == 0 then []
    else
      var n := |socks| - 1;
      Survivors(socks[..n], rs[..n]) + (if Live(rs[n]) then [socks[n]] else [])
  }

  /** The connections, in order, that the message is written to. */
  function WrittenTo(socks: seq<Socket>, rs: seq<Reaction>): seq<Socket>
    requires |socks| == |rs|
    decreases |socks|
  {
    if |socks| == 0 then []
    else
      var n := |socks| - 1;
      WrittenTo(socks[..n], rs[..n]) + (if WriteAttempted(rs[n]) then [socks[n]] else [])
  }

  /** One text frame carrying `text`, written to `to`. */
  datatype Write = Write(to: Socket, text: string)

  /** The same text written to each of `socks`, in order. */
  function Writes(socks: seq<Socket>, text: string): (ws: seq<Write>)
    ensures |ws| == |socks|
  {
    seq(|socks|, k requires 0 <= k < |socks| => Write(socks[k], text))
  }

  /** `a` is `b` with some elements left out, the rest in their order. */
  predicate Embeds(a: seq<Socket>, b: seq<Socket>)
    decreases |b|
  {
    if |a| == 0 then true
    else if |b| == 0 then false
    else (a[|a| - 1] == b[|b| - 1] && Embeds(a[..|a| - 1], b[..|b| - 1])) || Embeds(a, b[..|b| - 1])
  }

  /** The survivors are an order-preserving selection of the connections, so
      there are never more of them. */
  lemma {:induction false} SurvivorsEmbed(socks: seq<Socket>, rs: seq<Reaction>)
    requires |socks| == |rs|
    ensures Embeds(Survivors(socks, rs), socks)
    ensures |Survivors(socks, rs)| <= |socks|
    decreases |socks|
  {
    if |socks| > 0 {
      var n := |socks| - 1;
      SurvivorsEmbed(socks[..n], rs[..n]);
      var s, s' := Survivors(socks, rs), Survivors(socks[..n], rs[..n]);
      if Live(rs[n]) {
        assert s == s' + [socks[n]];
        assert s[..|s| - 1] == s' && s[|s| - 1] == socks[n];
      } else {
        assert s == s';
      }
    }
  }

  /** The reached connections are an order-preserving selection too. */
  lemma {:induction false} WrittenToEmbed(socks: seq<Socket>, rs: seq<Reaction>)
    requires |socks| == |rs|
    ensures Embeds(WrittenTo(socks, rs), socks)
    decreases |socks|
  {
    if |socks| > 0 {
      var n := |socks| - 1;
      WrittenToEmbed(socks[..n], rs[..n]);
      var s, s' := WrittenTo(socks, rs), WrittenTo(socks[..n], rs[..n]);
      if WriteAttempted(rs[n]) {
        assert s == s' + [socks[n]];
        assert s[..|s| - 1] == s' && s[|s| - 1] == socks[n];
      } else {
        assert s == s';
      }
    }
  }

  /** A connection survives exactly when one of its positions answered with
      nothing to read, a successful write and `can_write()`. */
  lemma {:induction false} SurvivorsMembers(socks: seq<Socket>, rs: seq<Reaction>, s: Socket)
    requires |socks| == |rs|
    ensures s in Survivors(socks, rs) <==>
      exists k :: 0 <= k < |socks| && socks[k] == s && Live(rs[k])
    decreases |socks|
  {
    if |socks| > 0 {
      var n := |socks| - 1;
      SurvivorsMembers(socks[..n], rs[..n], s);
      if s in Survivors(socks[..n], rs[..n]) {
        var k :| 0 <= k < n && socks[..n][k] == s && Live(rs[..n][k]);
        assert socks[k] == s && rs[k] == rs[..n][k];
      }
      if exists k :: 0 <= k < |socks| && socks[k] == s && Live(rs[k]) {
        var k :| 0 <= k < |socks| && socks[k] == s && Live(rs[k]);
        if k < n {
          assert socks[..n][k] == s && rs[..n][k] == rs[k];
        }
      }
    }
  }

  /** The message is written to a connection exactly when one of its
      positions had nothing to read; a connection that sent a close frame is
      not written to there. */
  lemma {:induction false} WrittenToMembers(socks: seq<Socket>, rs: seq<Reaction>, s: Socket)
    requires |socks| == |rs|
    ensures s in WrittenTo(socks, rs) <==> exists k :: 0 <= k < |socks| && socks[k] == s && rs[k].read == WouldBlock
    decreases |socks|
  {
    if |socks| > 0 {
      var n := |socks| - 1;
      WrittenToMembers(socks[..n], rs[..n], s);
      if s in WrittenTo(socks[..n], rs[..n]) {
        var k :| 0 <= k < n && socks[..n][k] == s && rs[..n][k].read == WouldBlock;
        assert socks[k] == s && rs[k] == rs[..n][k];
      }
      if exists k :: 0 <= k < |socks| && socks[k] == s && rs[k].read == WouldBlock {
        var k :| 0 <= k < |socks| && socks[k] == s && rs[k].read == WouldBlock;
        if k < n {
          assert socks[..n][k] == s && rs[..n][k] == rs[k];
        }
      }
    }
  }

  /** A connection that survives was written to: every survivor is reached. */
  lemma {:induction false} SurvivorsWrittenTo(socks: seq<Socket>, rs: seq<Reaction>)
    requires |socks| == |rs|
    ensures Embeds(Survivors(socks, rs), WrittenTo(socks, rs))
    decreases |socks|
  {
    if |socks| > 0 {
      var n := |socks| - 1;
      SurvivorsWrittenTo(socks[..n], rs[..n]);
      var s, w := Survivors(socks, rs), WrittenTo(socks, rs);
      var s', w' := Survivors(socks[..n], rs[..n]), WrittenTo(socks[..n], rs[..n]);
      if Live(rs[n]) {
        assert s == s' + [socks[n]] && w == w' + [socks[n]];
        assert s[..|s| - 1] == s' && w[..|w| - 1] == w' && s[|s| - 1] == w[|w| - 1];
      } else if WriteAttempted(rs[n]) {
        assert s == s' && w == w' + [socks[n]];
        EmbedsExtend(s, w', socks[n]);
      } else {
        assert s == s' && w == w';
      }
    }
  }

  /** Adding an element at the end of the longer sequence keeps a selection. */
  lemma {:induction false} EmbedsExtend(a: seq<Socket>, b: seq<Socket>, x: Socket)
    requires Embeds(a, b)
    ensures Embeds(a, b + [x])
  {
    if |a| > 0 {
      assert (b + [x])[..|b|] == b;
    }
  }

  /** Both selections, one position further. */
  lemma SelectionsSnoc(socks: seq<Socket>, rs: seq<Reaction>, i: nat)
    requires |socks| == |rs| && i < |socks|
    ensures Survivors(socks[..i + 1], rs[..i + 1]) ==
      Survivors(socks[..i], rs[..i]) + (if Live(rs[i]) then [socks[i]] else [])
    ensures WrittenTo(socks[..i + 1], rs[..i + 1]) ==
      WrittenTo(socks[..i], rs[..i]) + (if WriteAttempted(rs[i]) then [socks[i]] else [])
  {
    assert socks[..i + 1][..i] == socks[..i];
    assert rs[..i + 1][..i] == rs[..i];
  }

  /** The WebSocket broker's list of connections. `Accept` is the push of
      the acceptor thread of both the plain and the TLS broker. */
  class SocketBroker {
    var sockets: seq<Socket>

    constructor ()
      ensures sockets == []
    {
      sockets := [];
    }

    /** A new connection goes at the end; the others stay as they are. */
    method Accept(socket: Socket)
      modifies this
      ensures sockets == old(sockets) + [socket]
    {
      sockets := sockets + [socket];
    }

    /** `broadcast`: `retain_mut` over the connections, with `rs[k]` the way
        connection k answers this time. Up to the first panicking connection,
        the survivors stay in order and the message went to every connection
        that had nothing to read. A panic leaves that connection and the ones
        after it in place, as `retain_mut` does when its closure unwinds. */
    method Broadcast(message: string, rs: seq<Reaction>) returns (written: seq<Write>, fault: Option<Panic>)
      requires |rs| == |sockets|
      modifies this
      ensures var socks, k := old(sockets), FirstFatal(rs);
        var upTo := if k < |rs| then k + 1 else k;
        sockets == Survivors(socks[..k], rs[..k]) + socks[k..] &&
        written == Writes(WrittenTo(socks[..upTo], rs[..upTo]), message) &&
        fault == (if k < |rs| then Some(FateOf(rs[k]).panic) else None)
    {
      var socks := sockets;
      var kept: seq<Socket> := [];
      var reached: seq<Socket> := [];
      var i := 0;
      while i < |socks|
        invariant i <= |socks| && forall j :: 0 <= j < i ==> !FateOf(rs[j]).Fatal?
        invariant kept == Survivors(socks[..i], rs[..i])
        invariant reached == WrittenTo(socks[..i], rs[..i])
      {
        SelectionsSnoc(socks, rs, i);
        var fate := FateOf(rs[i]);
        if WriteAttempted(rs[i]) {
          reached := reached + [socks[i]];
        }
        if fate.Fatal? {
          FirstFatalAt(rs, i);
          sockets := kept + socks[i..];
          return Writes(reached, message), Some(fate.panic);
        }
        if fate == Survives {
          kept := kept + [socks[i]];
        }
        i := i + 1;
      }
      FirstFatalNone(rs);
      assert socks[..i] == socks && rs[..i] == rs;
      sockets := kept;
      return Writes(reached, message), None;
    }
  }

  /** A first panicking position is the one `FirstFatal` finds. */
  lemma {:induction false} FirstFatalAt(rs: seq<Reaction>, i: nat)
    requires i < |rs| && FateOf(rs[i]).Fatal?
    requires forall j :: 0 <= j < i ==> !FateOf(rs[j]).Fatal?
    ensures FirstFatal(rs) == i
    decreases i
  {
    if i > 0 {
      assert forall j :: 0 <= j < i - 1 ==> rs[1..][j] == rs[j + 1];
      FirstFatalAt(rs[1..], i - 1);
    }
  }

  lemma {:induction false} FirstFatalNone(rs: seq<Reaction>)
    requires forall j :: 0 <= j < |rs| ==> !FateOf(rs[j]).Fatal?
    ensures FirstFatal(rs) == |rs|
    decreases |rs|
  {
    if |rs| > 0 {
      assert forall j :: 0 <= j < |rs| - 1 ==> rs[1..][j] == rs[j + 1];
      FirstFatalNone(rs[1..]);
    }
  }

  /** Live connections and one that sent a close frame: the closed one is
      dropped without a write, the others are kept and written to in order,
      and nothing panics. */
  lemma OneClosed(socks: seq<Socket>, rs: seq<Reaction>, c: nat)
    requires |socks| == |rs| && c < |rs| && rs[c].read == CloseFrame
    requires forall j :: 0 <= j < |rs| && j != c ==> Live(rs[j])
    ensures FirstFatal(rs) == |rs|
    ensures Survivors(socks, rs) == socks[..c] + socks[c + 1..]
    ensures WrittenTo(socks, rs) == socks[..c] + socks[c + 1..]
  {
    NoneFatalButClosed(rs, c);
    FirstFatalNone(rs);
    var before, after := socks[..c + 1], socks[c + 1..];
    var rb, ra := rs[..c + 1], rs[c + 1..];
    SplitAfter(socks, rs, c, rb, ra);
    ClosedAtEnd(before, rb);
    AllLive(after, ra);
    SurvivorsAppend(before, rb, after, ra);
    WrittenToAppend(before, rb, after, ra);
  }

  lemma NoneFatalButClosed(rs: seq<Reaction>, c: nat)
    requires c < |rs| && rs[c].read == CloseFrame
    requires forall j :: 0 <= j < |rs| && j != c ==> Live(rs[j])
    ensures forall j :: 0 <= j < |rs| ==> !FateOf(rs[j]).Fatal?
  {
    forall j | 0 <= j < |rs|
      ensures !FateOf(rs[j]).Fatal?
    {
      if j != c {
        assert Live(rs[j]);
      }
    }
  }

  /** The connections up to and including c, and the ones after it. */
  lemma SplitAfter(socks: seq<Socket>, rs: seq<Reaction>, c: nat, rb: seq<Reaction>, ra: seq<Reaction>)
    requires |socks| == |rs| && c < |rs| && rs[c].read == CloseFrame
    requires forall j :: 0 <= j < |rs| && j != c ==> Live(rs[j])
    requires rb == rs[..c + 1] && ra == rs[c + 1..]
    ensures socks == socks[..c + 1] + socks[c + 1..] && rs == rb + ra
    ensures socks[..c + 1][..c] == socks[..c]
    ensures rb[c] == rs[c]
    ensures forall j :: 0 <= j < c ==> Live(rb[j])
    ensures forall j :: 0 <= j < |ra| ==> Live(ra[j])
  {
    forall j | 0 <= j < |ra|
      ensures Live(ra[j])
    {
      assert ra[j] == rs[c + 1 + j];
    }
    forall j | 0 <= j < c
      ensures Live(rb[j])
    {
      assert rb[j] == rs[j];
    }
  }

  /** Live connections followed by a closed one: all but the last survive
      and are written to. */
  lemma ClosedAtEnd(socks: seq<Socket>, rs: seq<Reaction>)
    requires |socks| == |rs| > 0 && rs[|rs| - 1].read == CloseFrame
    requires forall j :: 0 <= j < |rs| - 1 ==> Live(rs[j])
    ensures Survivors(socks, rs) == socks[..|socks| - 1]
    ensures WrittenTo(socks, rs) == socks[..|socks| - 1]
  {
    var n := |socks| - 1;
    forall j | 0 <= j < n
      ensures Live(rs[..n][j])
    {
      assert rs[..n][j] == rs[j];
    }
    AllLive(socks[..n], rs[..n]);
  }

  /** Both selections over two stretches of connections, one after the other. */
  lemma {:induction false} SurvivorsAppend(a: seq<Socket>, ra: seq<Reaction>, b: seq<Socket>, rb: seq<Reaction>)
    requires |a| == |ra| && |b| == |rb|
    ensures Survivors(a + b, ra + rb) == Survivors(a, ra) + Survivors(b, rb)
    decreases |b|
  {
    if |b| == 0 {
      assert a + b == a && ra + rb == ra;
    } else {
      var n := |b| - 1;
      SurvivorsAppend(a, ra, b[..n], rb[..n]);
      assert (a + b)[..|a| + n] == a + b[..n];
      assert (ra + rb)[..|a| + n] == ra + rb[..n];
    }
  }

  lemma {:induction false} WrittenToAppend(a: seq<Socket>, ra: seq<Reaction>, b: seq<Socket>, rb: seq<Reaction>)
    requires |a| == |ra| && |b| == |rb|
    ensures WrittenTo(a + b, ra + rb) == WrittenTo(a, ra) + WrittenTo(b, rb)
    decreases |b|
  {
    if |b| == 0 {
      assert a + b == a && ra + rb == ra;
    } else {
      var n := |b| - 1;
      WrittenToAppend(a, ra, b[..n], rb[..n]);
      assert (a + b)[..|a| + n] == a + b[..n];
      assert (ra + rb)[..|a| + n] == ra + rb[..n];
    }
  }

  /** Connections that are all live all survive and are all written to. */
  lemma {:induction false} AllLive(socks: seq<Socket>, rs: seq<Reaction>)
    requires |socks| == |rs| && forall j :: 0 <= j < |rs| ==> Live(rs[j])
    ensures Survivors(socks, rs) == socks && WrittenTo(socks, rs) == socks
    decreases |socks|
  {
    if |socks| > 0 {
      var n := |socks| - 1;
      forall j | 0 <= j < n
        ensures Live(rs[..n][j])
      {
        assert rs[..n][j] == rs[j];
      }
      AllLive(socks[..n], rs[..n]);
      assert socks[..n] + [socks[n]] == socks;
    }
  }

  // -----------------------------------------------------------------------
  // UDP

  /** What `send_to` gives for one target. */
  datatype SendOutcome = Delivered | SendFailure(error: string)

  /** One datagram carrying `payload` to `to`. */
  datatype Datagram = Datagram(to: string, payload: string)

  /** The same payload to each of `addrs`, in order. */
  function Datagrams(addrs: seq<string>, payload: string): (ds: seq<Datagram>)
    ensures |ds| == |addrs|
  {
    seq(|addrs|, k requires 0 <= k < |addrs| => Datagram(addrs[k], payload))
  }

  /** The index of the first failing send, or the count of targets. */
  function FirstFailure(outcomes: seq<SendOutcome>): (k: nat)
    ensures k <= |outcomes|
    ensures forall j :: 0 <= j < k ==> outcomes[j] == Delivered
    ensures k < |outcomes| ==> outcomes[k].SendFailure?
    decreases |outcomes|
  {
    if |outcomes| == 0 then 0
    else if outcomes[0].SendFailure? then 0
    else 1 + FirstFailure(outcomes[1..])
  }

  /** The UDP broker: a socket bound once and the list of targets it was
      given, which no broadcast changes. */
  class UdpBroker {
    const targetAddrs: seq<string>

    constructor (targetAddrs: seq<string>)
      ensures this.targetAddrs == targetAddrs
    {
      this.targetAddrs := targetAddrs;
    }

    /** `broadcast`: one datagram per target, in list order, with
        `outcomes[k]` what sending to target k gives; the first failure
        panics through `unwrap`, after that datagram was attempted. */
    method Broadcast(message: string, outcomes: seq<SendOutcome>) returns (attempted: seq<Datagram>, fault: Option<string>)
      requires |outcomes| == |targetAddrs|
      ensures var k := FirstFailure(outcomes);
        attempted == Datagrams(targetAddrs[..if k < |outcomes| then k + 1 else k], message) &&
        fault == (if k < |outcomes| then Some(outcomes[k].error) else None)
    {
      attempted := [];
      var i := 0;
      while i < |targetAddrs|
        invariant i <= |targetAddrs| && attempted == Datagrams(targetAddrs[..i], message)
        invariant forall j :: 0 <= j < i ==> outcomes[j] == Delivered
      {
        attempted := attempted + [Datagram(targetAddrs[i], message)];
        assert attempted == Datagrams(targetAddrs[..i + 1], message);
        if outcomes[i].SendFailure? {
          FirstFailureAt(outcomes, i);
          return attempted, Some(outcomes[i].error);
        }
        i := i + 1;
      }
      FirstFailureNone(outcomes);
      assert targetAddrs[..i] == targetAddrs;
      fault := None;
    }
  }

  lemma {:induction false} FirstFailureAt(outcomes: seq<SendOutcome>, i: nat)
    requires i < |outcomes| && outcomes[i].SendFailure?
    requires forall j :: 0 <= j < i ==> outcomes[j] == Delivered
    ensures FirstFailure(outcomes) == i
    decreases i
  {
    if i > 0 {
      assert forall j :: 0 <= j < i - 1 ==> outcomes[1..][j] == outcomes[j + 1];
      FirstFailureAt(outcomes[1..], i - 1);
    }
  }

  lemma {:induction false} FirstFailureNone(outcomes: seq<SendOutcome>)
    requires forall j :: 0 <= j < |outcomes| ==> outcomes[j] == Delivered
    ensures FirstFailure(outcomes) == |outcomes|
    decreases |outcomes|
  {
    if |outcomes| > 0 {
      assert forall j :: 0 <= j < |outcomes| - 1 ==> outcomes[1..][j] == outcomes[j + 1];
      FirstFailureNone(outcomes[1..]);
    }
  }
}
