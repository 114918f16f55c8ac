/** The connections of one chat node and what it writes to them (`Communicator` and `MessengerLogic` of
    `p2p-chat.py`). */
module Messenger {
  import opened Flooding

  datatype Address = Address(host: string, port: int)

  datatype Transport = Transport(peerName: Address, sockName: Address)

  /** A `ChatProtocol` object; `id` is its identity. It has no transport before the connection is made. */
  datatype Proto = Connecting(id: nat) | Connected(id: nat, transport: Transport)

  datatype ChatMessage = ChatMessage(senderId: Nickname, receiverId: Nickname, sendTime: int, text: string)

  /** The protocols `send_message` writes to, in order. Without a transport an exception is caught and printed. */
  function Recipients(protos: seq<Proto>, exceptions: seq<Address>): seq<Proto> {
    if protos == [] then []
    else if protos[0].Connected? && protos[0].transport.peerName !in exceptions
    then [protos[0]] + Recipients(protos[1..], exceptions)
    else Recipients(protos[1..], exceptions)
  }

  function WithoutFirst(protos: seq<Proto>, id: nat): seq<Proto> {
    if protos == [] then []
    else if protos[0].id == id then protos[1..]
    else [protos[0]] + WithoutFirst(protos[1..], id)
  }

  lemma {:induction false} WithoutFirstAt(protos: seq<Proto>, id: nat, i: nat)
    requires i <= |protos| && (forall k | 0 <= k < i :: protos[k].id != id) && (i < |protos| ==> protos[i].id == id)
    ensures WithoutFirst(protos, id) == if i < |protos| then protos[..i] + protos[i + 1..] else protos
    decreases i
  {
    if i > 0 {
      WithoutFirstAt(protos[1..], id, i - 1);
    }
  }

  class Communicator {
    var protos: seq<Proto>

    constructor ()
      ensures protos == []
    {
      protos := [];
    }

    method ProtoFactory(id: nat)
      modifies this
      ensures protos == old(protos) + [Connecting(id)]
    {
      protos := protos + [Connecting(id)];
    }

    /** Called once for end of file and once more when the connection is lost. */
    method OnDisconnect(id: nat)
      modifies this
      ensures protos == WithoutFirst(old(protos), id)
    {
      var i := 0;
      while i < |protos|
        invariant 0 <= i <= |protos| && protos == old(protos)
        invariant forall k | 0 <= k < i :: protos[k].id != id
      {
        if protos[i].id == id {
          WithoutFirstAt(protos, id, i);
          protos := protos[..i] + protos[i + 1..];
          return;
        }
        i := i + 1;
      }
      WithoutFirstAt(protos, id, i);
    }

    method SendMessage(exceptions: seq<Address>) returns (written: seq<Proto>)
      ensures written == Recipients(protos, exceptions)
    {
      written := [];
      var i := 0;
      while i < |protos|
        invariant 0 <= i <= |protos|
        invariant Recipients(protos, exceptions) == written + Recipients(protos[i..], exceptions)
      {
        var s := protos[i];
        assert protos[i..][1..] == protos[i + 1..];
        if s.Connected? && s.transport.peerName !in exceptions {
          written := written + [s];
        }
        i := i + 1;
      }
    }
  }

  class MessengerLogic {
    const myNickname: Nickname
    const comm: Communicator

    constructor (myNickname: Nickname, comm: Communicator)
      ensures this.myNickname == myNickname && this.comm == comm
    {
      this.myNickname := myNickname;
      this.comm := comm;
    }

    method OnMessage(msg: ChatMessage, transport: Transport) returns (written: seq<Proto>)
      ensures written == if msg.receiverId == myNickname then []
                         else Recipients(comm.protos, [transport.peerName, transport.sockName])
    {
      if msg.receiverId == myNickname {
        return [];
      }
      written := comm.SendMessage([transport.peerName, transport.sockName]);
    }
  }

  /** Nobody else is affected by a disconnect, and the second call for the same connection changes nothing. */
  lemma {:induction false} DisconnectTwice(protos: seq<Proto>, id: nat)
    requires forall i, j | 0 <= i < j < |protos| :: protos[i].id != protos[j].id
    ensures var left := WithoutFirst(protos, id);
            && (forall p :: p in left <==> p in protos && p.id != id)
            && WithoutFirst(left, id) == left
  {
    if protos != [] {
      assert forall p :: p in protos <==> p == protos[0] || p in protos[1..];
      if protos[0].id == id {
        forall p | p in protos[1..] ensures p.id != id {
          var k :| 1 <= k < |protos| && protos[k] == p;
        }
        WithoutFirstAt(protos[1..], id, |protos| - 1);
      } else {
        DisconnectTwice(protos[1..], id);
        assert WithoutFirst(protos, id)[1..] == WithoutFirst(protos[1..], id);
      }
    }
  }

  lemma {:induction false} RecipientsAre(protos: seq<Proto>, exceptions: seq<Address>, p: Proto)
    ensures p in Recipients(protos, exceptions) <==> p in protos && p.Connected? && p.transport.peerName !in exceptions
  {
    if protos != [] {
      RecipientsAre(protos[1..], exceptions, p);
      assert p in protos <==> p == protos[0] || p in protos[1..];
    }
  }

  /** A connected peer that is no exception is written to as often as it is in the list, and nobody else is. */
  lemma {:induction false} WrittenOften(protos: seq<Proto>, exceptions: seq<Address>, p: Proto)
    ensures multiset(Recipients(protos, exceptions))[p]
         == if p.Connected? && p.transport.peerName !in exceptions then multiset(protos)[p] else 0
  {
    if protos != [] {
      var rest := Recipients(protos[1..], exceptions);
      WrittenOften(protos[1..], exceptions, p);
      assert protos == [protos[0]] + protos[1..];
      assert multiset([protos[0]] + rest) == multiset{protos[0]} + multiset(rest);
    }
  }

  /** Positions in the list, in ascending order, of the connections that are written to. */
  predicate Positions(protos: seq<Proto>, written: seq<Proto>, at: seq<nat>) {
    && |at| == |written|
    && (forall k | 0 <= k < |at| :: at[k] < |protos| && protos[at[k]] == written[k])
    && forall j, k | 0 <= j < k < |at| :: at[j] < at[k]
  }

  lemma LaterPositions(protos: seq<Proto>, written: seq<Proto>, at: seq<nat>) returns (later: seq<nat>)
    requires protos != [] && Positions(protos[1..], written, at)
    ensures Positions(protos, written, later) && forall k | 0 <= k < |later| :: later[k] > 0
  {
    later := seq(|at|, k requires 0 <= k < |at| => at[k] + 1);
  }

  lemma FirstPosition(protos: seq<Proto>, written: seq<Proto>, later: seq<nat>)
    requires protos != [] && Positions(protos, written, later) && forall k | 0 <= k < |later| :: later[k] > 0
    ensures Positions(protos, [protos[0]] + written, [0] + later)
  {
  }

  /** They are written to in the order of the list. */
  lemma {:induction false} WrittenInOrder(protos: seq<Proto>, exceptions: seq<Address>) returns (at: seq<nat>)
    ensures Positions(protos, Recipients(protos, exceptions), at)
  {
    if protos == [] {
      at := [];
    } else {
      at := WrittenInOrder(protos[1..], exceptions);
      at := LaterPositions(protos, Recipients(protos[1..], exceptions), at);
      if protos[0].Connected? && protos[0].transport.peerName !in exceptions {
        FirstPosition(protos, Recipients(protos[1..], exceptions), at);
        at := [0] + at;
      }
    }
  }

  /** The links a node writes to, one for each time it does. */
  function LinksTo(me: Nickname, written: seq<Proto>, nickname: Proto -> Nickname): (links: seq<Link>)
    ensures |links| == |written|
  {
    seq(|written|, k requires 0 <= k < |written| => (me, nickname(written[k])))
  }

  lemma {:induction false} LinksAreCounted(me: Nickname, written: seq<Proto>, nickname: Proto -> Nickname, p: Proto)
    requires forall q | q in written && q != p :: nickname(q) != nickname(p)
    ensures multiset(LinksTo(me, written, nickname))[(me, nickname(p))] == multiset(written)[p]
  {
    if written != [] {
      var links, rest := LinksTo(me, written, nickname), written[1..];
      LinksAreCounted(me, rest, nickname, p);
      assert links == [(me, nickname(written[0]))] + LinksTo(me, rest, nickname);
      assert written == [written[0]] + rest;
    }
  }

  lemma {:induction false} OnceInList(protos: seq<Proto>, p: Proto)
    requires forall i, j | 0 <= i < j < |protos| :: protos[i] != protos[j]
    ensures multiset(protos)[p] == if p in protos then 1 else 0
  {
    if protos != [] {
      OnceInList(protos[1..], p);
      assert protos == [protos[0]] + protos[1..];
    }
  }

  /** Different peers have different addresses, other than the node's own, and different names; the list holds each
      connection once, and all of them are made. */
  predicate DistinctPeers(protos: seq<Proto>, nickname: Proto -> Nickname, sockName: Address) {
    && (forall p | p in protos :: p.Connected? && p.transport.peerName != sockName)
    && (forall i, j | 0 <= i < j < |protos| :: protos[i] != protos[j])
    && (forall p, q | p in protos && q in protos && p != q ::
          p.transport.peerName != q.transport.peerName && nickname(p) != nickname(q))
  }

  /** A message comes to every neighbour but the one it came from, and to each of them once. */
  lemma HandedOnOnce(protos: seq<Proto>, nickname: Proto -> Nickname, arrival: Proto, p: Proto)
    requires arrival in protos && arrival.Connected? && DistinctPeers(protos, nickname, arrival.transport.sockName)
    ensures multiset(Recipients(protos, [arrival.transport.peerName, arrival.transport.sockName]))[p]
         == if p in protos && p != arrival then 1 else 0
  {
    WrittenOften(protos, [arrival.transport.peerName, arrival.transport.sockName], p);
    OnceInList(protos, p);
  }

  lemma LinkOnce(me: Nickname, protos: seq<Proto>, nickname: Proto -> Nickname, arrival: Proto, written: seq<Proto>,
                 p: Proto)
    requires arrival in protos && arrival.Connected? && DistinctPeers(protos, nickname, arrival.transport.sockName)
    requires written == Recipients(protos, [arrival.transport.peerName, arrival.transport.sockName])
    requires p in written && forall q | q in written :: q in protos
    ensures multiset(LinksTo(me, written, nickname))[(me, nickname(p))] == 1
  {
    LinksAreCounted(me, written, nickname, p);
    HandedOnOnce(protos, nickname, arrival, p);
  }

  /** A node whose connections are all made, to peers with different addresses other than its own, hands a message on
      exactly as the flood does: once over every link but the one it came by. */
  lemma HandsOnLikeFlood(g: Overlay, me: Nickname, protos: seq<Proto>, nickname: Proto -> Nickname, arrival: Proto)
    requires me in g && arrival in protos && arrival.Connected?
    requires DistinctPeers(protos, nickname, arrival.transport.sockName)
    requires g[me] == set p | p in protos :: nickname(p)
    ensures var written := Recipients(protos, [arrival.transport.peerName, arrival.transport.sockName]);
            multiset(LinksTo(me, written, nickname)) == multiset(Writes(g, me, {nickname(arrival)}))
  {
    var exceptions := [arrival.transport.peerName, arrival.transport.sockName];
    var written := Recipients(protos, exceptions);
    var links, writes := LinksTo(me, written, nickname), Writes(g, me, {nickname(arrival)});
    forall p ensures p in written <==> p in protos && p != arrival {
      RecipientsAre(protos, exceptions, p);
    }
    forall link ensures multiset(links)[link] == multiset(writes)[link] {
      if link in links {
        var k :| 0 <= k < |links| && links[k] == link;
        assert written[k] in written && link == (me, nickname(written[k]));
        LinkOnce(me, protos, nickname, arrival, written, written[k]);
        assert link in writes;
      } else if link in writes {
        var p :| p in protos && nickname(p) == link.1;
        assert p in written;
        LinkOnce(me, protos, nickname, arrival, written, p);
      }
    }
  }
}
