/** The echo server over io_uring (`ioring_server/main.cpp`) as a transition system: the kernel completes operations
    in any order, and each completion is one turn of the server's loop. Requests are known by their address, which may
    be given out again once a request has been removed. */
module IoRing {
  import opened Text

  type Address = nat

  const BUFFER_SIZE := 256

  datatype EventType = Accept | Recv | Send

  /** `Request`, with the length in its I/O vector. What the client sent and got back, and how many bytes short sends
      dropped, is history. */
  datatype Request = Request(clientSock: int, eventType: EventType, data: seq<char>, length: nat,
                             received: seq<char>, echoed: seq<char>, lost: nat)

  /** An operation in flight: its user data, and the length the kernel was given. */
  datatype Operation = Operation(request: Address, kind: EventType, length: nat)

  /** `closed` is the history of removed requests; `failed` tells that the loop ended with an exception. */
  datatype State = State(requests: map<Address, Request>, ring: multiset<Operation>, closed: seq<Request>, failed: bool)

  /** A completion: its result, the bytes a `recv` put into the buffer, and where the next request would be allocated.
      */
  datatype Completion = Completion(operation: Operation, result: int, bytes: seq<char>, next: Address)

  /** Lengths fit the buffer. */
  predicate Fits(r: Request) {
    |r.data| == BUFFER_SIZE && r.length <= BUFFER_SIZE
  }

  function NewRequest(): (r: Request)
    ensures Fits(r)
  {
    Request(-1, Accept, seq(BUFFER_SIZE, _ => '\0'), BUFFER_SIZE, [], [], 0)
  }

  /** The operation that the fields of a request describe. */
  function OperationOf(a: Address, r: Request): Operation {
    Operation(a, r.eventType, r.length)
  }

  /** Before the loop: one request, waiting for a client. */
  function Initial(a: Address): State {
    var r := NewRequest();
    State(map[a := r], multiset{OperationOf(a, r)}, [], false)
  }

  /** Completions the kernel can report. */
  predicate Possible(s: State, c: Completion) {
    && c.operation in s.ring && c.next !in s.requests
    && c.result <= (if c.operation.kind == Accept then c.result else c.operation.length)
    && (c.operation.kind == Recv ==> |c.bytes| == if c.result > 0 then c.result else 0)
  }

  /** `async_recv` and `async_send` after the fields have been set: the operation goes into the ring. */
  function Submitted(s: State, a: Address, r: Request, done: Operation): State {
    s.(requests := s.requests[a := r], ring := s.ring - multiset{done} + multiset{OperationOf(a, r)})
  }

  function Connected(r: Request, sock: int): Request {
    r.(clientSock := sock, eventType := Recv)
  }

  /** Bytes have come into the front of the buffer and are to be sent back. */
  function Filled(r: Request, bytes: seq<char>): Request
    requires |bytes| <= |r.data|
  {
    r.(data := bytes + r.data[|bytes|..], length := |bytes|, eventType := Send, received := r.received + bytes)
  }

  /** A send of `length` bytes has ended after `n`. */
  function Echoed(r: Request, n: nat): Request
    requires n <= r.length <= |r.data|
  {
    r.(length := |r.data|, eventType := Recv, echoed := r.echoed + r.data[..n], lost := r.lost + r.length - n)
  }

  function Added(s: State, a: Address, r: Request): State {
    s.(requests := s.requests[a := r], ring := s.ring + multiset{OperationOf(a, r)})
  }

  function Removed(s: State, a: Address): State
    requires a in s.requests
  {
    s.(requests := s.requests - {a}, ring := s.ring - multiset{OperationOf(a, s.requests[a])},
       closed := s.closed + [s.requests[a]])
  }

  /** A new client: `accept_client` allocates a request for the next one, and this one starts to receive. */
  function OnAccept(s: State, c: Completion, r: Request): State {
    if c.result < 0 then s.(failed := true)
    else Added(Submitted(s, c.operation.request, Connected(r, c.result), c.operation), c.next, NewRequest())
  }

  function OnRecv(s: State, c: Completion, r: Request): State
    requires |c.bytes| <= |r.data| && c.operation.request in s.requests
  {
    if c.result == 0 then Removed(s, c.operation.request)
    else if c.result < 0 then s.(failed := true)
    else Submitted(s, c.operation.request, Filled(r, c.bytes), c.operation)
  }

  /** The result of a send is not looked at: bytes that were not sent are lost. */
  function OnSend(s: State, c: Completion, r: Request): State
    requires c.result <= r.length <= |r.data|
  {
    Submitted(s, c.operation.request, Echoed(r, if c.result < 0 then 0 else c.result), c.operation)
  }

  /** One turn of the loop. It looks at the type in the request that the completion points to. */
  function Apply(s: State, c: Completion): State {
    if s.failed || !Possible(s, c) || c.operation.request !in s.requests then s
    else
      var r := s.requests[c.operation.request];
      if !Fits(r) || c.operation != OperationOf(c.operation.request, r) then s
      else
        match r.eventType
        case Accept => OnAccept(s, c, r)
        case Recv => OnRecv(s, c, r)
        case Send => OnSend(s, c, r)
  }

  function Run(s: State, completions: seq<Completion>): State {
    if completions == [] then s
    else Apply(Run(s, completions[..|completions| - 1]), completions[|completions| - 1])
  }

  // --- What every run keeps ---

  /** What was received is what came back, what the next send has still to bring, and what was lost. */
  predicate HistoryInv(r: Request)
    requires Fits(r)
  {
    var unsent := if r.eventType == Send then r.data[..r.length] else [];
    && |r.received| == |r.echoed| + |unsent| + r.lost
    && (r.lost == 0 ==> r.received == r.echoed + unsent)
  }

  /** The receive length is the full buffer whenever nothing is being sent. */
  predicate RequestInv(r: Request) {
    Fits(r) && (r.eventType != Send ==> r.length == BUFFER_SIZE) && HistoryInv(r)
  }

  predicate RequestsInv(s: State) {
    && (forall a | a in s.requests :: RequestInv(s.requests[a]))
    && (forall r | r in s.closed :: r.eventType == Recv && RequestInv(r))
  }

  /** The ring holds exactly one operation for every live request, the one its fields describe, and nothing else. */
  ghost predicate RingInv(s: State) {
    && (forall a | a in s.requests :: s.ring[OperationOf(a, s.requests[a])] == 1)
    && (forall o | o in s.ring :: o.request in s.requests && o == OperationOf(o.request, s.requests[o.request]))
  }

  /** Exactly one request waits for a new client. */
  ghost predicate OneAccept(s: State) {
    && (exists a :: a in s.requests && s.requests[a].eventType == Accept)
    && (forall a, b | a in s.requests && b in s.requests
          && s.requests[a].eventType == s.requests[b].eventType == Accept :: a == b)
  }

  ghost predicate Inv(s: State) {
    RequestsInv(s) && RingInv(s) && OneAccept(s)
  }

  lemma RecvKeepsRequest(r: Request, bytes: seq<char>)
    requires RequestInv(r) && r.eventType == Recv && 0 < |bytes| <= BUFFER_SIZE
    ensures RequestInv(Filled(r, bytes))
  {
    assert Filled(r, bytes).data[..|bytes|] == bytes;
    assert r.received + [] == r.received && r.echoed + [] == r.echoed;
  }

  lemma SendKeepsRequest(r: Request, n: nat)
    requires RequestInv(r) && r.eventType == Send && n <= r.length
    ensures RequestInv(Echoed(r, n))
  {
    assert r.echoed + r.data[..n] + [] == r.echoed + r.data[..n];
  }

  lemma SubmittedKeepsRing(s: State, a: Address, r: Request, done: Operation)
    requires RingInv(s) && a in s.requests && done == OperationOf(a, s.requests[a])
    ensures RingInv(Submitted(s, a, r, done))
  {
    var s' := Submitted(s, a, r, done);
    assert s.ring[done] == 1;
    forall b | b in s'.requests ensures s'.ring[OperationOf(b, s'.requests[b])] == 1 {
      if b == a {
        assert OperationOf(a, r) in s.ring ==> OperationOf(a, r) == done;
      }
    }
  }

  lemma AddedKeepsRing(s: State, a: Address, r: Request)
    requires RingInv(s) && a !in s.requests
    ensures RingInv(Added(s, a, r))
  {
    assert OperationOf(a, r) !in s.ring;
  }

  lemma RemovedKeepsRing(s: State, a: Address)
    requires RingInv(s) && a in s.requests
    ensures RingInv(Removed(s, a))
  {
  }

  lemma SubmittedKeepsRequests(s: State, a: Address, r: Request, done: Operation)
    requires RequestsInv(s) && RequestInv(r)
    ensures RequestsInv(Submitted(s, a, r, done))
  {
  }

  lemma AddedKeepsRequests(s: State, a: Address)
    requires RequestsInv(s)
    ensures RequestsInv(Added(s, a, NewRequest()))
  {
  }

  lemma NoneAccepts(s: State, a: Address, r: Request, done: Operation)
    requires OneAccept(s) && a in s.requests && s.requests[a].eventType == Accept && r.eventType != Accept
    ensures forall b | b in Submitted(s, a, r, done).requests ::
              Submitted(s, a, r, done).requests[b].eventType != Accept
  {
  }

  lemma OneAcceptMoves(s: State, next: Address)
    requires forall a | a in s.requests :: s.requests[a].eventType != Accept
    ensures OneAccept(Added(s, next, NewRequest()))
  {
    assert Added(s, next, NewRequest()).requests[next].eventType == Accept;
  }

  lemma AcceptKeepsInv(s: State, a: Address, sock: int, next: Address)
    requires Inv(s) && a in s.requests && s.requests[a].eventType == Accept && next !in s.requests
    ensures Inv(Added(Submitted(s, a, Connected(s.requests[a], sock), OperationOf(a, s.requests[a])), next,
                      NewRequest()))
  {
    var r, done := Connected(s.requests[a], sock), OperationOf(a, s.requests[a]);
    var s1 := Submitted(s, a, r, done);
    assert RequestsInv(s1) && RingInv(s1) by {
      SubmittedKeepsRequests(s, a, r, done);
      SubmittedKeepsRing(s, a, r, done);
    }
    assert OneAccept(Added(s1, next, NewRequest())) by {
      NoneAccepts(s, a, r, done);
      OneAcceptMoves(s1, next);
    }
    AddedKeepsRequests(s1, next);
    AddedKeepsRing(s1, next, NewRequest());
  }

  /** A change from `recv` to `send` or back does not touch the one request that waits for a client. */
  lemma OtherKeepsOneAccept(s: State, a: Address, r: Request, done: Operation)
    requires OneAccept(s) && a in s.requests && s.requests[a].eventType != Accept && r.eventType != Accept
    ensures OneAccept(Submitted(s, a, r, done))
  {
    var b :| b in s.requests && s.requests[b].eventType == Accept;
    assert Submitted(s, a, r, done).requests[b] == s.requests[b];
  }

  lemma SubmittedKeepsInv(s: State, a: Address, r: Request)
    requires Inv(s) && a in s.requests && s.requests[a].eventType != Accept && r.eventType != Accept && RequestInv(r)
    ensures Inv(Submitted(s, a, r, OperationOf(a, s.requests[a])))
  {
    var done := OperationOf(a, s.requests[a]);
    SubmittedKeepsRequests(s, a, r, done);
    SubmittedKeepsRing(s, a, r, done);
    OtherKeepsOneAccept(s, a, r, done);
  }

  lemma RemovedKeepsInv(s: State, a: Address)
    requires Inv(s) && a in s.requests && s.requests[a].eventType == Recv
    ensures Inv(Removed(s, a))
  {
    RemovedKeepsRing(s, a);
    assert OneAccept(Removed(s, a)) by {
      var b :| b in s.requests && s.requests[b].eventType == Accept;
      assert b in Removed(s, a).requests;
    }
  }

  lemma StepKeepsInv(s: State, c: Completion)
    requires Inv(s)
    ensures Inv(Apply(s, c))
  {
    if Possible(s, c) && !s.failed {
      var a := c.operation.request;
      var r := s.requests[a];
      match c.operation.kind
      case Accept =>
        if c.result >= 0 {
          AcceptKeepsInv(s, a, c.result, c.next);
        }
      case Recv =>
        if c.result == 0 {
          RemovedKeepsInv(s, a);
        } else if c.result > 0 {
          RecvKeepsRequest(r, c.bytes);
          SubmittedKeepsInv(s, a, Filled(r, c.bytes));
        }
      case Send =>
        var n := if c.result < 0 then 0 else c.result;
        SendKeepsRequest(r, n);
        SubmittedKeepsInv(s, a, Echoed(r, n));
    }
  }

  lemma {:induction false} RunKeepsInv(a: Address, completions: seq<Completion>)
    ensures Inv(Run(Initial(a), completions))
  {
    if completions == [] {
      assert Initial(a).requests[a].eventType == Accept;
    } else {
      RunKeepsInv(a, completions[..|completions| - 1]);
      StepKeepsInv(Run(Initial(a), completions[..|completions| - 1]), completions[|completions| - 1]);
    }
  }

  // --- What it means for the server ---

  /** In every run each completion refers to a live request, whose type and length are those the kernel was given. */
  lemma CompletionsAreLive(a: Address, completions: seq<Completion>, c: Completion)
    requires Possible(Run(Initial(a), completions), c)
    ensures var s := Run(Initial(a), completions);
            var r := c.operation.request;
            && r in s.requests && Fits(s.requests[r])
            && c.operation.kind == s.requests[r].eventType && c.operation.length == s.requests[r].length
            && (c.operation.kind == Recv ==> c.operation.length == BUFFER_SIZE)
            && s.ring[c.operation] == 1
            && forall o | o in s.ring && o.request == r :: o == c.operation
  {
    RunKeepsInv(a, completions);
  }

  lemma OneFewer(s: State, a: Address)
    requires RingInv(s) && a in s.requests
    ensures |Removed(s, a).ring| == |s.ring| - 1 && |Removed(s, a).requests| == |s.requests| - 1
  {
    assert s.ring[OperationOf(a, s.requests[a])] == 1;
    assert s.requests.Keys == Removed(s, a).requests.Keys + {a};
  }

  lemma {:induction false} RingSize(s: State)
    requires RingInv(s)
    ensures |s.ring| == |s.requests|
    decreases |s.requests|
  {
    if s.requests == map[] {
      assert s.ring == multiset{};
    } else {
      var a :| a in s.requests;
      RemovedKeepsRing(s, a);
      OneFewer(s, a);
      RingSize(Removed(s, a));
    }
  }

  /** In every run there are as many operations in flight as live requests, and exactly one accepts. */
  lemma OneOperationEach(a: Address, completions: seq<Completion>)
    ensures var s := Run(Initial(a), completions);
            && |s.ring| == |s.requests|
            && exists o :: o in s.ring && o.kind == Accept && forall o' | o' in s.ring && o'.kind == Accept :: o' == o
  {
    var s := Run(Initial(a), completions);
    RunKeepsInv(a, completions);
    RingSize(s);
    var b :| b in s.requests && s.requests[b].eventType == Accept;
    assert OperationOf(b, s.requests[b]) in s.ring;
  }

  /** A completion that the loop takes up. */
  predicate Taken(s: State, c: Completion) {
    !s.failed && Possible(s, c)
  }

  /** The result of the last `accept` that completed for the request at `at` since it was allocated. */
  function AcceptedSocket(a: Address, completions: seq<Completion>, at: Address): Option<int> {
    if completions == [] then None
    else
      var (init, c) := (completions[..|completions| - 1], completions[|completions| - 1]);
      if !Taken(Run(Initial(a), init), c) || c.operation.kind != Accept then AcceptedSocket(a, init, at)
      else if c.operation.request == at then Some(c.result)
      else if c.next == at && c.result >= 0 then None
      else AcceptedSocket(a, init, at)
  }

  lemma AcceptAndSocket(s: State, c: Completion, at: Address)
    requires Inv(s) && Taken(s, c) && c.operation.kind == Accept && c.result >= 0 && at in Apply(s, c).requests
    ensures var r := Apply(s, c).requests[at];
            if c.operation.request == at then r.eventType != Accept && r.clientSock == c.result
            else if c.next == at then r.eventType == Accept
            else at in s.requests && r == s.requests[at]
  {
    assert c.operation.request in s.requests;
  }

  lemma OtherAndSocket(s: State, c: Completion, at: Address)
    requires Inv(s) && !(Taken(s, c) && c.operation.kind == Accept) && at in Apply(s, c).requests
    ensures at in s.requests
    ensures var r := Apply(s, c).requests[at];
            r.clientSock == s.requests[at].clientSock && (r.eventType == Accept <==> s.requests[at].eventType == Accept)
  {
    if Taken(s, c) {
      assert c.operation.request in s.requests;
      assert RequestInv(s.requests[c.operation.request]);
    }
  }

  lemma TurnAndFailure(s: State, c: Completion)
    requires Inv(s)
    ensures Apply(s, c).failed <==> s.failed || (Taken(s, c) && c.operation.kind != Send && c.result < 0)
  {
    if Taken(s, c) {
      assert c.operation.request in s.requests;
      assert RequestInv(s.requests[c.operation.request]);
    }
  }

  lemma FailedStays(s: State, c: Completion)
    requires s.failed
    ensures Apply(s, c) == s
  {
  }

  /** As long as the loop runs, a request serves a client exactly if an `accept` has completed for it since it was
      allocated, and it keeps the socket which that gave. */
  lemma {:induction false} SocketIsAccepted(a: Address, completions: seq<Completion>, at: Address)
    requires var s := Run(Initial(a), completions); at in s.requests && !s.failed
    ensures var r := Run(Initial(a), completions).requests[at];
            AcceptedSocket(a, completions, at) == if r.eventType == Accept then None else Some(r.clientSock)
    decreases |completions|
  {
    if completions != [] {
      var (init, c) := (completions[..|completions| - 1], completions[|completions| - 1]);
      var s := Run(Initial(a), init);
      RunKeepsInv(a, init);
      if s.failed {
        FailedStays(s, c);
      }
      TurnAndFailure(s, c);
      if Taken(s, c) && c.operation.kind == Accept {
        AcceptAndSocket(s, c, at);
      } else {
        OtherAndSocket(s, c, at);
      }
      if at in s.requests {
        SocketIsAccepted(a, init, at);
      }
    }
  }

  /** Some `accept` or `recv` of the run reported an error. */
  predicate SomeError(a: Address, completions: seq<Completion>) {
    completions != []
    && var (init, c) := (completions[..|completions| - 1], completions[|completions| - 1]);
       SomeError(a, init) || (Taken(Run(Initial(a), init), c) && c.operation.kind != Send && c.result < 0)
  }

  /** The loop ends exactly when an `accept` or a `recv` reports an error. */
  lemma {:induction false} FailedIff(a: Address, completions: seq<Completion>)
    ensures Run(Initial(a), completions).failed <==> SomeError(a, completions)
    decreases |completions|
  {
    if completions != [] {
      var (init, c) := (completions[..|completions| - 1], completions[|completions| - 1]);
      RunKeepsInv(a, init);
      FailedIff(a, init);
      TurnAndFailure(Run(Initial(a), init), c);
    }
  }

  // --- Which runs echo everything ---

  /** What a client has not got back yet. */
  function Unsent(r: Request): seq<char>
    requires Fits(r)
  {
    if r.eventType == Send then r.data[..r.length] else []
  }

  /** The client got back everything it sent, up to what is being sent. */
  predicate Whole(r: Request)
    requires Fits(r)
  {
    r.received == r.echoed + Unsent(r)
  }

  /** From the ledger to the bytes. */
  lemma EchoIff(a: Address, completions: seq<Completion>, r: Request)
    requires var s := Run(Initial(a), completions); r in s.closed || r in s.requests.Values
    ensures Fits(r) && (Whole(r) <==> r.lost == 0)
  {
    RunKeepsInv(a, completions);
  }

  /** A send that brought fewer bytes than it was given, or failed. */
  predicate Short(c: Completion) {
    c.operation.kind == Send && (if c.result < 0 then 0 else c.result) < c.operation.length
  }

  /** Some completion of the run was a short send. */
  predicate SomeShort(a: Address, completions: seq<Completion>) {
    completions != []
    && var (init, c) := (completions[..|completions| - 1], completions[|completions| - 1]);
       SomeShort(a, init) || (Taken(Run(Initial(a), init), c) && Short(c))
  }

  /** Some completion since the request at `at` was allocated was a short send to it. */
  predicate ShortTo(a: Address, completions: seq<Completion>, at: Address) {
    completions != []
    && var (init, c) := (completions[..|completions| - 1], completions[|completions| - 1]);
       if !Taken(Run(Initial(a), init), c) then ShortTo(a, init, at)
       else if c.operation.request == at then ShortTo(a, init, at) || Short(c)
       else if c.operation.kind == Accept && c.next == at then false
       else ShortTo(a, init, at)
  }

  predicate NothingLost(s: State) {
    && (forall a | a in s.requests :: s.requests[a].lost == 0)
    && (forall r | r in s.closed :: r.lost == 0)
  }

  /** What a turn of the loop does to the ledger of a request that is live afterwards. */
  lemma TurnAndLost(s: State, c: Completion, at: Address)
    requires Inv(s) && at in Apply(s, c).requests
    ensures var lost := Apply(s, c).requests[at].lost;
            if !Taken(s, c) then at in s.requests && lost == s.requests[at].lost
            else if c.operation.request == at then
              at in s.requests && (lost > 0 <==> s.requests[at].lost > 0 || Short(c))
            else if c.operation.kind == Accept && c.next == at then lost == 0
            else at in s.requests && lost == s.requests[at].lost
  {
    if Taken(s, c) {
      assert c.operation.request in s.requests;
      assert RequestInv(s.requests[c.operation.request]);
    }
  }

  /** In every run a live client has lost bytes if and only if a send to it was short. */
  lemma {:induction false} LostIff(a: Address, completions: seq<Completion>, at: Address)
    requires at in Run(Initial(a), completions).requests
    ensures Run(Initial(a), completions).requests[at].lost > 0 <==> ShortTo(a, completions, at)
    decreases |completions|
  {
    if completions != [] {
      var (init, c) := (completions[..|completions| - 1], completions[|completions| - 1]);
      var s := Run(Initial(a), init);
      RunKeepsInv(a, init);
      TurnAndLost(s, c, at);
      if at in s.requests {
        LostIff(a, init, at);
      }
    }
  }

  /** In every run a live client got back what it sent, up to what is being sent, if and only if no completion since
      it was accepted was a short send to it. */
  lemma WholeIff(a: Address, completions: seq<Completion>, at: Address)
    requires at in Run(Initial(a), completions).requests
    ensures var r := Run(Initial(a), completions).requests[at];
            Fits(r) && (Whole(r) <==> !ShortTo(a, completions, at))
  {
    EchoIff(a, completions, Run(Initial(a), completions).requests[at]);
    LostIff(a, completions, at);
  }

  lemma LeavesAsItWas(s: State, c: Completion)
    requires Inv(s) && Taken(s, c) && c.operation.kind == Recv && c.result == 0
    ensures Apply(s, c).closed == s.closed + [s.requests[c.operation.request]]
  {
  }

  /** In every run a client that leaves (its read brings nothing) is recorded with all it sent given back if and only if
      no completion since it was accepted was a short send to it. */
  lemma DepartedWholeIff(a: Address, completions: seq<Completion>, c: Completion)
    requires Taken(Run(Initial(a), completions), c) && c.operation.kind == Recv && c.result == 0
    ensures var closed := Run(Initial(a), completions).closed;
            var closed' := Apply(Run(Initial(a), completions), c).closed;
            && |closed'| == |closed| + 1 && closed'[..|closed|] == closed
            && Fits(closed'[|closed|])
            && (Whole(closed'[|closed|]) <==> !ShortTo(a, completions, c.operation.request))
  {
    RunKeepsInv(a, completions);
    LeavesAsItWas(Run(Initial(a), completions), c);
    WholeIff(a, completions, c.operation.request);
  }

  lemma SubmittedLoses(s: State, a: Address, r: Request, done: Operation)
    requires a in s.requests && (r.lost == 0 ==> s.requests[a].lost == 0)
    ensures NothingLost(Submitted(s, a, r, done)) <==> NothingLost(s) && r.lost == 0
  {
    var s' := Submitted(s, a, r, done);
    assert s'.requests[a] == r;
    assert forall b | b in s.requests && b != a :: s'.requests[b] == s.requests[b];
  }

  lemma AddedLoses(s: State, a: Address)
    requires a !in s.requests
    ensures NothingLost(Added(s, a, NewRequest())) <==> NothingLost(s)
  {
    assert forall b | b in s.requests :: Added(s, a, NewRequest()).requests[b] == s.requests[b];
  }

  lemma RemovedLoses(s: State, a: Address)
    requires a in s.requests
    ensures NothingLost(Removed(s, a)) <==> NothingLost(s)
  {
    var s' := Removed(s, a);
    assert s'.closed[|s.closed|] == s.requests[a];
    assert forall r | r in s.closed :: r in s'.closed;
    assert forall b | b in s.requests && b != a :: b in s'.requests && s'.requests[b] == s.requests[b];
  }

  lemma RecvTurn(s: State, c: Completion)
    requires Inv(s) && Taken(s, c) && c.operation.kind == Recv && c.result > 0
    ensures var at := c.operation.request;
            && at in s.requests && |c.bytes| <= |s.requests[at].data|
            && Apply(s, c) == Submitted(s, at, Filled(s.requests[at], c.bytes), c.operation)
  {
  }

  lemma SendTurn(s: State, c: Completion)
    requires Inv(s) && Taken(s, c) && c.operation.kind == Send
    ensures var (at, n) := (c.operation.request, if c.result < 0 then 0 else c.result);
            && at in s.requests && n <= s.requests[at].length <= |s.requests[at].data|
            && Apply(s, c) == Submitted(s, at, Echoed(s.requests[at], n), c.operation)
  {
  }

  lemma TurnLosesIff(s: State, c: Completion)
    requires Inv(s)
    ensures NothingLost(Apply(s, c)) <==> NothingLost(s) && !(Taken(s, c) && Short(c))
  {
    if Taken(s, c) {
      var at := c.operation.request;
      var r := s.requests[at];
      match c.operation.kind
      case Accept =>
        if c.result >= 0 {
          SubmittedLoses(s, at, Connected(r, c.result), c.operation);
          AddedLoses(Submitted(s, at, Connected(r, c.result), c.operation), c.next);
        }
      case Recv =>
        if c.result == 0 {
          RemovedLoses(s, at);
        } else if c.result > 0 {
          RecvTurn(s, c);
          SubmittedLoses(s, at, Filled(r, c.bytes), c.operation);
        }
      case Send =>
        SendTurn(s, c);
        SubmittedLoses(s, at, Echoed(r, if c.result < 0 then 0 else c.result), c.operation);
    }
  }

  lemma {:induction false} NothingLostIff(a: Address, completions: seq<Completion>)
    ensures NothingLost(Run(Initial(a), completions)) <==> !SomeShort(a, completions)
    decreases |completions|
  {
    if completions != [] {
      var (init, c) := (completions[..|completions| - 1], completions[|completions| - 1]);
      RunKeepsInv(a, init);
      NothingLostIff(a, init);
      TurnLosesIff(Run(Initial(a), init), c);
    }
  }

  ghost predicate AllWhole(s: State) {
    && (forall a | a in s.requests :: Fits(s.requests[a]) && Whole(s.requests[a]))
    && (forall r | r in s.closed :: Fits(r) && Whole(r))
  }

  /** In every run all clients, connected or gone, got back what they sent, up to what is being sent, if and only if no
      completion of the run was a short send. */
  lemma EchoesAllIff(a: Address, completions: seq<Completion>)
    ensures AllWhole(Run(Initial(a), completions)) <==> !SomeShort(a, completions)
  {
    var s := Run(Initial(a), completions);
    NothingLostIff(a, completions);
    forall r | r in s.closed || r in s.requests.Values ensures Fits(r) && (Whole(r) <==> r.lost == 0) {
      EchoIff(a, completions, r);
    }
    assert forall b | b in s.requests :: s.requests[b] in s.requests.Values;
  }

  lemma RunOneMore(s: State, completions: seq<Completion>, c: Completion, longer: seq<Completion>)
    requires longer == completions + [c]
    ensures Run(s, longer) == Apply(Run(s, completions), c)
  {
    assert longer[..|longer| - 1] == completions;
  }

  lemma FilledAndEchoed(r: Request, bytes: seq<char>, n: nat)
    requires n <= |bytes| <= |r.data| && r.received == r.echoed == []
    ensures Echoed(Filled(r, bytes), n).received == bytes && Echoed(Filled(r, bytes), n).echoed == bytes[..n]
  {
    assert Filled(r, bytes).data[..n] == bytes[..n];
  }

  /** A connected client sends some bytes, and the answer is short. */
  lemma ShortTurns(s: State, a: Address, bytes: seq<char>, n: nat, c2: Completion, c3: Completion)
    requires Inv(s) && !s.failed && a in s.requests && s.requests[a].eventType == Recv && s.requests[a].received == []
    requires n < |bytes| <= BUFFER_SIZE && c2.next !in s.requests && c3.next !in s.requests
    requires c2.operation == Operation(a, Recv, BUFFER_SIZE) && c2.result == |bytes| && c2.bytes == bytes
    requires c3.operation == Operation(a, Send, |bytes|) && c3.result == n
    ensures var s' := Apply(Apply(s, c2), c3);
            && a in s'.requests && s'.requests[a].eventType == Recv
            && s'.requests[a].received == bytes && s'.requests[a].echoed == bytes[..n]
    ensures Taken(Apply(s, c2), c3) && Short(c3)
  {
    assert RequestInv(s.requests[a]) && OperationOf(a, s.requests[a]) in s.ring;
    RecvTurn(s, c2);
    StepKeepsInv(s, c2);
    var s2 := Apply(s, c2);
    assert s2.requests[a] == Filled(s.requests[a], bytes) && OperationOf(a, s2.requests[a]) in s2.ring;
    SendTurn(s2, c3);
    FilledAndEchoed(s.requests[a], bytes, n);
  }

  function ShortRun(a: Address, bytes: seq<char>, n: nat): (r: seq<Completion>)
    ensures |r| == 3
  {
    [Completion(Operation(a, Accept, BUFFER_SIZE), 1, [], a + 1),
     Completion(Operation(a, Recv, BUFFER_SIZE), |bytes|, bytes, a + 2),
     Completion(Operation(a, Send, |bytes|), n, [], a + 2)]
  }

  lemma AcceptTurn(a: Address, c: Completion)
    requires c.operation == Operation(a, Accept, BUFFER_SIZE) && c.result >= 0 && c.next != a
    ensures var s := Apply(Initial(a), c);
            && s.requests.Keys == {a, c.next} && s.requests[a] == Connected(NewRequest(), c.result)
            && !s.failed && Operation(a, Recv, BUFFER_SIZE) in s.ring
  {
  }

  /** A run with a short send: a client sends some bytes and only the first `n` come back. */
  lemma ShortSendLoses(a: Address, bytes: seq<char>, n: nat)
    requires n < |bytes| <= BUFFER_SIZE
    ensures var s := Run(Initial(a), ShortRun(a, bytes, n));
            && a in s.requests && s.requests[a].eventType == Recv
            && s.requests[a].received == bytes && s.requests[a].echoed == bytes[..n]
    ensures ShortTo(a, ShortRun(a, bytes, n), a)
  {
    var run := ShortRun(a, bytes, n);
    RunKeepsInv(a, [run[0]]);
    RunOneMore(Initial(a), [], run[0], [run[0]]);
    RunOneMore(Initial(a), [run[0]], run[1], [run[0], run[1]]);
    RunOneMore(Initial(a), [run[0], run[1]], run[2], run);
    AcceptTurn(a, run[0]);
    ShortTurns(Run(Initial(a), [run[0]]), a, bytes, n, run[1], run[2]);
    assert run == [run[0], run[1], run[2]] && run[..2] == [run[0], run[1]];
  }
}
