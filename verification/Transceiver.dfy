/** The ring buffer of the select server (`Transceiver` in `select_aio_server/main.cpp`) and one client's share of
    `SelectProcessor::run_step`. One slot stays empty, so that equal indices mean an empty buffer. */
module Transceiver {

  type Byte = b: int | 0 <= b < 256

  datatype IOStatus = Ok | NoData | Error | Finished

  /** What a `send` or `read` ends with once it is not to be repeated: an error, or some number of bytes. The number is
      `wish` as far as the call allows it. */
  datatype Outcome = Fails | Moves(wish: nat)

  type Positive = n: nat | n > 0 witness 1

  function AtMost(wish: nat, limit: nat): (n: nat)
    ensures n <= limit && n <= wish && (n == wish || n == limit)
  {
    if wish <= limit then wish else limit
  }

  /** The number of bytes `read` gets from a file with `left` bytes to go: none only at its end. */
  function Readable(wish: nat, size: nat, left: nat): (n: nat)
    requires size > 0
    ensures n <= size && n <= left && (n == 0 <==> left == 0)
  {
    AtMost(if wish == 0 then 1 else wish, AtMost(size, left))
  }

  // --- The window of a ring ---

  function WindowSize(size: nat, from: nat, to: nat): (n: nat)
    requires from < size && to < size
    ensures n < size && (n == 0 <==> from == to)
  {
    if from <= to then to - from else size - from + to
  }

  function Window(ring: seq<Byte>, from: nat, to: nat): (held: seq<Byte>)
    requires from < |ring| && to < |ring|
    ensures |held| == WindowSize(|ring|, from, to)
  {
    if from <= to then ring[from..to] else ring[from..] + ring[..to]
  }

  lemma Wrap(i: nat, size: nat)
    requires 0 < size && i <= size
    ensures i % size == if i < size then i else 0
  {
  }

  lemma DropFront(front: seq<Byte>, back: seq<Byte>, n: nat)
    requires n <= |front|
    ensures (front + back)[..n] == front[..n] && (front + back)[n..] == front[n..] + back
  {
  }

  lemma WindowDrop(ring: seq<Byte>, from: nat, to: nat, n: nat)
    requires from < |ring| && to < |ring| && n <= (if from > to then |ring| else to) - from
    ensures Window(ring, from, to)[..n] == ring[from..from + n]
    ensures Window(ring, (from + n) % |ring|, to) == Window(ring, from, to)[n..]
  {
    Wrap(from + n, |ring|);
    if from <= to {
      assert ring[from..to][..n] == ring[from..from + n] && ring[from..to][n..] == ring[from + n..to];
    } else {
      DropFront(ring[from..], ring[..to], n);
      assert ring[from..][..n] == ring[from..from + n] && ring[from..][n..] == ring[from + n..];
    }
  }

  /** Free slots behind `to` up to the end of the ring or the slot before `from`. */
  function Room(size: nat, from: nat, to: nat): (n: nat)
    requires from < size && to < size
  {
    (if from <= to then size - (if from == 0 then 1 else 0) else from - 1) - to
  }

  lemma WindowPush(before: seq<Byte>, after: seq<Byte>, from: nat, to: nat, n: nat)
    requires |before| == |after| && from < |before| && to < |before| && n <= Room(|before|, from, to)
    requires forall i | 0 <= i < |before| && !(to <= i < to + n) :: after[i] == before[i]
    ensures Window(after, from, (to + n) % |after|) == Window(before, from, to) + after[to..to + n]
  {
    Wrap(to + n, |before|);
  }

  // --- A client's progress, by indices and counts alone ---

  /** What a round finds at the client's socket: nothing to read, or a request, a stray byte or the end of what the
      client sends; `names` says whether the text read then names a file that can be opened. */
  datatype Input = Silent | Arrived(names: bool)

  datatype Progress = Progress(sendIndex: nat, readIndex: nat, readFinished: bool, sentSize: nat, offset: nat)

  /** How many bytes the next `send` is given. */
  function ToSend(size: nat, from: nat, to: nat): (n: nat)
    requires from < size && to < size
    ensures n <= WindowSize(size, from, to) && (n == 0 <==> from == to)
  {
    (if from > to then size else to) - from
  }

  predicate Sane(size: nat, fileSize: nat, p: Progress) {
    && p.sendIndex < size && p.readIndex < size
    && p.sentSize + WindowSize(size, p.sendIndex, p.readIndex) == p.offset <= fileSize
    && (p.readFinished ==> p.offset == fileSize)
  }

  function AfterSend(size: nat, p: Progress, wish: nat): (p': Progress)
    requires p.sendIndex < size && p.readIndex < size
  {
    var n := AtMost(wish, ToSend(size, p.sendIndex, p.readIndex));
    p.(sendIndex := (p.sendIndex + n) % size, sentSize := p.sentSize + n)
  }

  function AfterRead(size: nat, fileSize: nat, p: Progress, wish: nat): (p': Progress)
    requires p.sendIndex < size && p.readIndex < size && p.offset <= fileSize
  {
    var room := Room(size, p.sendIndex, p.readIndex);
    if p.readFinished || room == 0 then p
    else
      var n := Readable(wish, room, fileSize - p.offset);
      if n == 0 then p.(readFinished := true)
      else p.(readIndex := (p.readIndex + n) % size, offset := p.offset + n)
  }

  function Remaining(fileSize: nat, p: Progress): int {
    2 * fileSize - p.sentSize - p.offset + if p.readFinished then 0 else 1
  }

  lemma SendIsSane(size: nat, fileSize: nat, p: Progress, wish: nat)
    requires Sane(size, fileSize, p)
    ensures var p' := AfterSend(size, p, wish);
            Sane(size, fileSize, p') && p'.offset == p.offset && p'.readFinished == p.readFinished
    ensures p.sentSize <= AfterSend(size, p, wish).sentSize <= p.offset
    ensures wish > 0 && p.sendIndex != p.readIndex ==> AfterSend(size, p, wish).sentSize > p.sentSize
  {
    Wrap(p.sendIndex + AtMost(wish, ToSend(size, p.sendIndex, p.readIndex)), size);
  }

  lemma NothingSent(size: nat, p: Progress, wish: nat)
    requires p.sendIndex < size && p.readIndex < size
    requires AtMost(wish, ToSend(size, p.sendIndex, p.readIndex)) == 0
    ensures AfterSend(size, p, wish) == p
  {
    Wrap(p.sendIndex, size);
  }

  lemma ReadIsSane(size: nat, fileSize: nat, p: Progress, wish: nat)
    requires Sane(size, fileSize, p)
    ensures var p' := AfterRead(size, fileSize, p, wish); Sane(size, fileSize, p') && p'.sentSize == p.sentSize
    ensures var p' := AfterRead(size, fileSize, p, wish); Remaining(fileSize, p') <= Remaining(fileSize, p)
    ensures var p' := AfterRead(size, fileSize, p, wish);
            !p.readFinished && Room(size, p.sendIndex, p.readIndex) > 0
            ==> Remaining(fileSize, p') < Remaining(fileSize, p)
  {
    var room := Room(size, p.sendIndex, p.readIndex);
    if !p.readFinished && room > 0 {
      Wrap(p.readIndex + Readable(wish, room, fileSize - p.offset), size);
    }
  }

  // --- One client's part of a round of `run_step` ---

  /** What `select` found for a client: an error of the socket or the file, and which of them are ready. The outcomes
      are those of the calls that the client makes. */
  datatype Ready = Ready(failing: bool, input: Input, writable: bool, sending: Outcome,
                         readable: bool, reading: Outcome)

  /** The client is dropped before anything is sent: something is to be read from the socket, and it does not open the
      client's first file. */
  predicate Refused(hasFile: bool, r: Ready) {
    r.failing || (r.input.Arrived? && (hasFile || !r.input.names))
  }

  function AfterWriting(size: nat, p: Progress, r: Ready): Progress
    requires p.sendIndex < size && p.readIndex < size
  {
    if r.writable && r.sending.Moves? then AfterSend(size, p, r.sending.wish) else p
  }

  function AfterReading(size: nat, fileSize: nat, p: Progress, r: Ready): Progress
    requires p.sendIndex < size && p.readIndex < size && p.offset <= fileSize
  {
    if r.readable && r.reading.Moves? then AfterRead(size, fileSize, p, r.reading.wish) else p
  }

  /** The client is dropped by its send: it fails, or none of the file is left to be read and nothing was sent. */
  predicate LeavesSending(p: Progress, r: Ready) {
    && r.writable
    && if p.sendIndex == p.readIndex then p.readFinished
       else r.sending.Fails? || (p.readFinished && r.sending.wish == 0)
  }

  /** The client is dropped by its read, which fails with room in the buffer. */
  predicate LeavesReading(size: nat, p: Progress, r: Ready)
    requires p.sendIndex < size && p.readIndex < size
  {
    r.readable && r.reading.Fails? && Room(size, p.sendIndex, p.readIndex) > 0
  }

  /** The whole file was sent, and its end was noted. */
  predicate Done(p: Progress) {
    p.readFinished && p.sendIndex == p.readIndex
  }

  /** A round in which every descriptor is ready and nothing arrives on the socket. */
  function QuietRound(size: nat, fileSize: nat, p: Progress, sendWish: nat, readWish: nat): (p': Progress)
    requires Sane(size, fileSize, p)
    ensures Sane(size, fileSize, p') && p.sentSize <= p'.sentSize <= p.offset
    ensures size >= 2 && sendWish > 0 && !Done(p) ==> Remaining(fileSize, p') < Remaining(fileSize, p)
    ensures p.readFinished ==> p'.readFinished
  {
    SendIsSane(size, fileSize, p, sendWish);
    ReadIsSane(size, fileSize, AfterSend(size, p, sendWish), readWish);
    AfterRead(size, fileSize, AfterSend(size, p, sendWish), readWish)
  }

  /** Bytes are still to be sent, and the socket is still watched for reading. */
  predicate Exposed(fileSize: nat, p: Progress) {
    !p.readFinished && p.sentSize < fileSize
  }

  /** The number of rounds that begin so, if nothing arrives: until the end of the file is noted or its last byte
      sent. */
  function ExposedRounds(size: nat, fileSize: nat, p: Progress, sendSizes: nat -> Positive, readSizes: nat -> nat,
                         i: nat): (n: nat)
    requires size >= 2 && Sane(size, fileSize, p)
    ensures n > 0 <==> Exposed(fileSize, p)
    decreases Remaining(fileSize, p)
  {
    if !Exposed(fileSize, p) then 0
    else
      1 + ExposedRounds(size, fileSize, QuietRound(size, fileSize, p, sendSizes(i), readSizes(i)),
                        sendSizes, readSizes, i + 1)
  }

  /** How far a client gets that is always ready, when `socket` says what each round finds there. */
  function Served(size: nat, fileSize: nat, p: Progress, socket: nat -> Input, sendSizes: nat -> Positive,
                  readSizes: nat -> nat, i: nat): (p': Progress)
    requires size >= 2 && Sane(size, fileSize, p)
    ensures p.sentSize <= p'.sentSize
    decreases Remaining(fileSize, p)
  {
    if Done(p) || (!p.readFinished && socket(i).Arrived?) then p
    else
      Served(size, fileSize, QuietRound(size, fileSize, p, sendSizes(i), readSizes(i)),
             socket, sendSizes, readSizes, i + 1)
  }

  predicate SilentFor(socket: nat -> Input, i: nat, rounds: nat) {
    forall k | i <= k < i + rounds :: socket(k).Silent?
  }

  lemma SilentLonger(socket: nat -> Input, i: nat, rounds: nat)
    ensures SilentFor(socket, i, 1 + rounds) <==> socket(i).Silent? && SilentFor(socket, i + 1, rounds)
  {
  }

  /** It gets as far as the end of the file exactly if nothing arrives in the rounds in which it is exposed. */
  lemma {:induction false} ServedWholeIff(size: nat, fileSize: nat, p: Progress, socket: nat -> Input,
                                          sendSizes: nat -> Positive, readSizes: nat -> nat, i: nat)
    requires size >= 2 && Sane(size, fileSize, p)
    ensures Served(size, fileSize, p, socket, sendSizes, readSizes, i).sentSize == fileSize
       <==> SilentFor(socket, i, ExposedRounds(size, fileSize, p, sendSizes, readSizes, i))
    decreases Remaining(fileSize, p)
  {
    if !Done(p) && (p.readFinished || socket(i).Silent?) {
      var p' := QuietRound(size, fileSize, p, sendSizes(i), readSizes(i));
      ServedWholeIff(size, fileSize, p', socket, sendSizes, readSizes, i + 1);
      SilentLonger(socket, i, ExposedRounds(size, fileSize, p', sendSizes, readSizes, i + 1));
    }
  }

  class Transceiver {
    const buffer: array<Byte>
    var readIndex: nat
    var sendIndex: nat
    var readFinished: bool
    var sentSize: nat
    /** The kernel's side of the file descriptor: the file, whether it is open and how far it has been read. */
    const file: seq<Byte>
    var fileOpened: bool
    var offset: nat
    /** What the socket has taken so far, and the bytes read but not sent. */
    ghost var sent: seq<Byte>
    ghost var held: seq<Byte>

    ghost predicate InRange()
      reads this
    {
      readIndex < buffer.Length && sendIndex < buffer.Length
    }

    ghost predicate Valid()
      reads this, buffer
    {
      && InRange()
      && held == Window(buffer[..], sendIndex, readIndex)
      && offset <= |file| && sent + held == file[..offset]
      && sentSize == |sent|
      && (readFinished ==> offset == |file|)
    }

    ghost function Now(): Progress
      reads this
    {
      Progress(sendIndex, readIndex, readFinished, sentSize, offset)
    }

    /** A new client, which is going to ask for `file`. */
    constructor (size: nat, file: seq<Byte>)
      requires size > 0
      ensures Valid() && fresh(buffer) && buffer.Length == size && this.file == file && !fileOpened
      ensures sent == [] && offset == 0 && held == [] && !readFinished
    {
      buffer := new Byte[size];
      readIndex, sendIndex, readFinished, sentSize := 0, 0, false, 0;
      this.file, fileOpened, offset := file, false, 0;
      sent, held := [], [];
    }

    /** How many bytes the next `send` is given: some unless nothing is held. */
    function SendRequest(): (n: nat)
      requires Valid()
      reads this, buffer
      ensures n <= |held| && (n == 0 <==> held == [])
    {
      ToSend(buffer.Length, sendIndex, readIndex)
    }

    /** How many bytes the next `read` asks for: none exactly when all slots but one are taken. */
    function ReadRequest(): (n: nat)
      requires Valid()
      reads this, buffer
      ensures n < buffer.Length - |held| && (n == 0 <==> |held| == buffer.Length - 1)
    {
      Room(buffer.Length, sendIndex, readIndex)
    }

    /** `send_buffer` after the socket took `n` bytes. */
    method Taken(n: nat, ghost wish: nat)
      requires Valid() && n == AtMost(wish, SendRequest())
      modifies this`sendIndex, this`sentSize, this`sent, this`held
      ensures Valid() && sent == old(sent) + old(held)[..n] && held == old(held)[n..]
      ensures Now() == AfterSend(buffer.Length, old(Now()), wish)
    {
      WindowDrop(buffer[..], sendIndex, readIndex, n);
      MoveToSent(sent, held, n);
      sent, held := sent + held[..n], held[n..];
      sentSize := sentSize + n;
      sendIndex := (sendIndex + n) % buffer.Length;
    }

    /** The `send` of `send_buffer`, when there is something to send. */
    method SendHeld(outcome: Outcome) returns (status: IOStatus)
      requires Valid() && held != []
      modifies this`sendIndex, this`sentSize, this`sent, this`held
      ensures Valid()
      ensures var n := if outcome.Moves? then AtMost(outcome.wish, old(SendRequest())) else 0;
              && status == (if outcome.Fails? then Error else if n == 0 then Finished else Ok)
              && sent == old(sent) + old(held)[..n] && held == old(held)[n..]
      ensures Now() == if outcome.Moves? then AfterSend(buffer.Length, old(Now()), outcome.wish) else old(Now())
    {
      var dataSize := (if sendIndex > readIndex then buffer.Length else readIndex) - sendIndex;
      if outcome.Fails? {
        return Error;
      }
      var result := AtMost(outcome.wish, dataSize);
      if result == 0 {
        NothingSent(buffer.Length, Now(), outcome.wish);
        return Finished;
      }
      Taken(result, outcome.wish);
      status := Ok;
    }

    /** `send_buffer`: the oldest held bytes go to the socket, in order. */
    method SendBuffer(outcome: Outcome) returns (status: IOStatus)
      requires Valid()
      modifies this`sendIndex, this`sentSize, this`sent, this`held
      ensures Valid()
      ensures var n := if outcome.Moves? then AtMost(outcome.wish, old(SendRequest())) else 0;
              && sent == old(sent) + old(held)[..n] && held == old(held)[n..]
              && status == if old(held) == [] then if readFinished then Finished else NoData
                           else if outcome.Fails? then Error
                           else if n == 0 then Finished else Ok
      ensures Now() == if outcome.Moves? then AfterSend(buffer.Length, old(Now()), outcome.wish) else old(Now())
    {
      if sendIndex == readIndex {
        NothingSent(buffer.Length, Now(), if outcome.Moves? then outcome.wish else 0);
        return if readFinished then Finished else NoData;
      }
      status := SendHeld(outcome);
    }

    static lemma MoveToSent(sent: seq<Byte>, held: seq<Byte>, n: nat)
      requires n <= |held|
      ensures sent + held[..n] + held[n..] == sent + held
    {
    }

    static lemma MoveFromFile(sent: seq<Byte>, held: seq<Byte>, file: seq<Byte>, offset: nat, n: nat)
      requires offset + n <= |file| && sent + held == file[..offset]
      ensures sent + (held + file[offset..offset + n]) == file[..offset + n]
    {
      assert file[..offset + n] == file[..offset] + file[offset..offset + n];
    }

    /** The kernel copies the next bytes of the file into the buffer. */
    method Fill(bytes: seq<Byte>)
      requires readIndex + |bytes| <= buffer.Length
      modifies buffer
      ensures buffer[readIndex..readIndex + |bytes|] == bytes
      ensures forall i | 0 <= i < buffer.Length && !(readIndex <= i < readIndex + |bytes|) ::
                buffer[i] == old(buffer[i])
    {
      for i := 0 to |bytes|
        invariant buffer[readIndex..readIndex + i] == bytes[..i]
        invariant forall k | 0 <= k < buffer.Length && !(readIndex <= k < readIndex + i) :: buffer[k] == old(buffer[k])
      {
        buffer[readIndex + i] := bytes[i];
      }
    }

    /** `read_data` after the file gave its next bytes, which the kernel put behind `readIndex`. */
    method Filled(bytes: seq<Byte>)
      requires Valid() && |bytes| <= ReadRequest()
      requires offset + |bytes| <= |file| && bytes == file[offset..offset + |bytes|]
      modifies this`readIndex, this`offset, this`held, buffer
      ensures Valid() && held == old(held) + bytes && offset == old(offset) + |bytes|
      ensures readIndex == (old(readIndex) + |bytes|) % buffer.Length
    {
      var n := |bytes|;
      ghost var before := buffer[..];
      Fill(bytes);
      WindowPush(before, buffer[..], sendIndex, readIndex, n);
      MoveFromFile(sent, held, file, offset, n);
      assert buffer[..][readIndex..readIndex + n] == bytes;
      held, offset := held + bytes, offset + n;
      readIndex := (readIndex + n) % buffer.Length;
    }

    /** `read_data`: the next bytes of the file are appended to those held. */
    method ReadData(outcome: Outcome) returns (status: IOStatus)
      requires Valid()
      modifies this`readIndex, this`offset, this`held, this`readFinished, buffer
      ensures Valid()
      ensures if old(readFinished) then status == Finished && held == old(held) && readFinished
              else if !fileOpened then status == Error && held == old(held) && !readFinished
              else if |old(held)| == buffer.Length - 1 then status == NoData && held == old(held) && !readFinished
              else if outcome.Fails? then status == Error && held == old(held) && !readFinished
              else
                var n := Readable(outcome.wish, old(ReadRequest()), |file| - old(offset));
                && status == (if n == 0 then Finished else Ok) && readFinished == (n == 0)
                && held == old(held) + file[old(offset)..old(offset) + n]
      ensures Now() == if fileOpened && outcome.Moves? then AfterRead(buffer.Length, |file|, old(Now()), outcome.wish)
                       else old(Now())
    {
      if readFinished {
        return Finished;
      }
      if !fileOpened {
        return Error;
      }
      var dataSize :=
        (if sendIndex <= readIndex then buffer.Length - (if sendIndex == 0 then 1 else 0) else sendIndex - 1)
        - readIndex;
      if dataSize == 0 {
        return NoData;
      }
      if outcome.Fails? {
        return Error;
      }
      var result := Readable(outcome.wish, dataSize, |file| - offset);
      if result == 0 {
        readFinished := true;
        return Finished;
      }
      Filled(file[offset..offset + result]);
      status := Ok;
    }

    /** The socket has always got a front part of the file, in order. */
    lemma SentIsPrefix()
      requires Valid()
      ensures |sent| <= |file| && sent == file[..|sent|]
      ensures readFinished && held == [] <==> readFinished && sent == file
    {
      assert file[..offset][..|sent|] == sent;
    }

    /** `update_file_path`: a client may have one file opened, once. */
    method UpdateFilePath(names: bool) returns (ok: bool)
      requires Valid()
      modifies this`fileOpened
      ensures Valid()
      ensures ok == (!old(fileOpened) && names) && fileOpened == (old(fileOpened) || names)
    {
      if fileOpened || !names {
        return false;
      }
      fileOpened := true;
      ok := true;
    }

    /** The part of a round that writes to the socket. */
    method Write(r: Ready) returns (keep: bool)
      requires Valid()
      modifies this`sendIndex, this`sentSize, this`sent, this`held
      ensures Valid() && old(sent) <= sent
      ensures keep == !LeavesSending(old(Now()), r) && Now() == AfterWriting(buffer.Length, old(Now()), r)
    {
      keep := true;
      if r.writable {
        var status := SendBuffer(r.sending);
        keep := !(status == Error || (status == Finished && readFinished));
      }
    }

    /** The part of a round that reads from the file. */
    method Fetch(r: Ready) returns (keep: bool)
      requires Valid() && (r.readable ==> fileOpened && !readFinished)
      modifies this`readIndex, this`offset, this`held, this`readFinished, buffer
      ensures Valid()
      ensures keep == !LeavesReading(buffer.Length, old(Now()), r)
      ensures Now() == AfterReading(buffer.Length, |file|, old(Now()), r)
    {
      keep := true;
      if r.readable {
        var status := ReadData(r.reading);
        keep := status != Error;
      }
    }

    /** One client's part of `run_step`: exactly when it is dropped, and how far it has got. */
    method Step(r: Ready) returns (keep: bool)
      requires Valid() && (r.input.Arrived? ==> !readFinished) && (r.readable ==> fileOpened && !readFinished)
      modifies this, buffer
      ensures Valid() && old(sent) <= sent
      ensures var written := AfterWriting(buffer.Length, old(Now()), r);
              if Refused(old(fileOpened), r) then !keep && Now() == old(Now())
              else if LeavesSending(old(Now()), r) then !keep && Now() == written
              else
                && keep == !LeavesReading(buffer.Length, written, r)
                && Now() == AfterReading(buffer.Length, |file|, written, r)
      ensures fileOpened == (old(fileOpened) || (!r.failing && r.input.Arrived? && r.input.names))
      ensures keep <==>
                && !r.failing && (r.input.Arrived? ==> !old(fileOpened) && r.input.names)
                && !(r.writable && old(held) == [] && old(readFinished))
                && !(r.writable && old(held) != [] && r.sending.Fails?)
                && !(r.writable && old(held) != [] && r.sending == Moves(0) && old(readFinished))
                && !(r.readable && r.reading.Fails? && |held| < buffer.Length - 1)
    {
      if r.failing {
        return false;
      }
      if r.input.Arrived? {
        keep := UpdateFilePath(r.input.names);
        if !keep {
          return;
        }
      }
      keep := Write(r);
      if keep {
        keep := Fetch(r);
      }
    }

    lemma ValidIsSane()
      requires Valid()
      ensures Sane(buffer.Length, |file|, Now())
      ensures sent == file <==> sentSize == |file|
    {
      SentIsPrefix();
      assert |sent + held| == offset;
    }

    /** A round in which every descriptor is ready, sends and reads move bytes, and `input` is found at the socket. */
    method ReadyRound(input: Input, sendWish: nat, readWish: nat) returns (keep: bool)
      requires Valid() && fileOpened && (input.Arrived? ==> !readFinished) && sendWish > 0
      modifies this, buffer
      ensures Valid() && fileOpened && old(sent) <= sent && Sane(buffer.Length, |file|, old(Now()))
      ensures keep == !(input.Arrived? || Done(old(Now())))
      ensures Now() == if keep then QuietRound(buffer.Length, |file|, old(Now()), sendWish, readWish) else old(Now())
    {
      ValidIsSane();
      if Done(Now()) {
        NothingSent(buffer.Length, Now(), sendWish);
      }
      keep := Step(Ready(false, input, true, Moves(sendWish), !readFinished, Moves(readWish)));
    }

    /** The rounds of a client whose file is open, that is always ready and whose sends and reads never fail. */
    method Rounds(socket: nat -> Input, sendSizes: nat -> Positive, readSizes: nat -> nat)
      requires Valid() && fileOpened && buffer.Length >= 2
      modifies this, buffer
      ensures Valid() && old(sent) <= sent && Sane(buffer.Length, |file|, old(Now()))
      ensures Now() == Served(buffer.Length, |file|, old(Now()), socket, sendSizes, readSizes, 0)
    {
      ValidIsSane();
      ghost var start := Now();
      var keep, i := true, 0;
      while keep
        invariant Valid() && fileOpened && old(sent) <= sent && Sane(buffer.Length, |file|, Now())
        invariant Served(buffer.Length, |file|, start, socket, sendSizes, readSizes, 0)
               == if keep then Served(buffer.Length, |file|, Now(), socket, sendSizes, readSizes, i) else Now()
        decreases keep, Remaining(|file|, Now())
      {
        keep := ReadyRound(if readFinished then Silent else socket(i), sendSizes(i), readSizes(i));
        ValidIsSane();
        i := i + 1;
      }
    }

    /** Such a client gets exactly its file, whatever the sizes of the partial sends and reads, if and only if nothing
        arrives on its socket in the rounds before the end of the file is noted or its last byte sent. If something
        arrives in the first of them, nothing more of the file is sent. */
    method Serve(socket: nat -> Input, sendSizes: nat -> Positive, readSizes: nat -> nat)
      requires Valid() && fileOpened && buffer.Length >= 2
      modifies this, buffer
      ensures Valid() && old(sent) <= sent && Sane(buffer.Length, |file|, old(Now()))
      ensures sent == file
         <==> SilentFor(socket, 0, ExposedRounds(buffer.Length, |file|, old(Now()), sendSizes, readSizes, 0))
      ensures Exposed(|file|, old(Now())) && socket(0).Arrived? ==> sent == old(sent)
    {
      ghost var start := Now();
      Rounds(socket, sendSizes, readSizes);
      ServedWholeIff(buffer.Length, |file|, start, socket, sendSizes, readSizes, 0);
      ValidIsSane();
    }
  }
}
