/** The chunked writer of examples/tcp/tcp-large-transfer.cc. */
module LargeTransfer {
  import opened Options

  const TOTAL_TX_BYTES := 2000000
  const WRITE_SIZE := 1040

  /** Where in the buffer the byte stands that comes after written ones: the buffer is used over and
      over. */
  ghost function Offset(written: nat): (offset: nat)
    ensures offset < WRITE_SIZE
  {
    if written < WRITE_SIZE then written else Offset(written - WRITE_SIZE)
  }

  lemma {:induction false} OffsetOf(written: nat)
    ensures Offset(written) == written % WRITE_SIZE
  {
    if written >= WRITE_SIZE {
      OffsetOf(written - WRITE_SIZE);
    }
  }

  /** The k-th byte of the stream: a to z, over and over. */
  ghost function StreamByte(k: nat): int {
    if k < 26 then 97 + k else StreamByte(k - 26)
  }

  lemma {:induction false} ByteOf(k: nat)
    ensures StreamByte(k) == 97 + k % 26
  {
    if k >= 26 {
      ByteOf(k - 26);
    }
  }

  ghost predicate IsStream(s: seq<int>) {
    forall k {:trigger s[k]} :: 0 <= k < |s| ==> s[k] == StreamByte(k)
  }

  /** The buffer goes on where the stream is, because its size is a multiple of 26. */
  lemma {:induction false} BufferByte(written: nat, j: nat)
    ensures StreamByte(Offset(written) + j) == StreamByte(written + j)
  {
    if written >= WRITE_SIZE {
      BufferByte(written - WRITE_SIZE, j);
      ByteOf(written - WRITE_SIZE + j);
      ByteOf(written + j);
    }
  }

  ghost predicate Continues(bytes: seq<int>, written: nat) {
    forall j {:trigger bytes[j]} :: 0 <= j < |bytes| ==> bytes[j] == StreamByte(written + j)
  }

  lemma PartContinues(buffer: seq<int>, written: nat, size: nat)
    requires IsStream(buffer) && |buffer| == WRITE_SIZE && Offset(written) + size <= WRITE_SIZE
    ensures Continues(buffer[Offset(written)..Offset(written) + size], written)
  {
    var offset := Offset(written);
    var part := buffer[offset..offset + size];
    forall j | 0 <= j < size ensures part[j] == StreamByte(written + j) {
      assert buffer[offset + j] == StreamByte(offset + j);
      BufferByte(written, j);
    }
  }

  lemma FrontOfPart(buffer: seq<int>, offset: nat, size: nat, sent: nat)
    requires offset + size <= |buffer| && sent <= size
    ensures buffer[offset..offset + size][..sent] == buffer[offset..offset + sent]
  {
  }

  lemma StreamGrows(s: seq<int>, more: seq<int>)
    requires IsStream(s) && Continues(more, |s|)
    ensures IsStream(s + more)
  {
  }

  // ---------- what a socket is asked and answers ----------

  /** A question for transmit space, or bytes offered, of which the socket took sent, or none and
      reported an error. */
  datatype Event = Space(available: nat) | Offer(bytes: seq<int>, sent: int)

  /** One round of the loop: space was above 0, and was asked for again. */
  datatype Round = Round(checked: nat, space: nat, bytes: seq<int>, sent: int)

  /** The rounds of a callback so far. */
  datatype Rounds = Start | After(before: Rounds, last: Round)

  ghost function Events(rounds: Rounds): seq<Event> {
    match rounds
    case Start => []
    case After(before, r) => Events(before) + [Space(r.checked), Space(r.space), Offer(r.bytes, r.sent)]
  }

  ghost function Number(rounds: Rounds): nat {
    match rounds
    case Start => 0
    case After(before, _) => Number(before) + 1
  }

  /** How many bytes the socket took. */
  ghost function Taken(rounds: Rounds): nat {
    match rounds
    case Start => 0
    case After(before, r) => Taken(before) + if r.sent > 0 then r.sent else 0
  }

  /** How many rounds ended with nothing taken, an error included. */
  ghost function Idle(rounds: Rounds): nat {
    match rounds
    case Start => 0
    case After(before, r) => Idle(before) + if r.sent <= 0 then 1 else 0
  }

  ghost predicate Failed(rounds: Rounds) {
    rounds.After? && rounds.last.sent < 0
  }

  /** How many bytes are due with written ones behind them: up to the end of the buffer, up to the end
      of the stream, and no more than there is space for. */
  ghost function Due(written: nat, space: nat): (n: nat)
    requires written < TOTAL_TX_BYTES
    ensures n == WRITE_SIZE - Offset(written) || n == TOTAL_TX_BYTES - written || n == space
    ensures n <= WRITE_SIZE - Offset(written) && n <= TOTAL_TX_BYTES - written && n <= space
  {
    var buffered := WRITE_SIZE - Offset(written);
    var left := TOTAL_TX_BYTES - written;
    if buffered <= left && buffered <= space then buffered else if left <= space then left else space
  }

  /** A round with written bytes behind it offers what comes next in the stream. */
  ghost predicate RoundOk(r: Round, written: nat) {
    && written < TOTAL_TX_BYTES && r.checked > 0
    && |r.bytes| == Due(written, r.space) && Continues(r.bytes, written)
    && -1 <= r.sent <= |r.bytes|
  }

  /** How many bytes are written after the round, if it is as it should be. */
  ghost function Passed(r: Round, written: nat): Option<nat> {
    if RoundOk(r, written) then Some(written + if r.sent > 0 then r.sent else 0) else None
  }

  /** Each round offers what comes next after the rounds before it, none of which failed. */
  ghost predicate RoundsOk(rounds: Rounds, written: nat) {
    match rounds
    case Start => true
    case After(before, r) =>
      RoundsOk(before, written) && !Failed(before) && Passed(r, written + Taken(before)).Some?
  }

  lemma LogAppend(log: seq<Event>, rounds: Rounds, r: Round)
    ensures log + Events(rounds) + [Space(r.checked)] + [Space(r.space), Offer(r.bytes, r.sent)]
      == log + Events(After(rounds, r))
  {
  }

  lemma {:induction false} RoundsBounded(rounds: Rounds)
    ensures Number(rounds) <= Idle(rounds) + Taken(rounds)
  {
    if rounds.After? {
      RoundsBounded(rounds.before);
    }
  }

  /** The socket, with a record of what it was asked and what it answered. */
  class Socket {
    var accepted: seq<int>
    var closed: bool
    ghost var log: seq<Event>

    constructor ()
      ensures accepted == [] && !closed && log == []
    {
      accepted, closed, log := [], false, [];
    }

    /** Any answer the socket may give. */
    method GetTxAvailable() returns (n: nat)
      modifies this`log
      ensures log == old(log) + [Space(n)]
    {
      n :| n >= 0;
      log := log + [Space(n)];
    }

    /** The socket takes any number of the bytes offered, or none and reports an error. */
    method Send(data: array<int>, offset: nat, size: nat) returns (sent: int)
      requires offset + size <= data.Length
      modifies this`accepted, this`log
      ensures -1 <= sent <= size && log == old(log) + [Offer(data[offset..offset + size], sent)]
      ensures accepted == old(accepted) + if sent > 0 then data[offset..offset + sent] else []
    {
      sent :| -1 <= sent <= size;
      log := log + [Offer(data[offset..offset + size], sent)];
      if sent > 0 {
        accepted := accepted + data[offset..offset + sent];
      }
    }

    method Close()
      modifies this`closed
      ensures closed
    {
      closed := true;
    }
  }

  // ---------- the sender ----------

  /** How one callback ended: blocked on an error, closed, or not within the watched sends. */
  datatype Ending = Blocked | Closed | Watched

  class Sender {
    var currentTxBytes: nat
    const data: array<int>
    const socket: Socket

    ghost predicate Valid()
      reads this, data, socket
    {
      && data.Length == WRITE_SIZE && IsStream(data[..])
      && currentTxBytes == |socket.accepted| <= TOTAL_TX_BYTES && IsStream(socket.accepted)
    }

    constructor ()
      ensures Valid() && fresh(data) && fresh(socket)
      ensures socket.accepted == [] && socket.log == [] && !socket.closed
    {
      data := new int[WRITE_SIZE];
      socket := new Socket();
      currentTxBytes := 0;
      new;
      for i := 0 to WRITE_SIZE
        invariant currentTxBytes == 0 && fresh(data) && fresh(socket)
        invariant socket.accepted == [] && socket.log == [] && !socket.closed
        invariant forall k :: 0 <= k < i ==> data[k] == StreamByte(k)
      {
        data[i] := 97 + i % 26;
        ByteOf(i);
      }
    }

    /** The buffer from offset on is what comes next in the stream, and is offered. */
    method SendPart(offset: nat, size: nat) returns (sent: int, ghost part: seq<int>)
      requires Valid() && offset == Offset(currentTxBytes) && offset + size <= WRITE_SIZE
      requires currentTxBytes + size <= TOTAL_TX_BYTES
      modifies socket`accepted, socket`log
      ensures -1 <= sent <= size == |part| && Continues(part, currentTxBytes)
      ensures socket.accepted == old(socket.accepted) + part[..if sent > 0 then sent else 0]
      ensures socket.log == old(socket.log) + [Offer(part, sent)]
    {
      ghost var buffer := data[..];
      part := buffer[offset..offset + size];
      PartContinues(buffer, currentTxBytes, size);
      sent := socket.Send(data, offset, size);
      assert data[offset..offset + size] == part;
      if sent > 0 {
        FrontOfPart(buffer, offset, size, sent);
        assert data[offset..offset + sent] == buffer[offset..offset + sent];
      }
    }

    /** One round of the loop, after the check that there is space. */
    method WriteOnce(ghost checked: nat) returns (sent: int, ghost r: Round)
      requires Valid() && currentTxBytes < TOTAL_TX_BYTES && checked > 0
      modifies this`currentTxBytes, socket`accepted, socket`log
      ensures Valid() && old(socket.accepted) <= socket.accepted
      ensures Passed(r, |old(socket.accepted)|) == Some(|socket.accepted|) && r.checked == checked && r.sent == sent
      ensures socket.log == old(socket.log) + [Space(r.space), Offer(r.bytes, sent)]
    {
      var left := TOTAL_TX_BYTES - currentTxBytes;
      var dataOffset := currentTxBytes % WRITE_SIZE;
      OffsetOf(currentTxBytes);
      var toWrite := WRITE_SIZE - dataOffset;
      toWrite := if left < toWrite then left else toWrite;
      var available := socket.GetTxAvailable();
      toWrite := if available < toWrite then available else toWrite;
      ghost var part;
      sent, part := SendPart(dataOffset, toWrite);
      r := Round(checked, available, part, sent);
      StreamGrows(old(socket.accepted), part[..if sent > 0 then sent else 0]);
      if sent < 0 {
        return;
      }
      currentTxBytes := currentTxBytes + sent;
    }

    /** How many bytes are written, if the rounds are what made them so many since the socket had accepted,
        and the socket's log is the one given. */
    ghost function Written(accepted: seq<int>, rounds: Rounds, log: seq<Event>): Option<nat>
      reads this, data, socket
    {
      if && Valid() && accepted <= socket.accepted && |socket.accepted| == |accepted| + Taken(rounds)
         && RoundsOk(rounds, |accepted|) && socket.log == log
      then Some(currentTxBytes) else None
    }

    /** A round added to those before it. */
    method WriteRound(ghost accepted: seq<int>, ghost log: seq<Event>, ghost before: Rounds, ghost checked: nat)
      returns (sent: int, ghost rounds: Rounds)
      requires currentTxBytes < TOTAL_TX_BYTES && checked > 0
      requires Written(accepted, before, log + Events(before) + [Space(checked)]) == Some(currentTxBytes)
      requires !Failed(before)
      modifies this`currentTxBytes, socket`accepted, socket`log
      ensures Written(accepted, rounds, log + Events(rounds)) == Some(currentTxBytes)
      ensures rounds.After? && rounds.before == before && rounds.last.sent == sent
    {
      ghost var r: Round;
      sent, r := WriteOnce(checked);
      LogAppend(log, before, r);
      rounds := After(before, r);
    }

    /** The check for space and the round after it. */
    method CheckAndWrite(ghost accepted: seq<int>, ghost log: seq<Event>, ghost before: Rounds)
      returns (full: bool, sent: int, ghost rounds: Rounds)
      requires currentTxBytes < TOTAL_TX_BYTES
      requires Written(accepted, before, log + Events(before)) == Some(currentTxBytes)
      requires !Failed(before)
      modifies this`currentTxBytes, socket`accepted, socket`log
      ensures full ==> rounds == before && currentTxBytes == old(currentTxBytes)
      ensures full ==> Written(accepted, rounds, log + Events(rounds) + [Space(0)]) == Some(currentTxBytes)
      ensures !full ==> Written(accepted, rounds, log + Events(rounds)) == Some(currentTxBytes)
      ensures !full ==> rounds.After? && rounds.before == before && rounds.last.sent == sent
    {
      rounds := before;
      var available := socket.GetTxAvailable();
      full, sent := available == 0, 0;
      if !full {
        sent, rounds := WriteRound(accepted, log, before, available);
      }
    }

    /** One callback, watched for a number of sends: it may go on for ever if the socket keeps taking
        nothing.  It ends with an error of the socket, or closes the socket at the end of the stream,
        but also on a full buffer; full says that the last answer was a space of 0. */
    method WriteUntilBufferFull(sends: nat) returns (ending: Ending, full: bool, ghost rounds: Rounds)
      requires Valid()
      modifies this`currentTxBytes, socket`accepted, socket`closed, socket`log
      ensures Valid() && old(socket.accepted) <= socket.accepted
      ensures RoundsOk(rounds, |old(socket.accepted)|) && Number(rounds) <= sends
      ensures socket.log == old(socket.log) + Events(rounds) + if full then [Space(0)] else []
      ensures |socket.accepted| == |old(socket.accepted)| + Taken(rounds)
      ensures full ==> |socket.accepted| < TOTAL_TX_BYTES
      ensures ending == Blocked <==> Failed(rounds)
      ensures ending == Closed <==> ending != Blocked && (full || |socket.accepted| == TOTAL_TX_BYTES)
      ensures ending == Watched ==> Number(rounds) == sends
      ensures sends >= Idle(rounds) + TOTAL_TX_BYTES ==> ending != Watched
      ensures socket.closed <==> old(socket.closed) || ending == Closed
    {
      ghost var accepted, log := socket.accepted, socket.log;
      full, rounds := false, Start;
      for i := 0 to sends
        invariant Written(accepted, rounds, log + Events(rounds)) == Some(currentTxBytes)
        invariant Number(rounds) == i && !Failed(rounds)
        invariant socket.closed == old(socket.closed) && !full
      {
        if currentTxBytes >= TOTAL_TX_BYTES {
          break;
        }
        var sent;
        full, sent, rounds := CheckAndWrite(accepted, log, rounds);
        if full {
          break;
        }
        if sent < 0 {
          return Blocked, full, rounds;
        }
      }
      RoundsBounded(rounds);
      if currentTxBytes < TOTAL_TX_BYTES && !full {
        return Watched, full, rounds;
      }
      socket.Close();
      return Closed, full, rounds;
    }

    /** Any number of callbacks: what the socket has accepted is always the stream so far, without
        a gap or a repeat, and each callback asks the socket something until the stream is complete. */
    method Run(callbacks: nat)
      requires Valid()
      modifies this`currentTxBytes, socket`accepted, socket`closed, socket`log
      ensures Valid() && old(socket.accepted) <= socket.accepted && old(socket.log) <= socket.log
      ensures |socket.accepted| == TOTAL_TX_BYTES || |socket.log| >= |old(socket.log)| + callbacks
    {
      for i := 0 to callbacks
        invariant Valid() && old(socket.accepted) <= socket.accepted && old(socket.log) <= socket.log
        invariant |socket.accepted| == TOTAL_TX_BYTES || |socket.log| >= |old(socket.log)| + i
      {
        var sends: nat :| sends >= 1;
        ghost var rounds;
        var ending, full;
        ending, full, rounds := WriteUntilBufferFull(sends);
        SomethingAsked(rounds);
      }
    }
  }

  lemma SomethingAsked(rounds: Rounds)
    ensures rounds.After? ==> |Events(rounds)| >= 3
  {
  }
}
