/**
 * The newline framing of the local command channel: the reading loop of the daemon
 * (client/daemon/daemonlocalserverconnection.cpp), that of the client
 * (client/mozilla/localsocketcontroller.cpp), and the writers on both sides.
 */
module Framing {
  import opened Texts

  type Bytes = string

  const NEWLINE := '\n'

  lemma {:induction false} TrimmedShape(s: Bytes)
    ensures var t := Trimmed(s);
            && |t| <= |s|
            && (t != [] ==> !IsSpace(t[0]) && !IsSpace(t[|t| - 1]))
            && (NoNewline(s, |s|) ==> NoNewline(t, |t|))
            && (t == s <==> s == [] || (!IsSpace(s[0]) && !IsSpace(s[|s| - 1])))
  {
    if s != [] {
      if IsSpace(s[0]) { TrimmedShape(s[1..]); }
      else if IsSpace(s[|s| - 1]) { TrimmedShape(s[..|s| - 1]); }
    }
  }

  /** The first `n` bytes contain no newline. */
  predicate NoNewline(s: Bytes, n: nat)
    requires n <= |s|
  {
    forall k :: 0 <= k < n ==> s[k] != NEWLINE
  }

  /** Position of the first newline at or after `from`, or -1. */
  function IndexOf(s: Bytes, from: nat): (pos: int)
    requires from <= |s|
    ensures pos == -1 || from <= pos < |s|
    ensures forall k :: from <= k < (if pos == -1 then |s| else pos) ==> s[k] != NEWLINE
    ensures pos != -1 ==> s[pos] == NEWLINE
    decreases |s| - from
  {
    if from == |s| then -1 else if s[from] == NEWLINE then from else IndexOf(s, from + 1)
  }

  // ------------------------------------------------------------ the reference

  /** A reader that takes one byte at a time: finished commands and the line in progress. */
  datatype Reader = Reader(commands: seq<Bytes>, partial: Bytes)

  const EMPTY := Reader([], [])

  /** A finished line counts unless it is blank. */
  function Finished(line: Bytes): seq<Bytes> {
    var command := Trimmed(line);
    if command == [] then [] else [command]
  }

  function Feed(r: Reader, b: char): Reader {
    if b == NEWLINE then Reader(r.commands + Finished(r.partial), []) else Reader(r.commands, r.partial + [b])
  }

  function FeedAll(r: Reader, s: Bytes): Reader {
    if s == [] then r else Feed(FeedAll(r, s[..|s| - 1]), s[|s| - 1])
  }

  lemma {:induction false} FeedConcat(r: Reader, a: Bytes, b: Bytes)
    ensures FeedAll(r, a + b) == FeedAll(FeedAll(r, a), b)
    decreases b
  {
    if b == [] {
      assert a + b == a;
    } else {
      FeedConcat(r, a, b[..|b| - 1]);
      assert (a + b)[..|a + b| - 1] == a + b[..|b| - 1];
    }
  }

  lemma {:induction false} FeedPlain(r: Reader, s: Bytes)
    requires NoNewline(s, |s|)
    ensures FeedAll(r, s) == Reader(r.commands, r.partial + s)
  {
    if s == [] {
      assert r.partial + s == r.partial;
    } else {
      FeedPlain(r, s[..|s| - 1]);
      assert r.partial + s[..|s| - 1] + [s[|s| - 1]] == r.partial + s;
    }
  }

  lemma FeedUnfinished(commands: seq<Bytes>, s: Bytes)
    requires NoNewline(s, |s|)
    ensures FeedAll(Reader(commands, []), s) == Reader(commands, s)
  {
    FeedPlain(Reader(commands, []), s);
    assert [] + s == s;
  }

  /** Taking a whole line at once is feeding its bytes and the newline one by one. */
  lemma FeedLine(commands: seq<Bytes>, line: Bytes, rest: Bytes)
    requires NoNewline(line, |line|)
    ensures FeedAll(Reader(commands, []), line + [NEWLINE] + rest) == FeedAll(Reader(commands + Finished(line), []), rest)
  {
    FeedConcat(Reader(commands, []), line + [NEWLINE], rest);
    FeedUnfinished(commands, line);
    assert (line + [NEWLINE])[..|line|] == line;
  }

  // ------------------------------------------------------------ the two reading loops

  /** What the system hands out, read by read; a read with nothing pending gives no bytes. */
  class Socket {
    var pending: seq<Bytes>
    ghost var handed: Bytes

    constructor (pending: seq<Bytes>)
      ensures this.pending == pending && handed == []
    {
      this.pending, handed := pending, [];
    }

    method ReadAll() returns (data: Bytes)
      modifies this
      ensures data == (if old(pending) == [] then [] else old(pending)[0])
      ensures pending == (if old(pending) == [] then [] else old(pending)[1..])
      ensures handed == old(handed) + data
    {
      data := [];
      if pending != [] {
        data, pending := pending[0], pending[1..];
        handed := handed + data;
      }
    }
  }

  /** What is left after reading up to and including the first read that gives nothing. */
  function AfterFirstEmpty(pending: seq<Bytes>): seq<Bytes> {
    if pending == [] then [] else if pending[0] == [] then pending[1..] else AfterFirstEmpty(pending[1..])
  }

  /**
   * One end of the channel. `received` is everything read since the start; the invariant says
   * that it does not matter in which pieces it arrived.
   */
  class Channel {
    var buffer: Bytes
    var delivered: seq<Bytes>
    ghost var received: Bytes

    ghost predicate Valid()
      reads this
    {
      Reader(delivered, buffer) == FeedAll(EMPTY, received) && NoNewline(buffer, |buffer|)
    }

    constructor ()
      ensures Valid() && received == []
    {
      buffer, delivered, received := [], [], [];
    }

    /** Takes the line that ends at `pos` out of the buffer and delivers it unless it is blank. */
    method TakeLine(pos: nat)
      requires pos == IndexOf(buffer, 0)
      modifies this`buffer, this`delivered
      ensures |buffer| < |old(buffer)|
      ensures FeedAll(Reader(delivered, []), buffer) == FeedAll(Reader(old(delivered), []), old(buffer))
    {
      var line := buffer[..pos];
      assert buffer == line + [NEWLINE] + buffer[pos + 1..];
      FeedLine(delivered, line, buffer[pos + 1..]);
      buffer := buffer[pos + 1..];
      var command := Trimmed(line);
      if command != [] { delivered := delivered + [command]; }
      assert delivered == old(delivered) + Finished(line);
    }

    /** Appends what a read returned. */
    method Append(input: Bytes)
      requires FeedAll(Reader(delivered, []), buffer) == FeedAll(EMPTY, received)
      modifies this`buffer, this`received
      ensures received == old(received) + input
      ensures FeedAll(Reader(delivered, []), buffer) == FeedAll(EMPTY, received)
    {
      FeedConcat(Reader(delivered, []), buffer, input);
      FeedConcat(EMPTY, received, input);
      received := received + input;
      buffer := buffer + input;
    }

    /** LocalSocketController::readData: one read, then the loop over complete lines. */
    method ClientReadData(input: Bytes)
      requires Valid()
      modifies this
      ensures Valid() && received == old(received) + input
    {
      FeedUnfinished(delivered, buffer);
      Append(input);
      ghost var all := received;
      while true
        invariant received == all && FeedAll(Reader(delivered, []), buffer) == FeedAll(EMPTY, all)
        decreases |buffer|
      {
        var pos := IndexOf(buffer, 0);
        if pos == -1 { break; }
        TakeLine(pos);
      }
      FeedUnfinished(delivered, buffer);
    }

    /**
     * DaemonLocalServerConnection::readData: it reads again whenever no complete line is left,
     * until a read gives nothing.
     */
    method DaemonReadData(socket: Socket)
      requires Valid() && received == socket.handed
      modifies this, socket
      ensures Valid() && received == socket.handed
      ensures socket.pending == AfterFirstEmpty(old(socket.pending))
    {
      FeedUnfinished(delivered, buffer);
      while true
        invariant received == socket.handed && FeedAll(Reader(delivered, []), buffer) == FeedAll(EMPTY, received)
        invariant AfterFirstEmpty(socket.pending) == AfterFirstEmpty(old(socket.pending))
        decreases |socket.pending|, |buffer|
      {
        var pos := IndexOf(buffer, 0);
        if pos == -1 {
          var input := socket.ReadAll();
          if input == [] { break; }
          Append(input);
          continue;
        }
        TakeLine(pos);
      }
      FeedUnfinished(delivered, buffer);
    }
  }

  // ------------------------------------------------------------ what is recovered

  /** What a writer sends: every document followed by a newline. */
  function Written(docs: seq<Bytes>): Bytes {
    if docs == [] then [] else Written(docs[..|docs| - 1]) + (docs[|docs| - 1] + [NEWLINE])
  }

  predicate Transmissible(doc: Bytes) {
    doc != [] && NoNewline(doc, |doc|) && !IsSpace(doc[0]) && !IsSpace(doc[|doc| - 1])
  }

  /** Whatever the bytes, a delivered command is not blank, has no newline and is trimmed. */
  lemma {:induction false} DeliveredShape(s: Bytes)
    ensures var r := FeedAll(EMPTY, s);
            NoNewline(r.partial, |r.partial|) && forall c :: c in r.commands ==> Transmissible(c)
  {
    if s != [] {
      DeliveredShape(s[..|s| - 1]);
      TrimmedShape(FeedAll(EMPTY, s[..|s| - 1]).partial);
    }
  }

  lemma FeedDocument(commands: seq<Bytes>, d: Bytes)
    requires Transmissible(d)
    ensures FeedAll(Reader(commands, []), d + [NEWLINE]) == Reader(commands + [d], [])
  {
    FeedLine(commands, d, []);
    assert d + [NEWLINE] + [] == d + [NEWLINE];
    TrimmedShape(d);
  }

  lemma {:induction false} WrittenReadBack(docs: seq<Bytes>)
    requires forall i :: 0 <= i < |docs| ==> Transmissible(docs[i])
    ensures FeedAll(EMPTY, Written(docs)) == Reader(docs, [])
  {
    if docs != [] {
      var n := |docs| - 1;
      WrittenReadBack(docs[..n]);
      FeedConcat(EMPTY, Written(docs[..n]), docs[n] + [NEWLINE]);
      FeedDocument(docs[..n], docs[n]);
      assert docs[..n] + [docs[n]] == docs;
    }
  }

  /**
   * A sequence of documents is recovered unchanged if and only if each of them is non-empty,
   * free of newlines and does not begin or end with white space.
   */
  lemma RecoveredIff(docs: seq<Bytes>)
    ensures FeedAll(EMPTY, Written(docs)).commands == docs <==> forall d :: d in docs ==> Transmissible(d)
  {
    if forall d :: d in docs ==> Transmissible(d) { WrittenReadBack(docs); }
    DeliveredShape(Written(docs));
  }
}
