/** Writing messages to a socket, reading them back in chunks. */
module Transport {
  import opened Common
  import opened CString
  import opened Framing
  import opened FramingSafety
  import opened TransportSpec
  import opened StringUtils
  import opened MessageList

  /** Compares backwards until a character differs or one of the strings is used up. */
  method IsTerminated(s: string, term: string) returns (terminated: bool)
    ensures terminated == LooksTerminated(s, term)
  {
    terminated := true;
    var i, j := |s| - 1, |term| - 1;
    while i >= 0 && j >= 0 && terminated
      invariant -1 <= i < |s| && -1 <= j < |term| && i - j == |s| - |term|
      invariant s[i + 1..] == term[j + 1..]
      invariant !terminated ==> i >= 0 && j >= 0 && s[i] != term[j]
      decreases i, terminated
    {
      if s[i] == term[j] {
        assert s[i..] == [s[i]] + s[i + 1..];
        assert term[j..] == [term[j]] + term[j + 1..];
        i, j := i - 1, j - 1;
      } else {
        terminated := false;
      }
    }
    if !terminated {
      NotTerminated(s, term, i, j);
    }
  }

  lemma NotTerminated(s: string, term: string, i: nat, j: nat)
    requires i < |s| && j < |term| && i - j == |s| - |term| && s[i] != term[j]
    ensures !LooksTerminated(s, term)
  {
    if |term| <= |s| {
      assert s[|s| - |term|..][j] == s[i];
    }
    if |s| <= |term| {
      assert term[|term| - |s|..][i] == term[j];
    }
  }

  /** Appends `s` and `term` to the buffer's string when both fit. */
  method TerminateString(buffer: array<char>, size: nat, s: string, term: string)
    requires IsCString(buffer[..]) && NUL !in s && NUL !in term
    requires |s| + |term| < size ==> |Text(buffer[..])| + |s| + |term| < buffer.Length
    modifies buffer
    ensures IsCString(buffer[..])
    ensures Text(buffer[..]) == old(Text(buffer[..])) + (if |s| + |term| < size then s + term else "")
  {
    hide Text;
    if |s| + |term| < size {
      var n := |Text(buffer[..])|;
      assert buffer[..n] == Text(buffer[..]);
      var copied := SafeCopy(buffer, n, |s| + 1, s);
      n := |Text(buffer[..])|;
      assert buffer[..n] == Text(buffer[..]);
      copied := SafeCopy(buffer, n, |term| + 1, term);
    }
  }

  /** A connected socket. `sent` is everything the system has accepted so far. */
  class Socket {
    var sent: string

    constructor ()
      ensures sent == ""
    {
      sent := "";
    }

    /** One call of write: any part of the data may be accepted, or the call may fail. */
    method Write(data: string) returns (written: int)
      requires data != ""
      modifies this
      ensures written <= |data|
      ensures sent == old(sent) + (if written > 0 then data[..written] else "")
    {
      written :| written <= |data|;
      if written > 0 {
        sent := sent + data[..written];
      }
    }

    method WriteString(s: string) returns (total: int)
      modifies this
      ensures total == -1 || total == |s|
      ensures total == |s| ==> sent == old(sent) + s
      ensures total == -1 ==> exists k: nat :: k < |s| && sent == old(sent) + s[..k]
    {
      var p, bytesLeft := 0, |s|;
      total := 0;
      while bytesLeft > 0 && total != -1
        invariant 0 <= p <= |s| && bytesLeft == |s| - p
        invariant total == p || (total == -1 && p < |s|)
        invariant sent == old(sent) + s[..p]
        decreases bytesLeft, total
      {
        var written := Write(s[p..]);
        if written > 0 {
          assert s[..p] + s[p..][..written] == s[..p + written];
          total := total + written;
          bytesLeft := bytesLeft - written;
          p := p + written;
        } else {
          total := -1;
        }
      }
      assert s[..|s|] == s;
    }
  }

  /** The message with a terminator, unless it looks terminated. */
  method Terminated(message: string) returns (line: string)
    requires NUL !in message
    ensures line == Wire(message)
  {
    hide Text, LooksTerminated;
    var fmtMessage := new char[MAX_CHARS + 1](_ => NUL);
    assert fmtMessage[0] == NUL;
    TextIs(fmtMessage[..], 0);
    line := message;
    var terminated := IsTerminated(message, CRLF);
    if !terminated {
      TerminateString(fmtMessage, MAX_CHARS + 1, message, CRLF);
      line := Text(fmtMessage[..]);
    }
  }

  /** client_write: terminates the message unless it looks terminated, and writes it. */
  method ClientWrite(socket: Socket, message: string) returns (written: int)
    requires NUL !in message
    modifies socket
    ensures written == -1 || written == |Wire(message)|
    ensures written != -1 ==> socket.sent == old(socket.sent) + Wire(message)
    ensures written == -1 ==> exists k: nat :: k < |Wire(message)| && socket.sent == old(socket.sent) + Wire(message)[..k]
  {
    hide Wire;
    var line := Terminated(message);
    written := socket.WriteString(line);
  }

  lemma {:induction false} SentAppend(messages: seq<string>, i: nat)
    requires i < |messages|
    ensures Sent(messages[..i + 1]) == Sent(messages[..i]) + Wire(messages[i])
  {
    hide Wire;
    if i > 0 {
      assert messages[..i + 1][1..] == messages[1..][..i] && messages[..i][1..] == messages[1..][..i - 1];
      SentAppend(messages[1..], i - 1);
    } else {
      assert messages[..1][1..] == [];
    }
  }

  /** Writes a queue of messages one after the other, until a call writes nothing or fails and
      the client disconnects. `done` messages have been written as a whole; of the next one at
      most a part. */
  method SendAll(socket: Socket, messages: seq<string>) returns (done: nat)
    requires forall m <- messages :: NUL !in m
    modifies socket
    ensures done <= |messages| && forall i :: 0 <= i < done ==> Wire(messages[i]) != ""
    ensures done == |messages| ==> socket.sent == old(socket.sent) + Sent(messages)
    ensures done < |messages| ==>
              exists part :: part <= Wire(messages[done]) && (part == Wire(messages[done]) ==> part == "")
                             && socket.sent == old(socket.sent) + Sent(messages[..done]) + part
  {
    hide Wire, Sent;
    done := 0;
    ghost var part := "";
    var connected := true;
    SentNone(socket.sent, messages);
    while done < |messages| && connected
      invariant done <= |messages| && forall i :: 0 <= i < done ==> Wire(messages[i]) != ""
      invariant connected ==> part == ""
      invariant !connected ==>
                  done < |messages| && part <= Wire(messages[done]) && (part == Wire(messages[done]) ==> part == "")
      invariant socket.sent == old(socket.sent) + Sent(messages[..done]) + part
      decreases |messages| - done, connected
    {
      SentAppend(messages, done);
      ghost var before := socket.sent;
      var written := ClientWrite(socket, messages[done]);
      if written > 0 {
        assert before + Wire(messages[done]) == old(socket.sent) + Sent(messages[..done + 1]) + "";
        done := done + 1;
      } else {
        connected := false;
        if written == -1 {
          ghost var k: nat :| k < |Wire(messages[done])| && socket.sent == before + Wire(messages[done])[..k];
          part := Wire(messages[done])[..k];
        }
        assert before + part == old(socket.sent) + Sent(messages[..done]) + part;
      }
    }
    assert messages[..|messages|] == messages;
  }

  lemma SentNone(before: string, messages: seq<string>)
    ensures before == before + Sent(messages[..0]) + ""
  {
  }

  /** The receiving side of a connection: what is stored until its line is complete. */
  class Receiver {
    const inBuffer: array<char>

    ghost predicate Valid()
      reads inBuffer
    {
      inBuffer.Length == MAX_CHARS + 1 && IsCString(inBuffer[..])
    }

    function Left(): string
      reads inBuffer
    {
      Text(inBuffer[..])
    }

    constructor ()
      ensures Valid() && Left() == "" && fresh(inBuffer)
    {
      inBuffer := new char[MAX_CHARS + 1](_ => NUL);
      new;
      assert inBuffer[..][0] == NUL;
    }

    /** server_read and client_read on a read that returned `chunk`; an empty chunk is the end
        of the stream. */
    method Read(chunk: string) returns (readStatus: int)
      requires Valid() && NUL !in chunk && |chunk| <= MAX_CHARS
      modifies inBuffer
      ensures Valid()
      ensures var left := old(Left());
              var copied := if |left| + |chunk| > MAX_CHARS then left else left + chunk;
              if chunk == "" then readStatus == -1 && Left() == left
              else if Index(copied, CRLF) >= 0 then readStatus == 1 && Left() == copied
              else readStatus == 0 && Left() == if |left| + |chunk| >= MAX_CHARS then "" else copied
    {
      hide Text, Index;
      readStatus := 0;
      if chunk == "" {
        readStatus := -1;
      } else {
        var currentLen := |Text(inBuffer[..])|;
        assert inBuffer[..currentLen] == Text(inBuffer[..]);
        var totalLen := currentLen + |chunk|;
        var copyBytes := if totalLen >= MAX_CHARS + 1 then MAX_CHARS - currentLen else |chunk|;
        var copied := SafeCopy(inBuffer, currentLen, copyBytes + 1, chunk);
        currentLen := currentLen + copyBytes;
        if Index(Text(inBuffer[..]), CRLF) >= 0 {
          readStatus := 1;
        }
        if readStatus == 0 && currentLen == MAX_CHARS {
          Store(inBuffer, 0, Zeros(MAX_CHARS + 1));
          TextIs(inBuffer[..], 0);
        }
      }
    }

    /** process_socket_data: one read, then every complete message becomes an event. */
    method ProcessData(chunk: string) returns (events: seq<string>)
      requires Valid() && NUL !in chunk && 0 < |chunk| <= MAX_CHARS
      requires Unfinished(Left())
      modifies inBuffer
      ensures Valid()
      ensures Received(events, Left()) == Feed(old(Left()), chunk)
      ensures |old(Left())| + |chunk| > MAX_CHARS ==> events == [] && Left() == ""
    {
      hide Text, Index;
      OverflowClears(Left(), chunk);
      events := [];
      var readStatus := Read(chunk);
      if readStatus == 1 {
        var message := new char[LINE_CHARS + 1](_ => NUL);
        MessagesBelowLimit(Left());
        events := ExtractAll(message, LINE_CHARS + 1, inBuffer, CRLF);
      }
    }

    /** Any run: reads one chunk after the other. */
    method ProcessAll(chunks: seq<string>) returns (events: seq<string>)
      requires Valid() && Unfinished(Left())
      requires forall c <- chunks :: NUL !in c && 0 < |c| <= MAX_CHARS
      modifies inBuffer
      ensures Valid()
      ensures Received(events, Left()) == Run(old(Left()), chunks)
    {
      hide Feed, Unfinished, Text, Run;
      ghost var all := Run(Left(), chunks);
      events := [];
      assert chunks[0..] == chunks && [] + all.msgs == all.msgs;
      for i := 0 to |chunks|
        invariant Valid() && Unfinished(Left())
        invariant events + Run(Left(), chunks[i..]).msgs == all.msgs
        invariant Run(Left(), chunks[i..]).left == all.left
      {
        RunNext(Left(), chunks, i);
        FeedLeft(Left(), chunks[i]);
        assert chunks[i] in chunks;
        var more := ProcessData(chunks[i]);
        Associative(events, more, Run(Left(), chunks[i + 1..]).msgs);
        events := events + more;
      }
      RunOver(Left(), chunks, events);
    }
  }

  lemma RunOver(left: string, chunks: seq<string>, events: seq<string>)
    ensures Run(left, chunks[|chunks|..]) == Received([], left) && events + [] == events
  {
  }

  lemma OverflowClears(left: string, chunk: string)
    requires Unfinished(left)
    ensures |left| + |chunk| > MAX_CHARS ==> Feed(left, chunk) == Received([], "")
  {
  }

  lemma RunNext(left: string, chunks: seq<string>, i: nat)
    requires i < |chunks|
    ensures var now := Feed(left, chunks[i]); var rest := Run(now.left, chunks[i + 1..]);
            Run(left, chunks[i..]) == Received(now.msgs + rest.msgs, rest.left)
  {
    assert chunks[i..][1..] == chunks[i + 1..];
  }

  lemma MessagesBelowLimit(s: string)
    requires |s| <= MAX_CHARS
    ensures MessagesBelow(s, CRLF, LINE_CHARS + 1)
  {
    SplitCuts(s, CRLF);
    MessagesFit(Split(s, CRLF).msgs);
  }
}
