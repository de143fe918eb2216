/** From the client's command to the server's command tokens: building, writing, any chunking,
    tagging, decoding and parsing put together. */
module EndToEnd {
  import opened Framing
  import opened TransportSpec
  import opened Tokens
  import opened Concat
  import opened IrcMessages
  import opened CommandParser
  import opened FdTag

  /** What the event queue holds for the messages of a connection, decoded again. */
  function Events(fd: nat, msgs: seq<string>): (r: seq<Decoded>)
    ensures |r| == |msgs|
    ensures forall i :: 0 <= i < |r| ==> r[i] == Decode(Encode(fd, msgs[i], LINE_CHARS + 1))
  {
    seq(|msgs|, i requires 0 <= i < |msgs| => Decode(Encode(fd, msgs[i], LINE_CHARS + 1)))
  }

  /** Sendable lines, in any chunks that find room, become events one by one and in order; a
      line arrives as it was sent exactly when it has no bar and fits together with its tag. */
  lemma LinesArrive(fd: nat, lines: seq<string>, chunks: seq<string>)
    requires fd < 1_000_000_000 && forall m <- lines :: Sendable(m)
    requires Flatten(chunks) == Sent(lines) && Room("", chunks)
    ensures var r := Run("", chunks);
            && r.left == "" && |r.msgs| == |lines|
            && forall i :: 0 <= i < |lines| ==>
                 (Events(fd, r.msgs)[i] == Tagged(fd, lines[i]) <==>
                    DELIM !in lines[i] && |Tag(fd, lines[i])| <= LINE_CHARS)
  {
    hide Run, Decode, Encode, Tag, Sendable, Room;
    Transported(lines, chunks);
    forall i | 0 <= i < |lines|
      ensures Events(fd, lines)[i] == Tagged(fd, lines[i]) <==>
              DELIM !in lines[i] && |Tag(fd, lines[i])| <= LINE_CHARS
    {
      TagRoundTrip(fd, lines[i], LINE_CHARS + 1);
    }
  }

  function Lines(ms: seq<Message>, size: nat): (r: seq<string>)
    requires size > 0 && forall m <- ms :: m.Valid()
    ensures |r| == |ms| && forall i :: 0 <= i < |r| ==> r[i] == ms[i].Line(size)
  {
    seq(|ms|, i requires 0 <= i < |ms| => ms[i].Line(size))
  }

  /** The command and arguments a message is made of. */
  function Meant(m: Message): Parsed
    requires m.Valid()
  {
    var words := Words(m.body);
    if words == [] then Parsed(Null, [], -1)
    else Parsed(Chars(words[0]), words[1..] + [":" + Part(m.suffix)], |words|)
  }

  /** A message the server can understand: its line can be sent, has no bar and leaves room for
      the tag, and its text does not end with a space. */
  predicate Understandable(m: Message, size: nat, fd: nat)
    requires size > 0 && m.Valid()
  {
    && Spoken(m, size) && !EndsIn(Part(m.suffix), ' ')
    && Sendable(m.Line(size)) && DELIM !in m.Line(size) && |Tag(fd, m.Line(size))| <= LINE_CHARS
  }

  lemma OneParses(m: Message, size: nat, fd: nat)
    requires size > 0 && m.Valid() && Understandable(m, size, fd)
    ensures var line := m.Line(size);
            && Sendable(line) && DELIM !in line && |Tag(fd, line)| <= LINE_CHARS && Parse(line) == Meant(m)
  {
    hide Parse, Part, Words, Sendable, Tag;
    ParseUndoesCreate(m, size);
  }

  /** The server parses exactly the commands the client built, in order, however the bytes were
      cut on the way. */
  lemma CommandsArrive(fd: nat, ms: seq<Message>, size: nat, chunks: seq<string>)
    requires fd < 1_000_000_000 && size > 0
    requires forall m <- ms :: m.Valid()
    requires forall m <- ms :: Understandable(m, size, fd)
    requires Flatten(chunks) == Sent(Lines(ms, size)) && Room("", chunks)
    ensures var events := Events(fd, Run("", chunks).msgs);
            && |events| == |ms|
            && forall i :: 0 <= i < |ms| ==>
                 events[i].Tagged? && events[i].fd == fd && Parse(events[i].text) == Meant(ms[i])
  {
    hide Run, Parse, Sendable, Room, Meant, Tag, Decode, Encode, Understandable, Message.Line, Message.Valid, Sent, Flatten;
    var lines := Lines(ms, size);
    AllSendable(fd, ms, size);
    LinesArrive(fd, lines, chunks);
    forall i | 0 <= i < |ms|
      ensures DELIM !in lines[i] && |Tag(fd, lines[i])| <= LINE_CHARS && Parse(lines[i]) == Meant(ms[i])
    {
      assert ms[i] in ms;
      OneParses(ms[i], size, fd);
    }
  }

  lemma AllSendable(fd: nat, ms: seq<Message>, size: nat)
    requires size > 0 && forall m <- ms :: m.Valid()
    requires forall m <- ms :: Understandable(m, size, fd)
    ensures forall line <- Lines(ms, size) :: Sendable(line)
  {
    hide Parse, Sendable, Tag, Message.Line, Message.Valid, Understandable, Meant;
    var lines := Lines(ms, size);
    forall line | line in lines
      ensures Sendable(line)
    {
      var i :| 0 <= i < |lines| && lines[i] == line;
      assert ms[i] in ms;
      OneParses(ms[i], size, fd);
    }
  }
}
