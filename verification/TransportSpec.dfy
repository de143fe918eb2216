/** What a peer puts on the wire for a message, and when the other side recovers it. */
module TransportSpec {
  import opened CString
  import opened Framing

  predicate EndsWith(s: string, t: string)
  {
    |t| <= |s| && s[|s| - |t|..] == t
  }

  /** What is_terminated answers: on a string shorter than the terminator it compares only
      the characters there are. */
  predicate LooksTerminated(s: string, term: string)
  {
    EndsWith(s, term) || EndsWith(term, s)
  }

  /** The bytes written for one message: a message that already looks terminated is sent as it
      is, and one that does not fit with its terminator is not sent at all. */
  function Wire(m: string): string
  {
    if LooksTerminated(m, CRLF) then m
    else if |m| + |CRLF| < MAX_CHARS + 1 then m + CRLF
    else ""
  }

  function Sent(msgs: seq<string>): string
  {
    if msgs == [] then "" else Wire(msgs[0]) + Sent(msgs[1..])
  }

  predicate Sendable(m: string)
  {
    && m != "" && m != "\n"
    && Index(m, CRLF) < 0
    && |m| <= MAX_CHARS - |CRLF|
  }

  lemma LooksTerminatedCases(m: string)
    ensures LooksTerminated(m, CRLF) <==> m == "" || m == "\n" || EndsWith(m, CRLF)
  {
    assert CRLF[2..] == "" && CRLF[1..] == "\n" && CRLF[0..] == CRLF;
  }

  lemma LineEnd(m: string)
    requires Index(m, CRLF) < 0
    ensures Index(m + CRLF, CRLF) == |m|
  {
    var t := m + CRLF;
    assert t[|m|..|m| + 2] == CRLF;
    forall j: nat | j < |m|
      ensures !At(t, CRLF, j)
    {
      if j + 1 == |m| {
        assert t[j..j + 2][1] == '\r';
      } else {
        assert t[j..j + 2] == m[j..j + 2];
        assert !At(m, CRLF, j);
      }
    }
    IndexIs(t, CRLF, |m|);
  }

  /** A message that ends with CR-LF is sent as it is, and so are the empty message and a lone
      line feed, which look terminated; any other message is sent with CR-LF behind it when
      both fit, and not at all when they do not. */
  lemma WireReads(m: string)
    ensures var asIs := m == "" || m == "\n" || (|m| >= 2 && m[|m| - 2] == '\r' && m[|m| - 1] == '\n');
            Wire(m) == if asIs then m else if |m| <= 510 then m + "\r\n" else ""
  {
    hide LooksTerminated;
    LooksTerminatedCases(m);
    if |m| >= 2 {
      assert m[|m| - 2..] == [m[|m| - 2], m[|m| - 1]];
    }
  }

  lemma NoLineEnd(m: string)
    requires Index(m, CRLF) < 0
    ensures !EndsWith(m, CRLF)
  {
    hide IndexFrom;
    IndexFirst(m, CRLF);
    assert EndsWith(m, CRLF) ==> At(m, CRLF, |m| - 2);
  }

  lemma SendableRecovered(m: string)
    requires Sendable(m)
    ensures Wire(m) == m + CRLF && Split(Wire(m), CRLF) == Received([m], "")
  {
    hide Index, Split, LooksTerminated;
    LooksTerminatedCases(m);
    NoLineEnd(m);
    LineEnd(m);
    OneMessage(m);
    CutUnique(m + CRLF, CRLF, Received([m], ""));
  }

  lemma OneMessage(m: string)
    ensures Stream([m], CRLF) + "" == m + CRLF && Index("", CRLF) < 0
  {
    assert [m][1..] == [];
  }

  lemma RecoveredSendable(m: string)
    requires Split(Wire(m), CRLF) == Received([m], "")
    ensures Sendable(m)
  {
    hide Index, Split, LooksTerminated;
    LooksTerminatedCases(m);
    SplitCuts(Wire(m), CRLF);
    OneMessage(m);
    assert [m][0] in [m];
    if Index(m, CRLF) >= 0 {
      IndexAppend(m, CRLF, CRLF);
    }
  }

  /** The receiver gets back exactly the message sent if and only if the message is sendable. */
  lemma WireRecovered(m: string)
    ensures Split(Wire(m), CRLF) == Received([m], "") <==> Sendable(m)
  {
    hide Wire, Split, Sendable;
    if Sendable(m) {
      SendableRecovered(m);
    } else if Split(Wire(m), CRLF) == Received([m], "") {
      RecoveredSendable(m);
    }
  }

  lemma SentFirst(m: string, rest: seq<string>)
    requires Sendable(m)
    ensures Split(Wire(m) + Sent(rest), CRLF) ==
            var r := Split(Sent(rest), CRLF); Received([m] + r.msgs, r.left)
    ensures Wire(m) + Sent(rest) == m + CRLF + Sent(rest)
  {
    hide Wire, Split, Sendable, Sent;
    SendableRecovered(m);
    SplitAppend(Wire(m), Sent(rest), CRLF);
    assert "" + Sent(rest) == Sent(rest);
  }

  lemma {:induction false} SentIsStream(msgs: seq<string>)
    requires forall m <- msgs :: Sendable(m)
    ensures Sent(msgs) == Stream(msgs, CRLF)
    ensures Split(Sent(msgs), CRLF) == Received(msgs, "")
  {
    hide Wire, Sendable, Split;
    if msgs == [] {
      NothingSent();
    } else {
      assert msgs[0] in msgs && forall m <- msgs[1..] :: m in msgs;
      SentIsStream(msgs[1..]);
      SentFirst(msgs[0], msgs[1..]);
      assert [msgs[0]] + msgs[1..] == msgs;
    }
  }

  lemma NothingSent()
    ensures Split("", CRLF) == Received([], "")
  {
  }

  /** Every chunk fits behind what is stored when it arrives. */
  predicate Room(left: string, chunks: seq<string>)
    decreases |chunks|
  {
    chunks != [] ==>
      && |left| + |chunks[0]| <= MAX_CHARS
      && Room(Split(left + chunks[0], CRLF).left, chunks[1..])
  }

  predicate ShortLines(s: string)
  {
    var whole := Split(s, CRLF);
    whole.left == "" && forall m <- whole.msgs :: |m| <= MAX_CHARS - |CRLF|
  }

  lemma ShortLinesAfter(s: string, t: string)
    requires ShortLines(s + t)
    ensures ShortLines(Split(s, CRLF).left + t)
  {
    SplitAppend(s, t, CRLF);
    var a := Split(s, CRLF);
    var b := Split(a.left + t, CRLF);
    forall m | m in b.msgs
      ensures |m| <= MAX_CHARS - |CRLF|
    {
      assert m in a.msgs + b.msgs;
    }
  }

  /** A chunk that finds room on such a stream is fed whole. */
  lemma FeedWhole(left: string, chunk: string, t: string)
    requires Unfinished(left) && |left| + |chunk| <= MAX_CHARS && ShortLines(left + chunk + t)
    ensures var s := left + chunk;
            && (Index(s, CRLF) < 0 ==> |s| < MAX_CHARS)
            && Unfinished(Split(s, CRLF).left) && ShortLines(Split(s, CRLF).left + t)
  {
    hide Index, Split, ShortLines;
    var s := left + chunk;
    if Index(s, CRLF) < 0 {
      FeedShort(s, t);
    }
    ShortLinesAfter(s, t);
    FeedLeft(left, chunk);
  }

  /** On a stream of lines of at most 510 characters the buffer never fills up. */
  lemma {:induction false} LinesFit(left: string, chunks: seq<string>)
    requires Unfinished(left) && Room(left, chunks)
    requires ShortLines(left + Flatten(chunks))
    ensures Fits(left, chunks)
    decreases |chunks|
  {
    hide Index, Split, ShortLines, Unfinished;
    if chunks != [] {
      FlattenFirst(left, chunks);
      FeedWhole(left, chunks[0], Flatten(chunks[1..]));
      LinesFit(Split(left + chunks[0], CRLF).left, chunks[1..]);
    }
  }

  lemma FeedShort(s: string, t: string)
    requires Index(s, CRLF) < 0 && ShortLines(s + t)
    ensures |s| < MAX_CHARS
  {
    var whole := Split(s + t, CRLF);
    if whole.msgs != [] {
      var i := Index(s + t, CRLF);
      assert whole.msgs[0] == (s + t)[..i];
      if i + 2 <= |s| {
        assert s[i..i + 2] == (s + t)[i..i + 2];
        assert At(s, CRLF, i);
      }
    }
  }

  /** End to end: sendable messages, written one after the other and read in any chunks that
      find room, are recovered in order with nothing lost, added or merged. */
  lemma Transported(msgs: seq<string>, chunks: seq<string>)
    requires forall m <- msgs :: Sendable(m)
    requires Flatten(chunks) == Sent(msgs) && Room("", chunks)
    ensures Run("", chunks) == Received(msgs, "")
  {
    SentIsStream(msgs);
    assert "" + Flatten(chunks) == Sent(msgs);
    LinesFit("", chunks);
    RunWhenFits("", chunks);
  }
}
