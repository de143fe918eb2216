/** Building an IRC message from its tokens, and the message format (section 2.3.1 of
    RFC 1459). */
module IrcMessages {
  import opened CString
  import opened Framing
  import opened StringUtils
  import opened Tokens
  import opened Concat

  const MAX_TOKENS: nat := 5
  const MAX_PREFIX: nat := 64

  /** prepend_char, used in place. Downward, so that no character is overwritten before it
      is moved. */
  method PrependChar(buffer: array<char>, size: nat, ch: char)
    requires IsCString(buffer[..]) && ch != NUL
    requires |Text(buffer[..])| + 1 <= size ==> |Text(buffer[..])| + 1 < buffer.Length
    modifies buffer
    ensures IsCString(buffer[..])
    ensures var s := old(Text(buffer[..]));
            Text(buffer[..]) == if |s| + 1 <= size then [ch] + s else s
  {
    hide Text;
    ghost var was, s := buffer[..], Text(buffer[..]);
    var len := |Text(buffer[..])|;
    if len + 1 <= size {
      var i := len;
      while i >= 0
        invariant -1 <= i <= len
        invariant forall k :: i + 1 < k <= len + 1 ==> buffer[k] == was[k - 1]
        invariant forall k :: 0 <= k <= i + 1 ==> buffer[k] == was[k]
      {
        buffer[i + 1] := buffer[i];
        i := i - 1;
      }
      buffer[0] := ch;
      assert was[len] == NUL && was[..len] == s;
      assert buffer[len + 1] == NUL;
      assert buffer[..][..len + 1] == [ch] + s;
      TextIs(buffer[..], len + 1);
    }
  }

  /** The words of one part of a message, separated by a space. */
  function Part(tokens: seq<Token>): string
    requires |tokens| == MAX_TOKENS
  {
    if tokens[0].Null? then "" else Concatenated("", Words(tokens), " ", MAX_CHARS + 1)
  }

  function Prefix(info: string): string
  {
    if info == "" then "" else ":" + info
  }

  function Suffix(tokens: seq<Token>, multiWord: bool): string
    requires |tokens| == MAX_TOKENS
  {
    var u := Part(tokens);
    if multiWord && |u| + 1 <= MAX_CHARS then ":" + u else u
  }

  datatype Message = Message(info: string, body: seq<Token>, suffix: seq<Token>, multiWord: bool)
  {
    predicate Valid()
    {
      && |body| == MAX_TOKENS && |suffix| == MAX_TOKENS
      && NUL !in info && |info| < MAX_PREFIX
      && NulFree(body) && NulFree(suffix)
    }

    predicate Fits(size: nat)
      requires Valid()
    {
      |Prefix(info)| + |Part(body)| + |Suffix(suffix, multiWord)| + 2 <= size
    }

    function Parts(): seq<string>
      requires Valid()
    {
      Words([Chars(Prefix(info)), Chars(Part(body)), Chars(Suffix(suffix, multiWord))])
    }

    /** The line as it is written to an empty buffer. */
    function Line(size: nat): string
      requires Valid() && size > 0
    {
      Concatenated("", Parts(), " ", size)
    }
  }

  predicate NulFree(tokens: seq<Token>)
  {
    forall t <- tokens :: t.Chars? ==> NUL !in t.text
  }

  lemma {:induction false} FilledNulFree(words: seq<string>, d: string)
    requires NUL !in d && forall w <- words :: NUL !in w
    ensures NUL !in Filled(words, d)
  {
    if words != [] {
      assert words[0] in words;
      FilledNulFree(words[1..], d);
    }
  }

  lemma PartFits(tokens: seq<Token>)
    requires |tokens| == MAX_TOKENS && NulFree(tokens)
    ensures |Part(tokens)| <= MAX_CHARS && NUL !in Part(tokens)
  {
    hide Words, Filled;
    WordsFrom(tokens);
    FilledNulFree(Words(tokens), " ");
  }

  /** Writes one part of the message to an empty buffer. */
  method WritePart(tokens: seq<Token>) returns (part: array<char>)
    requires |tokens| == MAX_TOKENS && NulFree(tokens)
    ensures fresh(part) && part.Length == MAX_CHARS + 1
    ensures IsCString(part[..]) && Text(part[..]) == Part(tokens)
  {
    part := new char[MAX_CHARS + 1](_ => NUL);
    assert part[0] == NUL && Text(part[..]) == "";
    hide Text, Words;
    if tokens[0].Chars? {
      var _ := ConcatTokens(part, MAX_CHARS + 1, tokens, " ");
    }
  }

  /** The prefix the callback has written, with a colon in front unless it is empty. */
  method WritePrefix(info: string) returns (prefix: array<char>)
    requires NUL !in info && |info| < MAX_PREFIX
    ensures fresh(prefix) && IsCString(prefix[..]) && Text(prefix[..]) == Prefix(info)
  {
    prefix := new char[MAX_PREFIX + 1](_ => NUL);
    assert prefix[..0] == "";
    var _ := SafeCopy(prefix, 0, MAX_PREFIX, info);
    hide Text;
    if |Text(prefix[..])| > 0 {
      PrependChar(prefix, MAX_CHARS, ':');
    }
  }

  /** create_irc_message. */
  method CreateIrcMessage(buffer: array<char>, size: nat, message: Message)
    requires message.Valid()
    requires IsCString(buffer[..]) && |Text(buffer[..])| < size <= buffer.Length
    modifies buffer
    ensures IsCString(buffer[..])
    ensures message.Fits(size) ==> Text(buffer[..]) == Concatenated(old(Text(buffer[..])), message.Parts(), " ", size)
    ensures !message.Fits(size) ==> buffer[..] == old(buffer[..])
  {
    hide Text, Words, Concatenated, NulFree;
    ghost var was := buffer[..];
    PartFits(message.body);
    PartFits(message.suffix);
    var prefix := WritePrefix(message.info);
    var body := WritePart(message.body);
    var suffix := WritePart(message.suffix);
    if message.multiWord {
      PrependChar(suffix, MAX_CHARS, ':');
    }
    var p, b, s := Text(prefix[..]), Text(body[..]), Text(suffix[..]);
    assert buffer[..] == was;
    assert s == Suffix(message.suffix, message.multiWord);
    if |p| + |b| + |s| + 2 <= size {
      var _ := ConcatTokens(buffer, size, [Chars(p), Chars(b), Chars(s)], " ");
    }
  }

  /** The length test lets through one character more than there is room for: the line is the
      parts separated by spaces, unless all three are there and it is exactly as long as the
      test allows. */
  lemma LineIsJoin(m: Message, size: nat)
    requires m.Valid() && m.Fits(size) && m.Parts() != []
    requires !EndsIn(Join(m.Parts(), ' '), ' ')
    ensures |Join(m.Parts(), ' ')| <= size
    ensures m.Line(size) == Join(m.Parts(), ' ') <==> |Join(m.Parts(), ' ')| < size
    ensures |Join(m.Parts(), ' ')| == size ==>
              |m.Parts()| == 3 && |Prefix(m.info)| + |Part(m.body)| + |Suffix(m.suffix, m.multiWord)| + 2 == size
  {
    hide Part, Prefix, Suffix, Concatenated, Join, Words;
    ConcatenatedIsJoin(m.Parts(), ' ', size);
    var p, b, s := Prefix(m.info), Part(m.body), Suffix(m.suffix, m.multiWord);
    ThreeWords(p, b, s);
    ThreeJoined(p, b, s);
  }

  // ----- the line in plain words

  /** The words of a list that has a first entry, separated by a space. */
  function Spaced(tokens: seq<Token>): string
    requires |tokens| == MAX_TOKENS
  {
    if tokens[0].Null? then "" else Join(Words(tokens), ' ')
  }

  lemma PartReads(tokens: seq<Token>)
    requires |tokens| == MAX_TOKENS && |Spaced(tokens)| < MAX_CHARS
    ensures Part(tokens) == Spaced(tokens)
  {
    hide Join, Words, Concatenated;
    if tokens[0].Chars? {
      if Words(tokens) == [] {
        NothingJoined();
      } else {
        ConcatenatedReads("", Words(tokens), ' ', MAX_CHARS + 1);
        assert "" + Join(Words(tokens), ' ') == Join(Words(tokens), ' ');
      }
    }
  }

  lemma NothingJoined()
    ensures Join([], ' ') == "" && Concatenated("", [], " ", MAX_CHARS + 1) == ""
  {
  }

  /** Up to three parts, with a space between those that are not empty. */
  lemma ThreeParts(p: string, b: string, s: string, size: nat)
    requires size > 0
    ensures var x := p + (if p != "" && (b != "" || s != "") then " " else "") +
                     b + (if b != "" && s != "" then " " else "") + s;
            Concatenated("", Words([Chars(p), Chars(b), Chars(s)]), " ", size) ==
            if |x| + 1 < size then x else Unended(Clip(x, size - 1), ' ')
  {
    var words := Words([Chars(p), Chars(b), Chars(s)]);
    ThreeWords(p, b, s);
    hide Words, Join, Concatenated;
    ThreeJoined(p, b, s);
    if words != [] {
      ConcatenatedReads("", words, ' ', size);
      assert "" + Join(words, ' ') == Join(words, ' ');
    } else {
      NoWords(size);
    }
  }

  lemma NoWords(size: nat)
    requires size > 0
    ensures Concatenated("", [], " ", size) == ""
  {
  }

  lemma ThreeWords(p: string, b: string, s: string)
    ensures Words([Chars(p), Chars(b), Chars(s)]) ==
            (if p == "" then [] else [p]) + (if b == "" then [] else [b]) + (if s == "" then [] else [s])
  {
    var t := [Chars(p), Chars(b), Chars(s)];
    assert t[1..] == [Chars(b), Chars(s)] && t[1..][1..] == [Chars(s)] && t[1..][1..][1..] == [];
    assert Words(t[1..][1..]) == if s == "" then [] else [s];
    assert Words(t[1..]) == (if b == "" then [] else [b]) + Words(t[1..][1..]);
    assert Words(t) == (if p == "" then [] else [p]) + Words(t[1..]);
  }

  lemma ThreeJoined(p: string, b: string, s: string)
    ensures Join((if p == "" then [] else [p]) + (if b == "" then [] else [b]) + (if s == "" then [] else [s]), ' ') ==
            p + (if p != "" && (b != "" || s != "") then " " else "") + b + (if b != "" && s != "" then " " else "") + s
  {
    hide Join;
    var words := (if p == "" then [] else [p]) + (if b == "" then [] else [b]) + (if s == "" then [] else [s]);
    NothingJoined();
    if p != "" && b != "" && s != "" {
      JoinThree(p, b, s, ' ');
      assert words == [p, b, s];
    } else if p != "" && b != "" {
      JoinTwo(p, b, ' ');
      assert words == [p, b];
    } else if p != "" && s != "" {
      JoinTwo(p, s, ' ');
      assert words == [p, s];
    } else if b != "" && s != "" {
      JoinTwo(b, s, ' ');
      assert words == [b, s];
    } else {
      var x := if p != "" then p else if b != "" then b else s;
      JoinOne(x, ' ');
      assert words == if x == "" then [] else [x];
      assert p + "" + b + "" + s == x;
    }
  }

  /** The line of any message: a colon and the prefix, unless there is none; the words of the
      body; and the words of the suffix, behind a colon when they are many. They stand in this
      order with a space between those that are not empty. When there is no room for one
      character more the line is clipped, and may lose a space it then ends with. */
  lemma LineReads(m: Message, size: nat)
    requires m.Valid() && size > 0
    requires |Spaced(m.body)| < MAX_CHARS && |Spaced(m.suffix)| < MAX_CHARS
    ensures var p := if m.info == "" then "" else ":" + m.info;
            var b := Spaced(m.body);
            var s := (if m.multiWord then ":" else "") + Spaced(m.suffix);
            var x := p + (if p != "" && (b != "" || s != "") then " " else "") +
                     b + (if b != "" && s != "" then " " else "") + s;
            && (m.Fits(size) <==> |p| + |b| + |s| + 2 <= size)
            && m.Line(size) == if |x| + 1 < size then x else Unended(Clip(x, size - 1), ' ')
  {
    hide Part, Spaced, Words, Concatenated, NulFree;
    PartReads(m.body);
    PartReads(m.suffix);
    ThreeParts(Prefix(m.info), Part(m.body), Suffix(m.suffix, m.multiWord), size);
    assert "" + Spaced(m.suffix) == Spaced(m.suffix);
  }
}
