/** Taking a command and its arguments out of a message (parse_message), and how that undoes
    the building of one. */
module CommandParser {
  import opened CString
  import opened Framing
  import opened StringUtils
  import opened Tokens
  import opened Tokenizer
  import opened Concat
  import opened IrcMessages

  // ----- count_tokens

  /** Spaces before the stop character, not counting one at the very end of the string. */
  function Spaces(s: string, stop: char): nat
  {
    if s == "" || s[0] == stop then 0
    else (if s[0] == ' ' && |s| > 1 then 1 else 0) + Spaces(s[1..], stop)
  }

  function TokenCount(s: string, stop: char): nat
  {
    if s == "" then 0 else 1 + Spaces(s, stop)
  }

  /** The first character of the delimiter; a string never holds NUL, so without one nothing
      stops the count. */
  function StopChar(delim: Token): char
  {
    if delim.Null? || delim.text == "" then NUL else delim.text[0]
  }

  method CountTokens(s: string, delim: Token) returns (count: nat)
    requires NUL !in s
    ensures count == TokenCount(s, StopChar(delim))
  {
    count := if |s| > 0 then 1 else 0;
    var p := 0;
    assert s[0..] == s;
    while p < |s| && (delim.Null? || s[p] != StopChar(delim))
      invariant p <= |s|
      invariant count + Spaces(s[p..], StopChar(delim)) == TokenCount(s, StopChar(delim))
    {
      assert s[p..][1..] == s[p + 1..];
      if s[p] == ' ' && p + 1 < |s| {
        count := count + 1;
      }
      p := p + 1;
    }
  }

  /** Text without spaces and colons adds no token. */
  lemma {:induction false} SpacesWord(w: string, rest: string)
    requires ' ' !in w && ':' !in w
    ensures Spaces(w + rest, ':') == Spaces(rest, ':')
  {
    if w == "" {
      assert w + rest == rest;
    } else {
      assert (w + rest)[1..] == w[1..] + rest;
      SpacesWord(w[1..], rest);
    }
  }

  predicate CommandWord(w: string)
  {
    w != "" && ' ' !in w && ':' !in w
  }

  /** One space is counted after every word when something follows. */
  lemma {:induction false} SpacesFilled(words: seq<string>, rest: string)
    requires rest != "" && forall w <- words :: CommandWord(w)
    ensures Spaces(Filled(words, " ") + rest, ':') == |words| + Spaces(rest, ':')
  {
    if words == [] {
      assert Filled(words, " ") + rest == rest;
    } else {
      var w, more := words[0], Filled(words[1..], " ") + rest;
      assert w in words;
      assert Filled(words, " ") + rest == w + (" " + more);
      SpacesWord(w, " " + more);
      assert (" " + more)[1..] == more;
      SpacesFilled(words[1..], rest);
    }
  }

  lemma {:induction false} NoSpaces(s: string)
    requires ' ' !in s
    ensures Spaces(s, ':') == 0
  {
    if s != "" {
      NoSpaces(s[1..]);
    }
  }

  // ----- parse_message

  /** `Exited`: a token that was counted is not there, and the program ends. */
  datatype Parsed = Parsed(command: Token, args: seq<string>, argCount: int) | Exited

  function Limit(n: nat): nat
  {
    if n > MAX_TOKENS then MAX_TOKENS else n
  }

  /** What the command tokens hold after parsing a string. */
  function Parse(s: string): (r: Parsed)
    ensures r.Parsed? ==> |r.args| < MAX_TOKENS
  {
    var k := Limit(TokenCount(s, ':'));
    if k == 0 then Parsed(Null, [], -1)
    else
      var pieces := Tokenized(s, k, ' ');
      if |pieces| < k then Exited else Parsed(Chars(pieces[0]), pieces[1..], k - 1)
  }

  class CommandTokens {
    const input: array<char>
    var command: int
    const args: array<int>
    var argCount: int

    /** The pointers are offsets into the input; -1 is NULL. */
    ghost predicate Valid()
      reads this, input, args
    {
      && input.Length == MAX_CHARS + 1 && args.Length == MAX_TOKENS && IsCString(input[..])
      && command < input.Length
      && forall i :: 0 <= i < args.Length ==> args[i] < input.Length
    }

    function Pointed(p: int): Token
      reads input
      requires p < input.Length
    {
      if p < 0 then Null else Chars(Text(input[p..]))
    }

    constructor ()
      ensures Valid() && fresh(input) && fresh(args)
      ensures Text(input[..]) == "" && command == -1 && argCount == 0
      ensures forall i :: 0 <= i < MAX_TOKENS ==> args[i] == -1
    {
      input := new char[MAX_CHARS + 1](_ => NUL);
      args := new int[MAX_TOKENS](_ => -1);
      command, argCount := -1, 0;
      new;
      assert input[0] == NUL;
      assert Text(input[..]) == "";
    }

    /** The command tokens hold a parsed command; the arguments past it are left alone. */
    ghost predicate Holds(r: Parsed)
      reads this, input, args
      requires Valid() && r.Parsed?
    {
      && Pointed(command) == r.command && argCount == r.argCount
      && |r.args| <= MAX_TOKENS
      && forall i :: 0 <= i < |r.args| ==> Pointed(args[i]) == Chars(r.args[i])
    }

    /** `failed`: set_command_argument gets a token that is not there and ends the program. */
    method ParseMessage(message: string, maxChars: nat) returns (failed: bool)
      requires Valid() && NUL !in message && maxChars <= MAX_CHARS
      modifies this, input, args
      ensures var s := if |message| <= maxChars then message else old(Text(input[..]));
              && failed == Parse(s).Exited?
              && (!failed ==> Valid() && Holds(Parse(s)))
      ensures forall i :: 0 <= i < MAX_TOKENS && argCount <= i ==> args[i] == old(args[i])
    {
      hide Text, Tokenized, TokenCount, Points;
      assert input[..0] + message == message;
      var _ := SafeCopy(input, 0, maxChars + 1, message);
      ghost var s := Text(input[..]);
      var tkCount := CountTokens(Text(input[..]), Chars(":"));
      SomeText(s);
      if tkCount > MAX_TOKENS {
        tkCount := MAX_TOKENS;
      }
      var tokens, _ := TokenizeString(input, tkCount, ' ');
      command := if |tokens| > 0 then tokens[0] else -1;
      failed := SetArguments(tokens, tkCount);
      argCount := tkCount - 1;
      if tkCount > 0 {
        PointedPieces(input[..], tokens, Tokenized(s, tkCount, ' '));
      }
    }

    /** Stores the tokens behind the first as arguments, up to the first that is missing. */
    method SetArguments(tokens: seq<nat>, tkCount: nat) returns (failed: bool)
      requires args.Length == MAX_TOKENS && tkCount <= MAX_TOKENS
      modifies args
      ensures failed == (0 < |tokens| < tkCount || (tkCount > 1 && |tokens| == 0))
      ensures !failed ==> forall i :: 0 <= i < tkCount - 1 ==> args[i] == tokens[i + 1]
      ensures forall i :: 0 <= i < MAX_TOKENS && tkCount - 1 <= i ==> args[i] == old(args[i])
    {
      failed := false;
      var i := 0;
      while i < tkCount - 1 && !failed
        invariant 0 <= i && (tkCount > 0 ==> i < tkCount) && (tkCount == 0 ==> i == 0 && !failed)
        invariant failed ==> 0 < i && i >= |tokens|
        invariant !failed ==> i == 0 || i < |tokens|
        invariant !failed ==> forall j :: 0 <= j < i ==> j + 1 < |tokens| && args[j] == tokens[j + 1]
        invariant forall j :: i <= j < MAX_TOKENS ==> args[j] == old(args[j])
      {
        if i + 1 < |tokens| {
          args[i] := tokens[i + 1];
        } else {
          failed := true;
        }
        i := i + 1;
      }
    }

    lemma PointedPieces(bytes: seq<char>, tokens: seq<nat>, pieces: seq<string>)
      requires bytes == input[..] && Points(bytes, tokens, pieces)
      ensures |tokens| == |pieces|
      ensures forall j :: 0 <= j < |tokens| ==> tokens[j] < input.Length && Pointed(tokens[j]) == Chars(pieces[j])
    {
      hide Text;
      forall j | 0 <= j < |tokens|
        ensures tokens[j] < input.Length && Pointed(tokens[j]) == Chars(pieces[j])
      {
        assert input[tokens[j]..] == bytes[tokens[j]..];
      }
    }
  }

  lemma SomeText(s: string)
    ensures s == "" ==> TokenCount(s, ':') == 0
  {
  }

  // ----- when a counted token is missing

  /** Exactly when fewer delimiters are cut at than tokens were counted. */
  lemma ExitsWhen(s: string)
    ensures Parse(s).Exited? <==> 1 + Cuts(s, 0, ' ') < Limit(TokenCount(s, ':'))
  {
    hide Tokenized, Cuts, TokenCount;
    var k := Limit(TokenCount(s, ':'));
    if k > 0 {
      PiecesOf(s, k);
    }
  }

  lemma PiecesOf(s: string, k: nat)
    requires k > 0
    ensures |Tokenized(s, k, ' ')| == if 1 + Cuts(s, 0, ' ') < k then 1 + Cuts(s, 0, ' ') else k
  {
    PieceCount("", s, 0, k, ' ');
  }

  /** The spaces in front of the first stop character, but for one at the end of the string. */
  lemma {:induction false} SpacesExact(s: string, stop: char, p: nat)
    requires stop != ' ' && p <= |s| && stop !in s[..p] && (p < |s| ==> s[p] == stop)
    ensures Spaces(s, stop) == multiset(s[..p])[' '] - if p == |s| && EndsIn(s, ' ') then 1 else 0
  {
    if p > 0 {
      var t := s[1..];
      assert s[..p] == [s[0]] + t[..p - 1] && s[0] in s[..p];
      assert forall c <- t[..p - 1] :: c in s[..p];
      SpacesExact(t, stop, p - 1);
    }
  }

  lemma {:induction false} SpacesCounted(s: string)
    ensures Spaces(s, ':') <= Count(s, ' ')
    ensures ':' !in s && !EndsIn(s, ' ') ==> Spaces(s, ':') == Count(s, ' ')
  {
    if s != "" {
      SpacesCounted(s[1..]);
    }
  }

  /** A line without a space in front or repeated never misses a token. */
  lemma NeverExits(s: string)
    requires !Repeats(s, ' ')
    ensures Parse(s).Parsed?
  {
    hide Cuts, Spaces, Repeats, Count, Parse;
    ExitsWhen(s);
    AllCut(s, ' ');
    SpacesCounted(s);
  }

  /** A line without a colon or a space at its end, and of at most five tokens, misses one
      exactly when it has a space in front or two in a row. */
  lemma ExitsOnRepeats(s: string)
    requires ':' !in s && !EndsIn(s, ' ') && TokenCount(s, ':') <= MAX_TOKENS
    ensures Parse(s).Exited? <==> Repeats(s, ' ')
  {
    hide Cuts, Spaces, Repeats, Count, Parse;
    ExitsWhen(s);
    AllCut(s, ' ');
    CutsBound(s, 0, ' ');
    SpacesCounted(s);
    if s == "" {
      NoRepeats(s, ' ');
    }
  }

  // ----- parsing undoes building

  /** A line of words only: up to four are taken apart, a fifth piece holds all the rest. */
  lemma WordsParse(words: seq<string>)
    requires words != [] && forall w <- words :: CommandWord(w)
    ensures var pieces := if |words| <= MAX_TOKENS then words
                          else words[..MAX_TOKENS - 1] + [Join(words[MAX_TOKENS - 1..], ' ')];
            Parse(Join(words, ' ')) == Parsed(Chars(words[0]), pieces[1..], |pieces| - 1)
  {
    hide Cut, Join, Spaces, Tokenized, Trimmed;
    var k := Limit(|words|);
    JoinCount(words);
    JoinRegular(words, k, ' ');
    CutJoin(words, k, ' ');
    RegularPieces(Join(words, ' '), k, ' ');
  }

  lemma JoinCount(words: seq<string>)
    requires words != [] && forall w <- words :: CommandWord(w)
    ensures TokenCount(Join(words, ' '), ':') == |words|
  {
    hide Spaces, Filled, Join, CommandWord;
    var n := |words| - 1;
    var last := words[n];
    assert words[..n] + [last] == words && last in words;
    SpacesOfWord(last);
    JoinFilled(words[..n], last);
    SpacesFilled(words[..n], last);
  }

  lemma SpacesOfWord(w: string)
    requires CommandWord(w)
    ensures w != "" && Spaces(w, ':') == 0
  {
    SpacesWord(w, "");
    assert w + "" == w;
    NoSpaces("");
  }

  lemma {:induction false} JoinFilled(words: seq<string>, last: string)
    ensures Join(words + [last], ' ') == Filled(words, " ") + last
  {
    var all := words + [last];
    if words != [] {
      assert all[1..] == words[1..] + [last];
      JoinFilled(words[1..], last);
      assert words[0] + " " + (Filled(words[1..], " ") + last) == Filled(words, " ") + last;
    } else {
      assert Filled(words, " ") + last == last;
    }
  }

  lemma SpacesStop(s: string)
    requires s != "" && s[0] == ':'
    ensures Spaces(s, ':') == 0
  {
  }

  lemma TextCount(words: seq<string>, last: string)
    requires last != "" && last[0] == ':' && forall w <- words :: CommandWord(w)
    ensures TokenCount(Join(words + [last], ' '), ':') == |words| + 1
  {
    hide Join, Spaces, Filled, CommandWord;
    JoinFilled(words, last);
    SpacesFilled(words, last);
    SpacesStop(last);
  }

  lemma ParsedPieces(s: string, pieces: seq<string>)
    requires 1 <= |pieces| <= MAX_TOKENS && TokenCount(s, ':') == |pieces|
    requires Cut(s, |pieces|, ' ') == pieces && Regular(s, |pieces|, ' ')
    ensures var t := Trimmed(pieces, ' '); Parse(s) == Parsed(Chars(t[0]), t[1..], |pieces| - 1)
  {
    hide Cut, TokenCount, Trimmed, Tokenized, Regular;
    RegularPieces(s, |pieces|, ' ');
  }

  /** Words, then a colon and any text. */
  lemma TextParse(words: seq<string>, last: string)
    requires 1 <= |words| < MAX_TOKENS && forall w <- words :: CommandWord(w)
    requires last != "" && last[0] == ':'
    ensures Parse(Join(words + [last], ' ')) == Parsed(Chars(words[0]), words[1..] + [Unended(last, ' ')], |words|)
  {
    hide Cut, Join, TokenCount, Parse, Trimmed, Unended, CommandWord, Regular;
    var all := words + [last];
    TextCount(words, last);
    WordsPlain(words);
    CutLast(words, last, ' ');
    LastRegular(words, last);
    TrimmedLast(words, last, ' ');
    ParsedPieces(Join(all, ' '), all);
  }

  lemma WordsPlain(words: seq<string>)
    requires forall w <- words :: CommandWord(w)
    ensures forall w <- words :: ' ' !in w && w != ""
  {
  }

  lemma LastRegular(words: seq<string>, last: string)
    requires forall w <- words :: w != ""
    requires Cut(Join(words + [last], ' '), |words| + 1, ' ') == words + [last]
    ensures Regular(Join(words + [last], ' '), |words| + 1, ' ')
  {
    hide Cut, Join;
    forall i | 0 <= i < |words|
      ensures (words + [last])[i] != ""
    {
      assert words[i] in words;
    }
  }

  lemma TrimmedLast(words: seq<string>, last: string, d: char)
    requires words != []
    ensures var r := Trimmed(words + [last], d); r[0] == words[0] && r[1..] == words[1..] + [Unended(last, d)]
  {
    var pieces := words + [last];
    assert pieces[..|pieces| - 1] == words;
  }

  /** A message without a prefix: command words, then a text of any words. */
  predicate Spoken(m: Message, size: nat)
  {
    && m.Valid() && m.info == "" && m.multiWord && size <= MAX_CHARS && m.Fits(size)
    && m.body[0].Chars? && 1 <= |Words(m.body)| < MAX_TOKENS
    && forall w <- Words(m.body) :: CommandWord(w)
  }

  lemma BodyIsJoin(m: Message, size: nat)
    requires Spoken(m, size)
    ensures Part(m.body) == Join(Words(m.body), ' ') != ""
    ensures Suffix(m.suffix, true) == ":" + Part(m.suffix)
  {
    hide Join, Words, Filled;
    var words := Words(m.body);
    JoinEnd(words, ' ');
    FilledJoin(words, ' ');
    ConcatenatedIsJoin(words, ' ', MAX_CHARS + 1);
    assert "" + Filled(words, " ") == Join(words, ' ') + " ";
  }

  /** Two parts that pass the length test; a space at the end may be lost. */
  lemma TwoJoined(b: string, c: string, size: nat)
    requires b != "" && c != "" && |b| + |c| + 2 <= size
    ensures var j := b + " " + c; var line := Concatenated("", [b, c], " ", size);
            line == j || (EndsIn(c, ' ') && line == j[..|j| - 1])
  {
    hide Join, Concatenated, Clip, Unended, EndsIn;
    var j := b + " " + c;
    ConcatenatedReads("", [b, c], ' ', size);
    JoinedEnd(b, c);
    JoinTwo(b, c, ' ');
    assert "" + Join([b, c], ' ') == j;
    ClippedEnd(j, c, size - 1);
  }

  lemma JoinedEnd(b: string, c: string)
    requires c != ""
    ensures EndsIn(b + " " + c, ' ') == EndsIn(c, ' ')
  {
  }

  lemma ClippedEnd(s: string, c: string, n: nat)
    requires |s| <= n && EndsIn(s, ' ') == EndsIn(c, ' ')
    ensures var t := Unended(Clip(s, n), ' ');
            t == s || (EndsIn(c, ' ') && t == s[..|s| - 1])
  {
  }

  /** The line holds the words and the text; a text that ends with a space may lose it. */
  lemma SpokenLine(m: Message, size: nat) returns (v: string)
    requires Spoken(m, size)
    ensures var u := Part(m.suffix);
            && (v == u || (EndsIn(u, ' ') && v == u[..|u| - 1]))
            && m.Line(size) == Join(Words(m.body) + [":" + v], ' ')
  {
    hide Part, Join, Concatenated, Words;
    BodyIsJoin(m, size);
    var b, u := Part(m.body), Part(m.suffix);
    var c := ":" + u;
    TwoParts(m, b, c);
    TwoJoined(b, c, size);
    v := u;
    if m.Line(size) != b + " " + c {
      v := u[..|u| - 1];
      assert (b + " " + c)[..|b + " " + c| - 1] == b + " " + (":" + v);
    }
    JoinAppend(Words(m.body), ":" + v, ' ');
  }

  lemma TwoParts(m: Message, b: string, c: string)
    requires m.Valid() && m.info == "" && b == Part(m.body) != "" && c == Suffix(m.suffix, m.multiWord) != ""
    ensures m.Parts() == [b, c]
  {
    hide Part, Suffix;
    var t := [Chars(""), Chars(b), Chars(c)];
    assert t[1..] == [Chars(b), Chars(c)] && t[1..][1..] == [Chars(c)] && t[1..][1..][1..] == [];
    assert Words(t[1..][1..]) == [c];
    assert Words(t[1..]) == [b] + [c];
  }

  lemma UnendedText(u: string, v: string)
    requires v == u || (EndsIn(u, ' ') && v == u[..|u| - 1])
    ensures Unended(":" + v, ' ') == ":" + u <==> !EndsIn(u, ' ')
  {
  }

  lemma LastDiffers(c: Token, words: seq<string>, x: string, y: string, n: int)
    ensures Parsed(c, words + [x], n) == Parsed(c, words + [y], n) <==> x == y
  {
    var k := |words|;
    assert (words + [x])[k] == x && (words + [y])[k] == y;
  }

  /** Parsing undoes building exactly when the text does not end with a space. */
  lemma ParseUndoesCreate(m: Message, size: nat)
    requires Spoken(m, size)
    ensures var words, u := Words(m.body), Part(m.suffix);
            Parse(m.Line(size)) == Parsed(Chars(words[0]), words[1..] + [":" + u], |words|) <==> !EndsIn(u, ' ')
  {
    hide Part, Join, Words, Parse, Unended, EndsIn, Message.Line, CommandWord;
    var v := SpokenLine(m, size);
    var words, u := Words(m.body), Part(m.suffix);
    TextParse(words, ":" + v);
    UnendedText(u, v);
    LastDiffers(Chars(words[0]), words[1..], Unended(":" + v, ' '), ":" + u, |words|);
  }
}
