/** Appending tokens to a bounded buffer. */
module Concat {
  import opened Common
  import opened CString
  import opened StringUtils
  import opened Tokens

  /** An entry of a list of C strings. */
  datatype Token = Null | Chars(text: string)

  /** The tokens that are written: those that are there and not empty. */
  function Words(tokens: seq<Token>): (w: seq<string>)
    ensures |w| <= |tokens|
  {
    if tokens == [] then []
    else if tokens[0].Null? || tokens[0].text == "" then Words(tokens[1..])
    else [tokens[0].text] + Words(tokens[1..])
  }

  /** Each word followed by the delimiter. */
  function Filled(words: seq<string>, d: string): string
  {
    if words == [] then "" else words[0] + d + Filled(words[1..], d)
  }

  function Clip(s: string, n: nat): (r: string)
    ensures r <= s && |r| == if |s| < n then |s| else n
  {
    if |s| < n then s else s[..n]
  }

  /** Without its last character when that is the first of the delimiter. */
  function Stripped(s: string, d: string): string
  {
    if d != "" then Unended(s, d[0]) else s
  }

  /** What the buffer holds in the end: the words are written behind its text, as far as
      `size` allows, and a last delimiter is taken away. */
  function Concatenated(s: string, words: seq<string>, d: string, size: nat): string
    requires |s| < size
  {
    if words == [] then s else Stripped(Clip(s + Filled(words, d), size - 1), d)
  }

  lemma {:induction false} FilledJoin(words: seq<string>, d: char)
    requires words != []
    ensures Filled(words, [d]) == Join(words, d) + [d]
  {
    if |words| > 1 {
      FilledJoin(words[1..], d);
    } else {
      assert Filled(words[1..], [d]) == "";
    }
  }

  lemma {:induction false} FilledAppend(words: seq<string>, w: string, d: string)
    ensures Filled(words + [w], d) == Filled(words, d) + w + d
  {
    if words == [] {
      assert ([w])[1..] == [];
    } else {
      FilledAppend(words[1..], w, d);
      assert (words + [w])[1..] == words[1..] + [w];
      assert (words + [w])[0] == words[0];
    }
  }

  /** The words come out joined behind the text, when there is room for one more delimiter;
      otherwise the join is clipped, and may lose a delimiter it then ends with. */
  lemma ConcatenatedReads(s: string, words: seq<string>, d: char, size: nat)
    requires |s| < size && words != []
    ensures var all := s + Join(words, d);
            Concatenated(s, words, [d], size) ==
            if |all| + 1 < size then all else Unended(Clip(all, size - 1), d)
  {
    hide Join, Filled;
    FilledJoin(words, d);
    var all := s + Join(words, d);
    Associative(s, Join(words, d), [d]);
    assert |all| + 1 >= size ==> Clip(all + [d], size - 1) == Clip(all, size - 1);
  }

  /** On an empty buffer the words come out joined exactly when the join fits. */
  lemma ConcatenatedIsJoin(words: seq<string>, d: char, size: nat)
    requires size > 0 && words != [] && !EndsIn(Join(words, d), d)
    ensures Concatenated("", words, [d], size) == Join(words, d) <==> |Join(words, d)| < size
  {
    hide Join, Filled;
    FilledJoin(words, d);
    var j := Join(words, d);
    assert "" + Filled(words, [d]) == j + [d];
    if |j| < size {
      var c := Clip(j + [d], size - 1);
      assert c == j + [d] || c == j;
    }
  }

  /** Joining and cutting again: plain words that fit come back, and only those. */
  lemma ConcatenatedCut(words: seq<string>, d: char, size: nat)
    requires size > 0 && words != [] && Plain(words, d)
    ensures Cut(Concatenated("", words, [d], size), |words|, d) == words <==> |Join(words, d)| < size
  {
    hide Concatenated, Join, Cut;
    JoinEnd(words, d);
    ConcatenatedIsJoin(words, d, size);
    CutJoin(words, |words|, d);
    JoinCut(Concatenated("", words, [d], size), |words|, d);
  }

  /** Without a delimiter they are the concatenation exactly when it fits. */
  lemma ConcatenatedIsFilled(words: seq<string>, size: nat)
    requires size > 0
    ensures Concatenated("", words, "", size) == Filled(words, "") <==> |Filled(words, "")| < size
  {
    assert "" + Filled(words, "") == Filled(words, "");
  }

  lemma {:induction false} WordsSplit(tokens: seq<Token>, i: nat)
    requires i < |tokens|
    ensures Words(tokens[..i + 1]) ==
            Words(tokens[..i]) + if tokens[i].Null? || tokens[i].text == "" then [] else [tokens[i].text]
  {
    if i == 0 {
      assert tokens[..1][1..] == [];
    } else {
      assert tokens[..i + 1][1..] == tokens[1..][..i] && tokens[..i][1..] == tokens[1..][..i - 1];
      WordsSplit(tokens[1..], i - 1);
    }
  }

  lemma {:induction false} WordsFrom(tokens: seq<Token>)
    ensures forall w <- Words(tokens) :: w != "" && Chars(w) in tokens
  {
    if tokens != [] {
      WordsFrom(tokens[1..]);
      assert tokens == [tokens[0]] + tokens[1..];
    }
  }

  /** strncat. */
  method Append(buffer: array<char>, src: string, n: nat)
    requires IsCString(buffer[..]) && |Text(buffer[..])| + n < buffer.Length && NUL !in src
    modifies buffer
    ensures Text(buffer[..]) == old(Text(buffer[..])) + Clip(src, n) && IsCString(buffer[..])
  {
    hide Text;
    var at := |Text(buffer[..])|;
    var part := Clip(src, n);
    assert buffer[..][..at] == Text(buffer[..]);
    TextOverwrite(buffer[..], at, part);
    Store(buffer, at, part + [NUL]);
    assert buffer[at + |part|] == NUL;
  }

  /** One turn of the loop; `base` is what an unbounded buffer would hold. */
  method AppendWord(buffer: array<char>, size: nat, w: string, d: string, ghost base: string)
    requires IsCString(buffer[..]) && 0 < size <= buffer.Length
    requires Text(buffer[..]) == Clip(base, size - 1) && NUL !in w && NUL !in d
    modifies buffer
    ensures IsCString(buffer[..]) && Text(buffer[..]) == Clip(base + w + d, size - 1)
  {
    hide Text;
    Append(buffer, w, size - |Text(buffer[..])| - 1);
    ClipMore(base, w, size - 1);
    Append(buffer, d, size - |Text(buffer[..])| - 1);
    ClipMore(base + w, d, size - 1);
  }

  lemma WordsNext(s: string, tokens: seq<Token>, i: nat, d: string)
    requires i < |tokens|
    ensures tokens[i].Chars? && tokens[i].text != "" ==>
              && |Words(tokens[..i + 1])| == |Words(tokens[..i])| + 1
              && s + Filled(Words(tokens[..i + 1]), d) == s + Filled(Words(tokens[..i]), d) + tokens[i].text + d
    ensures !(tokens[i].Chars? && tokens[i].text != "") ==> Words(tokens[..i + 1]) == Words(tokens[..i])
  {
    hide Words, Filled;
    WordsSplit(tokens, i);
    if tokens[i].Chars? {
      FilledAppend(Words(tokens[..i]), tokens[i].text, d);
    }
  }

  /** concat_tokens. */
  method ConcatTokens(buffer: array<char>, size: nat, tokens: seq<Token>, d: string) returns (count: nat)
    requires IsCString(buffer[..]) && |Text(buffer[..])| < size <= buffer.Length
    requires forall t <- tokens :: t.Chars? ==> NUL !in t.text
    requires NUL !in d
    requires size > 1 || Text(buffer[..]) != "" || Words(tokens) == []
    modifies buffer
    ensures IsCString(buffer[..]) && count == |Words(tokens)|
    ensures Text(buffer[..]) == Concatenated(old(Text(buffer[..])), Words(tokens), d, size)
  {
    hide Text, Words, Filled;
    ghost var s := Text(buffer[..]);
    count := 0;
    assert tokens[..0] == [] && tokens[..|tokens|] == tokens;
    FilledNone(s, d);
    for i := 0 to |tokens|
      invariant IsCString(buffer[..]) && count == |Words(tokens[..i])|
      invariant Text(buffer[..]) == Clip(s + Filled(Words(tokens[..i]), d), size - 1)
    {
      WordsNext(s, tokens, i, d);
      if tokens[i].Chars? && |tokens[i].text| > 0 {
        assert tokens[i] in tokens;
        AppendWord(buffer, size, tokens[i].text, d, s + Filled(Words(tokens[..i]), d));
        count := count + 1;
      }
    }
    if count > 0 {
      WordsFrom(tokens);
      NotEmpty(s, Words(tokens), d, size);
      var text := Text(buffer[..]);
      if d != "" && text[|text| - 1] == d[0] {
        Truncate(buffer);
      }
    }
  }

  lemma FilledNone(s: string, d: string)
    ensures Words([]) == [] && s + Filled(Words([]), d) == s
  {
  }

  lemma ClipMore(s: string, t: string, n: nat)
    ensures Clip(s + t, n) == Clip(s, n) + Clip(t, n - |Clip(s, n)|)
  {
  }

  lemma NotEmpty(s: string, words: seq<string>, d: string, size: nat)
    requires words != [] && (forall w <- words :: w != "") && size > 0
    requires size > 1 || s != ""
    requires |s| < size
    ensures Clip(s + Filled(words, d), size - 1) != ""
  {
    assert words[0] in words;
  }

  /** Removes the last character of the string. */
  method Truncate(buffer: array<char>)
    requires IsCString(buffer[..]) && Text(buffer[..]) != ""
    modifies buffer
    ensures IsCString(buffer[..])
    ensures var s := old(Text(buffer[..])); Text(buffer[..]) == s[..|s| - 1]
  {
    hide Text;
    var n := |Text(buffer[..])| - 1;
    assert buffer[..][..n + 1] == Text(buffer[..]);
    buffer[n] := NUL;
    assert buffer[n] == NUL;
    assert buffer[..][..n] == old(Text(buffer[..]))[..n];
    TextIs(buffer[..], n);
  }
}
