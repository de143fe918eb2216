/** tokenize_string: cutting a string in place. */
module Tokenizer {
  import opened CString
  import opened TransportSpec
  import opened StringUtils
  import opened MessageList
  import opened Tokens

  /** The tokens point at the pieces, each ended by a NUL. */
  predicate Points(bytes: seq<char>, tokens: seq<nat>, pieces: seq<string>)
  {
    && |tokens| == |pieces|
    && forall k :: 0 <= k < |tokens| ==> tokens[k] < |bytes| && Text(bytes[tokens[k]..]) == pieces[k]
  }

  /** The state of the loop: some pieces are cut off, the current one starts at `t`, and the
      search goes on at `p`. */
  predicate Tokenizing(bytes: seq<char>, tokens: seq<nat>, pieces: seq<string>, k: nat, d: char,
                       t: nat, p: nat, gap: nat)
  {
    && t <= p <= |bytes| && NUL !in bytes[t..p] && IsCString(bytes[p..])
    && |tokens| < |pieces| && |tokens| < k
    && Delimited(bytes, tokens, pieces[..|tokens|], [d], t)
    && pieces[|tokens|..] == Pieces(bytes[t..p], Text(bytes[p..]), gap, k - |tokens|, d)
  }

  lemma TokenizeStart(bytes: seq<char>, k: nat, d: char)
    requires k > 0 && IsCString(bytes)
    ensures Tokenizing(bytes, [], Tokenized(Text(bytes), k, d), k, d, 0, 0, 0)
  {
    hide Text, Pieces;
    assert bytes[0..] == bytes && bytes[0..0] == "";
  }

  lemma PiecesPassAt(held: string, rest: string, k: nat, d: char, i: nat)
    requires k > 1 && i == Index(rest, [d])
    ensures Pieces(held, rest, i, k, d) == Pieces(held + rest[..i + 1], rest[i + 1..], 1, k, d)
  {
  }

  lemma PiecesCutAt(held: string, rest: string, gap: nat, k: nat, d: char, i: nat)
    requires k > 1 && i == Index(rest, [d]) && i != gap
    ensures Pieces(held, rest, gap, k, d) == [held + rest[..i]] + Pieces("", rest[i + 1..], 0, k - 1, d)
  {
  }

  /** Going on behind a position of the text. */
  lemma Forward(bytes: seq<char>, t: nat, p: nat, n: nat)
    requires t <= p <= |bytes| && NUL !in bytes[t..p] && IsCString(bytes[p..]) && n <= |Text(bytes[p..])|
    ensures p + n <= |bytes| && IsCString(bytes[p + n..]) && Text(bytes[p + n..]) == Text(bytes[p..])[n..]
    ensures bytes[t..p + n] == bytes[t..p] + Text(bytes[p..])[..n] && NUL !in bytes[t..p + n]
  {
    hide Text;
    TextFrom(bytes[p..], n);
    assert bytes[p..][n..] == bytes[p + n..];
    assert Text(bytes[p..])[..n] == bytes[p..][..n] == bytes[p..p + n];
    assert bytes[t..p + n] == bytes[t..p] + bytes[p..p + n];
  }

  /** A delimiter taken for a repeated one is passed over. */
  lemma TokenizePass(bytes: seq<char>, tokens: seq<nat>, pieces: seq<string>, k: nat, d: char,
                     t: nat, p: nat, gap: nat)
    requires Tokenizing(bytes, tokens, pieces, k, d, t, p, gap) && |tokens| + 1 < k
    requires gap == Index(Text(bytes[p..]), [d])
    ensures Tokenizing(bytes, tokens, pieces, k, d, t, p + gap + 1, 1)
  {
    hide Index, Text, Delimited, Pieces;
    Forward(bytes, t, p, gap + 1);
    PiecesPassAt(bytes[t..p], Text(bytes[p..]), k - |tokens|, d, gap);
  }

  /** Any other delimiter ends a token. */
  lemma TokenizeCut(bytes: seq<char>, tokens: seq<nat>, pieces: seq<string>, k: nat, d: char,
                    t: nat, p: nat, gap: nat, i: nat)
    requires Tokenizing(bytes, tokens, pieces, k, d, t, p, gap) && |tokens| + 1 < k
    requires i == Index(Text(bytes[p..]), [d]) && i != gap
    ensures p + i + 1 <= |bytes|
    ensures Tokenizing(Overwrite(bytes, p + i, Zeros(1)), tokens + [t], pieces, k, d, p + i + 1, p + i + 1, 0)
  {
    hide Index, Text, Overwrite, Delimited, Pieces;
    var z := Overwrite(bytes, p + i, Zeros(1));
    var n, rest := |tokens|, Text(bytes[p..]);
    var m := bytes[t..p] + rest[..i];
    CutText(bytes, [d], p, i);
    PiecesCutAt(bytes[t..p], rest, gap, k - n, d, i);
    NextOf(pieces, n, m, Pieces("", rest[i + 1..], 0, k - n - 1, d));
    CutToken(bytes, z, t, p, rest[..i]);
    Extended(bytes, z, tokens, pieces[..n], [d], t, m);
    assert z[p + i + 1..p + i + 1] == "";
  }

  lemma CutToken(bytes: seq<char>, z: seq<char>, t: nat, p: nat, m: string)
    requires t <= p && p + |m| < |z| == |bytes| && z[..p] == bytes[..p] && z[p..p + |m|] == m
    ensures z[..t] == bytes[..t] && z[t..p + |m|] == bytes[t..p] + m
  {
    assert z[..p][..t] == z[..t] && bytes[..p][..t] == bytes[..t];
    assert z[t..p] == z[..p][t..] == bytes[..p][t..] == bytes[t..p];
    assert z[t..p + |m|] == z[t..p] + z[p..p + |m|];
  }

  /** The bytes at the end: a delimiter the string ends with is zeroed. */
  function Ended(bytes: seq<char>, p: nat, d: char): (z: seq<char>)
    requires p <= |bytes| && IsCString(bytes[p..])
  {
    var n := |Text(bytes[p..])|;
    if EndsIn(Text(bytes[p..]), d) then Overwrite(bytes, p + n - 1, Zeros(1)) else bytes
  }

  lemma EndedText(bytes: seq<char>, p: nat, d: char)
    requires p <= |bytes| && IsCString(bytes[p..])
    ensures var z := Ended(bytes, p, d);
            && |z| == |bytes| && z[..p] == bytes[..p] && p < |z|
            && Text(z[p..]) == Unended(Text(bytes[p..]), d)
  {
    hide Text, Overwrite;
    var last, n := Text(bytes[p..]), |Text(bytes[p..])|;
    if EndsIn(last, d) {
      ZeroAt(bytes, p + n - 1);
      NulEnds(bytes, p, last);
    }
  }

  lemma NulEnds(bytes: seq<char>, p: nat, last: string)
    requires p <= |bytes| && last != "" && IsCString(bytes[p..]) && last == Text(bytes[p..])
    ensures p + |last| <= |bytes|
    ensures var z := bytes[p + |last| - 1 := NUL];
            z[..p] == bytes[..p] && Text(z[p..]) == last[..|last| - 1]
  {
    hide Text;
    var n := |last| - 1;
    var z := bytes[p + n := NUL];
    assert bytes[p..][..n] == last[..n];
    assert z[p..] == bytes[p..][n := NUL];
    TextIs(z[p..], n);
  }

  /** The loop has found no more delimiters: the last token is the rest as it is. */
  lemma TokenizeRest(bytes: seq<char>, tokens: seq<nat>, pieces: seq<string>, k: nat, d: char,
                     t: nat, p: nat, gap: nat)
    requires Tokenizing(bytes, tokens, pieces, k, d, t, p, gap) && |tokens| + 1 < k
    requires Index(Text(bytes[p..]), [d]) < 0 && forall m <- pieces :: NUL !in m
    ensures Points(bytes, tokens + [t], pieces)
  {
    hide Index, Text, Delimited;
    var last := Text(bytes[p..]);
    WholeText(bytes, t, p);
    assert pieces[|tokens|..] == [bytes[t..p] + last];
    PointsAll(bytes, tokens, pieces, d, t, bytes[t..p] + last);
  }

  lemma WholeText(bytes: seq<char>, t: nat, p: nat)
    requires t <= p <= |bytes| && NUL !in bytes[t..p] && IsCString(bytes[p..])
    ensures t < |bytes| && Text(bytes[t..]) == bytes[t..p] + Text(bytes[p..])
  {
    hide Text;
    var n := |Text(bytes[p..])|;
    Forward(bytes, t, p, n);
    assert bytes[t..][..p + n - t] == bytes[t..p + n];
    assert bytes[p..][n] == NUL;
    TextIs(bytes[t..], p + n - t);
  }

  lemma PointsAll(bytes: seq<char>, tokens: seq<nat>, pieces: seq<string>, d: char, t: nat, last: string)
    requires |tokens| < |pieces| && Delimited(bytes, tokens, pieces[..|tokens|], [d], t)
    requires pieces[|tokens|..] == [last] && t < |bytes| && Text(bytes[t..]) == last
    requires forall m <- pieces :: NUL !in m
    ensures Points(bytes, tokens + [t], pieces)
  {
    hide Text, Delimited;
    var n := |tokens|;
    assert |pieces| == n + 1 && pieces[n] == pieces[n..][0];
    forall j | 0 <= j < n
      ensures tokens[j] < |bytes| && Text(bytes[tokens[j]..]) == pieces[j]
    {
      assert pieces[..n][j] == pieces[j] && pieces[j] in pieces;
      TokenInside(bytes, tokens, pieces[..n], d, t, j);
      TokenText(bytes, tokens, pieces[..n], [d], t, j);
    }
  }

  lemma TokenInside(bytes: seq<char>, tokens: seq<nat>, pieces: seq<string>, d: char, t: nat, j: nat)
    requires Delimited(bytes, tokens, pieces, [d], t) && j < |tokens|
    ensures tokens[j] < |bytes|
  {
  }

  /** The loop has cut off all tokens but one: the last is the rest without a delimiter at its
      end. */
  lemma TokenizeLimit(bytes: seq<char>, tokens: seq<nat>, pieces: seq<string>, k: nat, d: char, p: nat, gap: nat)
    requires Tokenizing(bytes, tokens, pieces, k, d, p, p, gap) && |tokens| + 1 == k
    requires forall m <- pieces :: NUL !in m
    ensures Points(Ended(bytes, p, d), tokens + [p], pieces)
    ensures tokens != [] ==> p > 0 && bytes[p - 1] == NUL
  {
    hide Index, Text, Ended, Delimited;
    var z, last := Ended(bytes, p, d), Unended(Text(bytes[p..]), d);
    EndedText(bytes, p, d);
    Undisturbed(bytes, z, tokens, pieces[..|tokens|], [d], p);
    assert bytes[p..p] + last == last;
    PointsAll(z, tokens, pieces, d, p, last);
    if tokens != [] {
      BeforeNext(bytes, tokens, pieces[..|tokens|], d, p);
    }
  }

  lemma BeforeNext(bytes: seq<char>, tokens: seq<nat>, pieces: seq<string>, d: char, p: nat)
    requires Delimited(bytes, tokens, pieces, [d], p) && tokens != []
    ensures p > 0 && bytes[p - 1] == NUL
  {
  }

  lemma {:induction false} PiecesNulFree(held: string, rest: string, gap: nat, k: nat, d: char)
    requires k > 0 && NUL !in held && NUL !in rest
    ensures forall m <- Pieces(held, rest, gap, k, d) :: NUL !in m
    decreases |rest|
  {
    hide Index;
    var i := Index(rest, [d]);
    if k > 1 && i >= 0 {
      if i == gap {
        PiecesNulFree(held + rest[..i + 1], rest[i + 1..], 1, k, d);
      } else {
        PiecesNulFree("", rest[i + 1..], 0, k - 1, d);
      }
    }
  }

  lemma LooksTerminatedChar(s: string, d: char)
    ensures LooksTerminated(s, [d]) <==> s == "" || EndsIn(s, d)
  {
    if s != "" {
      assert s[|s| - 1..] == [s[|s| - 1]];
    }
    assert [d][1..] == "" && [d][0..] == [d];
  }

  /** Zeroes the delimiter the string at `p` ends with; an empty string looks terminated too,
      and the character in front of it is zeroed. */
  method ClearLast(str: array<char>, p: nat, d: char)
    requires p <= str.Length && IsCString(str[p..]) && (p == 0 ==> Text(str[p..]) != "")
    modifies str
    ensures IsCString(str[..])
    ensures old(Text(str[p..])) != "" || old(str[p - 1]) == NUL ==> str[..] == Ended(old(str[..]), p, d)
  {
    hide Text, Overwrite, LooksTerminated;
    ghost var bytes := str[..];
    assert bytes[p..] == str[p..];
    EndedText(bytes, p, d);
    var last := Text(str[p..]);
    LooksTerminatedChar(last, d);
    if LooksTerminated(last, [d]) {
      ZeroAt(bytes, p + |last| - 1);
      Store(str, p + |last| - 1, Zeros(1));
    } else {
      CStringBehind(bytes, p);
    }
  }

  /** Cuts the string in place, whatever the string. The count leaves out an empty last token.
      With a limit of one the string must not be empty. */
  method TokenizeString(str: array<char>, tkCount: nat, d: char) returns (tokens: seq<nat>, count: nat)
    requires IsCString(str[..]) && d != NUL
    requires tkCount == 1 ==> Text(str[..]) != ""
    modifies str
    ensures IsCString(str[..])
    ensures tkCount == 0 ==> tokens == [] && count == 0 && str[..] == old(str[..])
    ensures tkCount > 0 ==>
              var pieces := Tokenized(old(Text(str[..])), tkCount, d);
              && Points(str[..], tokens, pieces)
              && count == |pieces| - if pieces[|pieces| - 1] == "" then 1 else 0
  {
    hide Index, Text, Overwrite, Pieces, Tokenizing, Points, Ended, IsCString;
    tokens, count := [], 0;
    if tkCount > 0 {
      ghost var pieces := Tokenized(Text(str[..]), tkCount, d);
      TokenizeStart(str[..], tkCount, d);
      PiecesNulFree("", Text(str[..]), 0, tkCount, d);
      var p, tokenPtr, prevDelimIdx, found := 0, 0, -1, true;
      assert str[0..] == str[..];
      while |tokens| + 1 < tkCount && found
        invariant p <= str.Length && IsCString(str[p..])
        invariant |tokens| < tkCount && (tkCount == 1 ==> str[..] == old(str[..]) && p == 0)
        invariant 0 <= prevDelimIdx + 1 - p
        invariant Tokenizing(str[..], tokens, pieces, tkCount, d, tokenPtr, p, prevDelimIdx + 1 - p)
        invariant |tokens| + 1 == tkCount ==> tokenPtr == p
        invariant !found ==> |tokens| + 1 < tkCount && Index(Text(str[p..]), [d]) < 0
        decreases str.Length - p, found
      {
        assert str[p..] == str[..][p..];
        var i := Index(Text(str[p..]), [d]);
        if i < 0 {
          found := false;
        } else if prevDelimIdx + 1 == p + i {
          TokenizePass(str[..], tokens, pieces, tkCount, d, tokenPtr, p, i);
          p := p + i + 1;
          prevDelimIdx := p;
          Located(str[..], tokens, pieces, tkCount, d, tokenPtr, p, 1);
        } else {
          TokenizeCut(str[..], tokens, pieces, tkCount, d, tokenPtr, p, prevDelimIdx + 1 - p, i);
          prevDelimIdx := p + i;
          Store(str, p + i, Zeros(1));
          p := p + i + 1;
          tokens := tokens + [tokenPtr];
          tokenPtr := p;
          Located(str[..], tokens, pieces, tkCount, d, tokenPtr, p, 0);
        }
        assert str[p..] == str[..][p..];
      }
      assert str[p..] == str[..][p..];
      if found {
        TokenizeLimit(str[..], tokens, pieces, tkCount, d, p, prevDelimIdx + 1 - p);
        ClearLast(str, p, d);
      } else {
        TokenizeRest(str[..], tokens, pieces, tkCount, d, tokenPtr, p, prevDelimIdx + 1 - p);
        CStringBehind(str[..], p);
      }
      count := |tokens|;
      tokens := tokens + [tokenPtr];
      LastPointed(str[..], tokens, pieces);
      assert str[tokenPtr..] == str[..][tokenPtr..];
      if |Text(str[tokenPtr..])| > 0 {
        count := count + 1;
      }
    }
  }

  lemma Located(bytes: seq<char>, tokens: seq<nat>, pieces: seq<string>, k: nat, d: char, t: nat, p: nat, gap: nat)
    requires Tokenizing(bytes, tokens, pieces, k, d, t, p, gap)
    ensures p <= |bytes| && IsCString(bytes[p..])
  {
  }

  lemma LastPointed(bytes: seq<char>, tokens: seq<nat>, pieces: seq<string>)
    requires Points(bytes, tokens, pieces) && tokens != []
    ensures var n := |tokens| - 1; |pieces| == n + 1 && tokens[n] < |bytes| && Text(bytes[tokens[n]..]) == pieces[n]
  {
  }
}
