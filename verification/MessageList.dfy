/** Cutting a buffer of delimited messages into a list of them, and taking them out one by
    one: the two ways the client and the server consume what they have received. */
module MessageList {
  import opened Common
  import opened CString
  import opened Framing
  import opened StringUtils

  method CountDelimiters(s: string, d: string) returns (count: nat)
    requires d != ""
    ensures count == |Split(s, d).msgs|
  {
    var p := 0;
    var i := Index(s[p..], d);
    count := 0;
    assert s[0..] == s;
    while i >= 0
      invariant p <= |s| && i == Index(s[p..], d)
      invariant count + |Split(s[p..], d).msgs| == |Split(s, d).msgs|
      decreases |s| - p
    {
      assert s[p..][i + |d|..] == s[p + i + |d|..];
      p := p + i + |d|;
      count := count + 1;
      i := Index(s[p..], d);
    }
  }

  /** `tokens` point at NUL-terminated copies of `msgs` in `bytes`, one after the other with
      a zeroed delimiter behind each; the last delimiter ends at `end`. */
  predicate Delimited(bytes: seq<char>, tokens: seq<nat>, msgs: seq<string>, d: string, end: nat)
  {
    && d != "" && |tokens| == |msgs| && end <= |bytes|
    && (forall k :: 0 <= k < |tokens| ==>
          && tokens[k] + |msgs[k]| + |d| <= end
          && bytes[tokens[k]..tokens[k] + |msgs[k]|] == msgs[k]
          && bytes[tokens[k] + |msgs[k]|] == NUL)
    && (tokens != [] ==> tokens[|tokens| - 1] + |msgs[|msgs| - 1]| + |d| == end)
  }

  /** The state of the delimiting loop: some messages are cut off, the rest is untouched. */
  predicate Cutting(whole: Received, bytes: seq<char>, tokens: seq<nat>, d: string, p: nat)
    requires d != ""
  {
    && p <= |bytes| && IsCString(bytes[p..])
    && var rest := Split(Text(bytes[p..]), d);
    && |tokens| <= |whole.msgs|
    && Delimited(bytes, tokens, whole.msgs[..|tokens|], d, p)
    && rest == Received(whole.msgs[|tokens|..], whole.left)
  }

  /** What one more turn of the delimiting loop does. */
  lemma CutNext(whole: Received, bytes: seq<char>, tokens: seq<nat>, d: string, p: nat, i: nat)
    requires d != "" && Cutting(whole, bytes, tokens, d, p)
    requires i == Index(Text(bytes[p..]), d)
    ensures p + i + |d| <= |bytes|
    ensures Cutting(whole, Overwrite(bytes, p + i, Zeros(|d|)), tokens + [p], d, p + i + |d|)
  {
    hide Index, Split, Text, Delimited, Overwrite;
    var n, m := |tokens|, Text(bytes[p..])[..i];
    SplitStep(Text(bytes[p..]), d);
    CutText(bytes, d, p, i);
    NextOf(whole.msgs, n, m, Split(Text(bytes[p..])[i + |d|..], d).msgs);
    Extended(bytes, Overwrite(bytes, p + i, Zeros(|d|)), tokens, whole.msgs[..n], d, p, m);
  }

  lemma NextOf<T>(s: seq<T>, n: nat, x: T, rest: seq<T>)
    requires n <= |s| && s[n..] == [x] + rest
    ensures n < |s| && s[..n + 1] == s[..n] + [x] && s[n + 1..] == rest
  {
    assert s[n] == s[n..][0];
    assert s[n + 1..] == s[n..][1..];
  }

  lemma CutText(bytes: seq<char>, d: string, p: nat, i: nat)
    requires d != "" && p <= |bytes| && IsCString(bytes[p..])
    requires i == Index(Text(bytes[p..]), d)
    ensures p + i + |d| <= |bytes|
    ensures var z := Overwrite(bytes, p + i, Zeros(|d|)); var m := Text(bytes[p..])[..i];
            && z[..p] == bytes[..p]
            && z[p..p + i] == m && z[p + i] == NUL
            && IsCString(z[p + i + |d|..])
            && Text(z[p + i + |d|..]) == Text(bytes[p..])[i + |d|..]
  {
    hide Index, Text, Overwrite, IsCString;
    var s := bytes[p..];
    var z, y := Overwrite(bytes, p + i, Zeros(|d|)), Overwrite(s, i, Zeros(|d|));
    DelimiterZeroed(s, d, i);
    Zeroed(bytes, p + i, |d|);
    Zeroed(s, i, |d|);
    SamePrefix(z, bytes, p, i);
    assert s[..i] == Text(s)[..i];
    assert bytes[p + i + |d|..] == s[i + |d|..];
  }

  lemma Zeroed(s: seq<char>, at: nat, n: nat)
    requires 0 < n && at + n <= |s|
    ensures var z := Overwrite(s, at, Zeros(n));
            z[..at] == s[..at] && z[at] == NUL && z[at + n..] == s[at + n..]
  {
    assert Zeros(n)[0] == NUL;
  }

  lemma SamePrefix(z: seq<char>, bytes: seq<char>, p: nat, n: nat)
    requires p + n <= |z| == |bytes| && z[..p + n] == bytes[..p + n]
    ensures z[..p] == bytes[..p] && z[p..p + n] == bytes[p..][..n]
  {
    assert z[..p + n][..p] == z[..p] && bytes[..p + n][..p] == bytes[..p];
    assert z[..p + n][p..] == z[p..p + n] && bytes[..p + n][p..] == bytes[p..][..n];
  }

  lemma Undisturbed(bytes: seq<char>, z: seq<char>, tokens: seq<nat>, msgs: seq<string>, d: string, p: nat)
    requires Delimited(bytes, tokens, msgs, d, p) && |z| == |bytes| && z[..p] == bytes[..p]
    ensures Delimited(z, tokens, msgs, d, p)
  {
    forall k | 0 <= k < |tokens|
      ensures z[tokens[k]..tokens[k] + |msgs[k]|] == msgs[k]
      ensures z[tokens[k] + |msgs[k]|] == NUL
    {
      var from, to := tokens[k], tokens[k] + |msgs[k]|;
      assert z[from..to] == z[..p][from..to];
      assert bytes[from..to] == bytes[..p][from..to];
      assert z[to] == z[..p][to] && bytes[to] == bytes[..p][to];
    }
  }

  lemma Extended(bytes: seq<char>, z: seq<char>, tokens: seq<nat>, msgs: seq<string>, d: string, p: nat, m: string)
    requires d != "" && Delimited(bytes, tokens, msgs, d, p)
    requires |z| == |bytes| && z[..p] == bytes[..p]
    requires p + |m| + |d| <= |z| && z[p..p + |m|] == m && z[p + |m|] == NUL
    ensures Delimited(z, tokens + [p], msgs + [m], d, p + |m| + |d|)
  {
    Undisturbed(bytes, z, tokens, msgs, d, p);
    var ts, ms := tokens + [p], msgs + [m];
    assert forall k :: 0 <= k < |tokens| ==> ts[k] == tokens[k] && ms[k] == msgs[k];
  }

  lemma CutStart(bytes: seq<char>, d: string)
    requires IsCString(bytes) && d != ""
    ensures Cutting(Split(Text(bytes), d), bytes, [], d, 0)
  {
    assert bytes[0..] == bytes;
  }

  lemma CutCount(whole: Received, bytes: seq<char>, tokens: seq<nat>, d: string, p: nat)
    requires d != "" && Cutting(whole, bytes, tokens, d, p)
    ensures p <= |bytes| && |tokens| <= |whole.msgs| && IsCString(bytes[p..])
    ensures Index(Text(bytes[p..]), d) < 0 <==> |tokens| == |whole.msgs|
  {
  }

  /** Zeroes up to `tkCount` delimiters and returns where the messages before them start;
      `end` is where the last delimiter zeroed ends. */
  method DelimitMessages(str: array<char>, tkCount: nat, d: string) returns (tokens: seq<nat>, ghost end: nat)
    requires IsCString(str[..]) && d != "" && NUL !in d
    modifies str
    ensures var whole := old(Split(Text(str[..]), d));
            && |tokens| == (if tkCount < |whole.msgs| then tkCount else |whole.msgs|)
            && Cutting(whole, str[..], tokens, d, end)
  {
    hide Index, Split, Text, Overwrite, Cutting;
    ghost var whole := Split(Text(str[..]), d);
    CutStart(str[..], d);
    tokens, end := [], 0;
    if tkCount > 0 {
      var p := 0;
      CutCount(whole, str[..], tokens, d, p);
      assert str[..] == str[..][p..];
      var i := Index(Text(str[p..]), d);
      while i >= 0 && |tokens| < tkCount
        invariant |tokens| <= tkCount
        invariant p <= str.Length && IsCString(str[p..])
        invariant Cutting(whole, str[..], tokens, d, p)
        invariant i == Index(Text(str[p..]), d)
        decreases tkCount - |tokens|
      {
        assert str[p..] == str[..][p..];
        CutNext(whole, str[..], tokens, d, p, i);
        Store(str, p + i, Zeros(|d|));
        tokens := tokens + [p];
        p := p + i + |d|;
        CutCount(whole, str[..], tokens, d, p);
        assert str[p..] == str[..][p..];
        i := Index(Text(str[p..]), d);
      }
      assert str[p..] == str[..][p..];
      CutCount(whole, str[..], tokens, d, p);
      end := p;
    } else {
      CutCount(whole, str[..], tokens, d, 0);
    }
  }

  lemma TokenText(bytes: seq<char>, tokens: seq<nat>, msgs: seq<string>, d: string, end: nat, k: nat)
    requires d != "" && Delimited(bytes, tokens, msgs, d, end) && k < |tokens|
    requires NUL !in msgs[k]
    ensures Text(bytes[tokens[k]..]) == msgs[k]
  {
    var s, n := bytes[tokens[k]..], |msgs[k]|;
    assert s[..n] == msgs[k] && s[n] == NUL;
    TextIs(s, n);
  }

  lemma {:induction false} MessagesNulFree(s: string, d: string)
    requires d != "" && NUL !in s
    ensures forall m <- Split(s, d).msgs :: NUL !in m
    decreases |s|
  {
    var i := Index(s, d);
    if i >= 0 {
      MessagesNulFree(s[i + |d|..], d);
    }
  }

  /** With every delimiter zeroed, each token is a message and what follows the last one is
      the unfinished line. */
  lemma CutAll(whole: Received, bytes: seq<char>, tokens: seq<nat>, d: string, end: nat)
    requires d != "" && Cutting(whole, bytes, tokens, d, end)
    requires tokens != [] && |tokens| == |whole.msgs|
    requires forall m <- whole.msgs :: NUL !in m
    ensures forall k :: 0 <= k < |tokens| ==> tokens[k] < |bytes| && Text(bytes[tokens[k]..]) == whole.msgs[k]
    ensures tokens[|tokens| - 1] + |whole.msgs[|tokens| - 1]| + |d| == end < |bytes|
    ensures IsCString(bytes[end..]) && Text(bytes[end..]) == whole.left
  {
    hide Index, Overwrite;
    assert whole.msgs[..|tokens|] == whole.msgs && whole.msgs[|tokens|..] == [];
    assert Split(Text(bytes[end..]), d).msgs == [];
    forall k | 0 <= k < |tokens|
      ensures Text(bytes[tokens[k]..]) == whole.msgs[k]
    {
      TokenText(bytes, tokens, whole.msgs, d, end, k);
    }
  }

  /** Hands every complete message to a callback, in order, and keeps the unfinished line.
      `calls` are the arguments of the callback. */
  method ProcessMessages(str: array<char>, d: string) returns (calls: seq<string>)
    requires IsCString(str[..]) && d != "" && NUL !in d
    modifies str
    ensures Received(calls, Text(str[..])) == old(Split(Text(str[..]), d))
    ensures IsCString(str[..])
  {
    hide Index, Text, Overwrite, Cutting, Delimited, Split, IsCString;
    ghost var whole := Split(Text(str[..]), d);
    NoMessages(Text(str[..]), d);
    MessagesNulFree(Text(str[..]), d);
    var tkCount := CountDelimiters(Text(str[..]), d);
    calls := [];
    if tkCount > 0 {
      var tokens, end := DelimitMessages(str, tkCount, d);
      CutAll(whole, str[..], tokens, d, end);
      for i := 0 to tkCount
        invariant calls == whole.msgs[..i]
      {
        assert str[..][tokens[i]..] == str[tokens[i]..];
        calls := calls + [Text(str[tokens[i]..])];
      }
      var last := tokens[tkCount - 1];
      assert str[..][last..] == str[last..];
      assert str[..][end..] == str[end..];
      var from := last + |Text(str[last..])| + |d|;
      CStringBehind(str[..], end);
      MoveToFront(str, from);
    }
  }

  lemma CStringBehind(bytes: seq<char>, p: nat)
    requires p <= |bytes| && IsCString(bytes[p..])
    ensures IsCString(bytes)
  {
    assert NUL in bytes[p..];
  }

  lemma NoMessages(s: string, d: string)
    requires d != ""
    ensures Split(s, d).msgs == [] ==> Split(s, d) == Received([], s)
  {
  }

  predicate MessagesBelow(s: string, d: string, size: nat)
    requires d != ""
  {
    forall m <- Split(s, d).msgs :: |m| < size
  }

  lemma ExtractStep(s: string, d: string, size: nat)
    requires d != "" && MessagesBelow(s, d, size) && Index(s, d) >= 0
    ensures var i := Index(s, d);
            && i < size && MessagesBelow(s[i + |d|..], d, size)
            && Split(s, d).msgs == [s[..i]] + Split(s[i + |d|..], d).msgs
            && Split(s, d).left == Split(s[i + |d|..], d).left
  {
    hide Index, Split;
    SplitStep(s, d);
    var all := Split(s, d).msgs;
    assert all[0] in all;
    assert forall m <- all[1..] :: m in all;
  }

  /** Extracts messages until there is none left; `calls` are the messages extracted. */
  method ExtractAll(buffer: array<char>, size: nat, str: array<char>, d: string) returns (calls: seq<string>)
    requires buffer != str && size <= buffer.Length
    requires IsCString(str[..]) && d != "" && NUL !in d
    requires MessagesBelow(Text(str[..]), d, size)
    modifies buffer, str
    ensures Received(calls, Text(str[..])) == old(Split(Text(str[..]), d))
    ensures IsCString(str[..])
  {
    hide Index, Split, Text, MessagesBelow, IsCString;
    ghost var whole := Split(Text(str[..]), d);
    calls := [];
    var more := true;
    assert [] + whole.msgs == whole.msgs;
    while more
      invariant IsCString(str[..]) && MessagesBelow(Text(str[..]), d, size)
      invariant whole.msgs == calls + Split(Text(str[..]), d).msgs
      invariant whole.left == Split(Text(str[..]), d).left
      invariant !more ==> Index(Text(str[..]), d) < 0
      decreases |Text(str[..])|, more
    {
      ghost var s := Text(str[..]);
      more := ExtractMessage(buffer, size, str, d);
      if more {
        ExtractStep(s, d, size);
        Associative(calls, [Text(buffer[..])], Split(Text(str[..]), d).msgs);
        calls := calls + [Text(buffer[..])];
      }
    }
    NoneLeft(Text(str[..]), d);
    assert calls + [] == calls;
  }

  lemma NoneLeft(s: string, d: string)
    requires d != "" && Index(s, d) < 0
    ensures Split(s, d) == Received([], s)
  {
  }
}
