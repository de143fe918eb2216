/** What CR-LF framing means (section 2.3 of RFC 1459, section 2.3 of RFC 2812), and what
    one read followed by the extraction loop does to the stored leftover. */
module Framing {
  import opened Common
  import opened CString

  const MAX_CHARS: nat := 512

  /** The limit the dispatcher and the command handler work with: a line without CR-LF. */
  const LINE_CHARS: nat := 510

  const CRLF: string := "\r\n"

  /** Complete messages in order of arrival, and the unfinished line after them. */
  datatype Received = Received(msgs: seq<string>, left: string)

  /** Cuts `s` at every occurrence of the delimiter, from left to right. */
  function Split(s: string, d: string): Received
    requires d != ""
    decreases |s|
  {
    var i := Index(s, d);
    if i < 0 then Received([], s)
    else
      var rest := Split(s[i + |d|..], d);
      Received([s[..i]] + rest.msgs, rest.left)
  }

  lemma SplitStep(s: string, d: string)
    requires d != "" && Index(s, d) >= 0
    ensures var i := Index(s, d); var rest := Split(s[i + |d|..], d);
            Split(s, d) == Received([s[..i]] + rest.msgs, rest.left)
  {
  }

  /** The messages as they travel: each followed by the delimiter. */
  function Stream(msgs: seq<string>, d: string): string
  {
    if msgs == [] then "" else msgs[0] + d + Stream(msgs[1..], d)
  }

  /** `r` cuts the stream `s`: nothing is lost or added, a message ends at the first
      delimiter after its start, and no delimiter is left over. */
  predicate IsCut(s: string, d: string, r: Received)
  {
    && s == Stream(r.msgs, d) + r.left
    && Index(r.left, d) < 0
    && forall m <- r.msgs :: Index(m + d, d) == |m|
  }

  lemma StreamFirst(m: string, msgs: seq<string>, d: string, t: string)
    ensures Stream([m] + msgs, d) + t == m + d + (Stream(msgs, d) + t)
  {
    assert ([m] + msgs)[1..] == msgs;
    var x := Stream(msgs, d);
    assert m + d + x + t == m + d + (x + t);
  }

  /** A message and its delimiter in front of a stream. */
  lemma CutFirst(m: string, t: string, d: string, rest: Received)
    requires Index(m + d, d) == |m|
    ensures IsCut(t, d, rest) <==> IsCut(m + d + t, d, Received([m] + rest.msgs, rest.left))
  {
    hide Index;
    var all, x := [m] + rest.msgs, Stream(rest.msgs, d) + rest.left;
    StreamFirst(m, rest.msgs, d, rest.left);
    assert m + d + t == m + d + x ==> t == x by {
      assert (m + d + t)[|m + d|..] == t && (m + d + x)[|m + d|..] == x;
    }
    assert forall y :: y in all <==> y == m || y in rest.msgs;
  }

  lemma SplitCutsStep(s: string, d: string)
    requires d != "" && Index(s, d) >= 0
    ensures var t := s[Index(s, d) + |d|..];
            IsCut(t, d, Split(t, d)) ==> IsCut(s, d, Split(s, d))
  {
    hide Index, IsCut, Split;
    var i := Index(s, d);
    var m, t := s[..i], s[i + |d|..];
    SplitStep(s, d);
    PrefixIndex(s, d);
    CutFirst(m, t, d, Split(t, d));
    assert s == m + d + t;
  }

  lemma {:induction false} SplitCuts(s: string, d: string)
    requires d != ""
    ensures IsCut(s, d, Split(s, d))
    decreases |s|
  {
    hide Index;
    if Index(s, d) >= 0 {
      SplitCuts(s[Index(s, d) + |d|..], d);
      SplitCutsStep(s, d);
    }
  }

  lemma PrefixIndex(s: string, d: string)
    requires Index(s, d) >= 0
    ensures Index(s[..Index(s, d)] + d, d) == Index(s, d)
  {
    var i := Index(s, d);
    var t := s[..i] + d;
    assert t == s[..i + |d|];
    forall j: nat | j < i
      ensures !At(t, d, j)
    {
      assert !At(s, d, j);
    }
    IndexIs(t, d, i);
  }

  /** There is only one way to cut a stream. */
  lemma {:induction false} CutUnique(s: string, d: string, r: Received)
    requires d != "" && IsCut(s, d, r)
    ensures r == Split(s, d)
    decreases |r.msgs|
  {
    hide Index;
    if r.msgs == [] {
      assert s == r.left;
    } else {
      var m, rest := r.msgs[0], Received(r.msgs[1..], r.left);
      var t := Stream(rest.msgs, d) + r.left;
      assert r.msgs == [m] + rest.msgs;
      StreamFirst(m, rest.msgs, d, r.left);
      CutUniqueStep(s, d, m, t, rest);
      CutUnique(t, d, rest);
    }
  }

  lemma CutUniqueStep(s: string, d: string, m: string, t: string, rest: Received)
    requires d != "" && Index(m + d, d) == |m| && s == m + d + t
    requires IsCut(s, d, Received([m] + rest.msgs, rest.left))
    ensures rest == Split(t, d) ==> Received([m] + rest.msgs, rest.left) == Split(s, d)
    ensures IsCut(t, d, rest)
  {
    hide Index, IsCut, Split;
    CutFirst(m, t, d, rest);
    IndexAppend(m + d, t, d);
    assert s[|m| + |d|..] == t && s[..|m|] == m;
    SplitStep(s, d);
  }

  lemma {:induction false} StreamAppend(a: seq<string>, b: seq<string>, d: string)
    ensures Stream(a + b, d) == Stream(a, d) + Stream(b, d)
  {
    if a == [] {
      assert a + b == b;
    } else {
      StreamAppend(a[1..], b, d);
      assert [a[0]] + (a[1..] + b) == a + b;
      StreamFirst(a[0], a[1..] + b, d, "");
      StreamFirst(a[0], a[1..], d, Stream(b, d));
      assert [a[0]] + a[1..] == a;
    }
  }

  lemma CutAppend(s: string, t: string, d: string, a: Received, b: Received)
    requires IsCut(s, d, a) && IsCut(a.left + t, d, b)
    ensures IsCut(s + t, d, Received(a.msgs + b.msgs, b.left))
  {
    StreamAppend(a.msgs, b.msgs, d);
    Regroup(s, Stream(a.msgs, d), a.left, t, Stream(b.msgs, d), b.left);
    forall m | m in a.msgs + b.msgs
      ensures Index(m + d, d) == |m|
    {
      assert m in a.msgs || m in b.msgs;
    }
  }

  lemma Regroup(s: string, x: string, u: string, t: string, y: string, v: string)
    requires s == x + u && u + t == y + v
    ensures s + t == x + y + v
  {
    assert s + t == x + (u + t);
    assert x + (y + v) == x + y + v;
  }

  /** Cutting may stop anywhere and go on with the leftover in front of what follows, even
      when a delimiter straddles the stop. */
  lemma SplitAppend(s: string, t: string, d: string)
    requires d != ""
    ensures var a := Split(s, d); var b := Split(a.left + t, d);
            Split(s + t, d) == Received(a.msgs + b.msgs, b.left)
  {
    var a := Split(s, d);
    var b := Split(a.left + t, d);
    SplitCuts(s, d);
    SplitCuts(a.left + t, d);
    CutAppend(s, t, d, a, b);
    CutUnique(s + t, d, Received(a.msgs + b.msgs, b.left));
  }

  /** One successful read of `chunk` with `left` stored, and the extraction of every complete
      message: a chunk that does not fit is not copied, and a full buffer without a
      delimiter is cleared. */
  function Feed(left: string, chunk: string): Received
  {
    var copied := if |left| + |chunk| > MAX_CHARS then left else left + chunk;
    var full := |left| + |chunk| >= MAX_CHARS;
    if full && Index(copied, CRLF) < 0 then Received([], "") else Split(copied, CRLF)
  }

  function Run(left: string, chunks: seq<string>): Received
    decreases |chunks|
  {
    if chunks == [] then Received([], left)
    else
      var now := Feed(left, chunks[0]);
      var rest := Run(now.left, chunks[1..]);
      Received(now.msgs + rest.msgs, rest.left)
  }

  /** A chunk that does not fit behind an unfinished line is lost together with that line. */
  lemma FeedOverflow(left: string, chunk: string)
    requires Unfinished(left) && |left| + |chunk| > MAX_CHARS
    ensures Feed(left, chunk) == Received([], "")
  {
  }

  /** A chunk that fits is cut behind the line, which is lost only when it fills the buffer. */
  lemma FeedFitting(left: string, chunk: string)
    requires |left| + |chunk| <= MAX_CHARS
    ensures Feed(left, chunk) ==
            if |left| + |chunk| == MAX_CHARS && Index(left + chunk, CRLF) < 0 then Received([], "")
            else Split(left + chunk, CRLF)
  {
  }

  lemma {:induction false} RunAppend(left: string, a: seq<string>, b: seq<string>)
    ensures var x := Run(left, a); var y := Run(x.left, b);
            Run(left, a + b) == Received(x.msgs + y.msgs, y.left)
    decreases |a|
  {
    if a == [] {
      assert a + b == b && [] + Run(left, b).msgs == Run(left, b).msgs;
    } else {
      hide Feed;
      var now := Feed(left, a[0]);
      RunAppend(now.left, a[1..], b);
      assert (a + b)[0] == a[0] && (a + b)[1..] == a[1..] + b;
      var x := Run(now.left, a[1..]);
      Associative(now.msgs, x.msgs, Run(x.left, b).msgs);
    }
  }

  lemma {:induction false} RunLeft(left: string, chunks: seq<string>)
    requires Unfinished(left)
    ensures Unfinished(Run(left, chunks).left)
    decreases |chunks|
  {
    if chunks != [] {
      hide Feed, Unfinished;
      FeedLeft(left, chunks[0]);
      RunLeft(Feed(left, chunks[0]).left, chunks[1..]);
    }
  }

  /** A run goes on behind a chunk that overflows as if the connection were new: neither the
      line stored before it nor anything of the chunk is seen again. */
  lemma OverflowForgets(left: string, a: seq<string>, c: string, b: seq<string>)
    requires Unfinished(left) && |Run(left, a).left| + |c| > MAX_CHARS
    ensures Run(left, a + [c] + b) == Received(Run(left, a).msgs + Run("", b).msgs, Run("", b).left)
  {
    hide Run, Feed, Unfinished;
    var x := Run(left, a);
    RunLeft(left, a);
    FeedOverflow(x.left, c);
    RunAppend(left, a, [c] + b);
    assert a + [c] + b == a + ([c] + b);
    RunOne(x.left, c, b);
  }

  lemma RunOne(left: string, c: string, b: seq<string>)
    requires Feed(left, c) == Received([], "")
    ensures Run(left, [c] + b) == Run("", b)
  {
    hide Feed;
    assert ([c] + b)[1..] == b && [] + Run("", b).msgs == Run("", b).msgs;
  }

  function Flatten(chunks: seq<string>): string
  {
    if chunks == [] then "" else chunks[0] + Flatten(chunks[1..])
  }

  /** Every chunk fits behind the unfinished line, and no unfinished line fills the buffer. */
  predicate Fits(left: string, chunks: seq<string>)
    decreases |chunks|
  {
    chunks == [] ||
    var s := left + chunks[0];
    && |s| <= MAX_CHARS
    && (Index(s, CRLF) < 0 ==> |s| < MAX_CHARS)
    && Fits(Split(s, CRLF).left, chunks[1..])
  }

  predicate Unfinished(left: string)
  {
    |left| < MAX_CHARS && Index(left, CRLF) < 0
  }

  lemma FeedLeft(left: string, chunk: string)
    requires Unfinished(left)
    ensures Unfinished(Feed(left, chunk).left)
  {
    SplitCuts(left + chunk, CRLF);
    if Feed(left, chunk) == Split(left + chunk, CRLF) && Split(left + chunk, CRLF).msgs != [] {
      var r := Split(left + chunk, CRLF);
      assert |Stream(r.msgs, CRLF)| >= 2;
    }
    assert Index("", CRLF) < 0;
  }

  lemma FlattenFirst(left: string, chunks: seq<string>)
    requires chunks != []
    ensures left + Flatten(chunks) == left + chunks[0] + Flatten(chunks[1..])
  {
  }

  lemma {:induction false} RunWhenFits(left: string, chunks: seq<string>)
    requires Unfinished(left) && Fits(left, chunks)
    ensures Run(left, chunks) == Split(left + Flatten(chunks), CRLF)
    decreases |chunks|
  {
    if chunks == [] {
      assert left + Flatten(chunks) == left;
    } else {
      var now := Split(left + chunks[0], CRLF);
      assert Feed(left, chunks[0]) == now;
      FeedLeft(left, chunks[0]);
      RunWhenFits(now.left, chunks[1..]);
      FlattenFirst(left, chunks);
      SplitAppend(left + chunks[0], Flatten(chunks[1..]), CRLF);
    }
  }

  /** Stream bytes accounted for by what was emitted and what is still stored. */
  function Weight(r: Received): nat
  {
    |Stream(r.msgs, CRLF)| + |r.left|
  }

  /** A run never accounts for more bytes than it was given, and for fewer as soon as one
      chunk does not fit. */
  lemma {:induction false} RunWeight(left: string, chunks: seq<string>)
    requires Unfinished(left)
    ensures Weight(Run(left, chunks)) <= |left| + |Flatten(chunks)|
    ensures !Fits(left, chunks) ==> Weight(Run(left, chunks)) < |left| + |Flatten(chunks)|
    decreases |chunks|
  {
    if chunks != [] {
      var now := Feed(left, chunks[0]);
      FeedLeft(left, chunks[0]);
      SplitCuts(left + chunks[0], CRLF);
      RunWeight(now.left, chunks[1..]);
      StreamAppend(now.msgs, Run(now.left, chunks[1..]).msgs, CRLF);
    }
  }

  /** Chunk independence, and exactly when it holds: reading the stream chunk by chunk emits
      the CR-LF split of the whole stream if and only if no chunk overflows the buffer. */
  lemma ChunkIndependence(left: string, chunks: seq<string>)
    requires Unfinished(left)
    ensures Run(left, chunks) == Split(left + Flatten(chunks), CRLF) <==> Fits(left, chunks)
  {
    if Fits(left, chunks) {
      RunWhenFits(left, chunks);
    } else {
      RunWeight(left, chunks);
      SplitCuts(left + Flatten(chunks), CRLF);
    }
  }
}
