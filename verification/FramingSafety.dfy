/** What framing guarantees in every run, chunks that overflow the buffer included. */
module FramingSafety {
  import opened Common
  import opened CString
  import opened Framing

  /** Message k and its delimiter stand at position starts[k] of the received stream, in
      order and without overlap, none before `from`. */
  predicate Placed(stream: string, msgs: seq<string>, starts: seq<nat>, from: nat)
    decreases |msgs|
  {
    && |starts| == |msgs|
    && (msgs != [] ==>
          && from <= starts[0]
          && At(stream, msgs[0] + CRLF, starts[0])
          && Placed(stream, msgs[1..], starts[1..], starts[0] + |msgs[0]| + |CRLF|))
  }

  function Shift(starts: seq<nat>, n: nat): seq<nat>
  {
    seq(|starts|, k requires 0 <= k < |starts| => starts[k] + n)
  }

  lemma {:induction false} PlacedShift(x: string, stream: string, msgs: seq<string>, starts: seq<nat>, from: nat)
    requires Placed(stream, msgs, starts, from)
    ensures Placed(x + stream, msgs, Shift(starts, |x|), from + |x|)
    decreases |msgs|
  {
    if msgs != [] {
      var p, w := starts[0], msgs[0] + CRLF;
      assert (x + stream)[p + |x|..p + |x| + |w|] == stream[p..p + |w|];
      PlacedShift(x, stream, msgs[1..], starts[1..], p + |w|);
      assert Shift(starts, |x|)[1..] == Shift(starts[1..], |x|);
    }
  }

  lemma PlacedFirst(m: string, u: string, msgs: seq<string>, starts: seq<nat>)
    requires Placed(u, msgs, starts, 0)
    ensures Placed(m + CRLF + u, [m] + msgs, [0] + Shift(starts, |m + CRLF|), 0)
  {
    var w, all := m + CRLF, [0] + Shift(starts, |m + CRLF|);
    PlacedShift(w, u, msgs, starts, 0);
    assert (w + u)[0..|w|] == w;
    assert ([m] + msgs)[1..] == msgs && all[1..] == Shift(starts, |w|);
  }

  lemma StreamMore(a: seq<string>, t: string)
    requires a != []
    ensures Stream(a, CRLF) + t == a[0] + CRLF + (Stream(a[1..], CRLF) + t)
  {
    var x := Stream(a[1..], CRLF);
    Associative(a[0] + CRLF, x, t);
  }

  lemma ConsAppend<T>(a: seq<T>, b: seq<T>)
    requires a != []
    ensures a + b == [a[0]] + (a[1..] + b)
  {
  }

  lemma {:induction false} PlacedAfter(a: seq<string>, t: string, b: seq<string>, starts: seq<nat>) returns (all: seq<nat>)
    requires Placed(t, b, starts, 0)
    ensures Placed(Stream(a, CRLF) + t, a + b, all, 0)
    decreases |a|
  {
    if a == [] {
      assert Stream(a, CRLF) + t == t && a + b == b;
      all := starts;
    } else {
      hide Placed, Stream, Shift;
      var rest := PlacedAfter(a[1..], t, b, starts);
      StreamMore(a, t);
      ConsAppend(a, b);
      PlacedFirst(a[0], Stream(a[1..], CRLF) + t, a[1..] + b, rest);
      all := [0] + Shift(rest, |a[0] + CRLF|);
    }
  }

  lemma {:induction false} MessagesFit(msgs: seq<string>)
    requires |Stream(msgs, CRLF)| <= MAX_CHARS
    ensures forall m <- msgs :: |m| <= MAX_CHARS - |CRLF|
  {
    if msgs != [] {
      MessagesFit(msgs[1..]);
      forall m | m in msgs
        ensures |m| <= MAX_CHARS - |CRLF|
      {
        assert m == msgs[0] || m in msgs[1..];
      }
    }
  }

  lemma FeedMessages(left: string, chunk: string)
    requires Unfinished(left)
    ensures forall m <- Feed(left, chunk).msgs :: |m| <= MAX_CHARS - |CRLF| && Index(m, CRLF) < 0
  {
    var now := Feed(left, chunk);
    if now.msgs != [] {
      SplitCuts(left + chunk, CRLF);
      MessagesFit(now.msgs);
      forall m | m in now.msgs
        ensures Index(m, CRLF) < 0
      {
        if Index(m, CRLF) >= 0 {
          IndexAppend(m, CRLF, CRLF);
        }
      }
    }
  }

  /** Whatever the chunks, the messages emitted are contiguous pieces of the stream received,
      each ended there by its own delimiter, in order and without overlap. Bytes on both
      sides of a dropped chunk are never joined. */
  lemma {:induction false} EmittedArePieces(left: string, chunks: seq<string>)
    requires Unfinished(left)
    ensures exists starts :: Placed(left + Flatten(chunks), Run(left, chunks).msgs, starts, 0)
    ensures forall m <- Run(left, chunks).msgs :: |m| <= MAX_CHARS - |CRLF| && Index(m, CRLF) < 0
    ensures Unfinished(Run(left, chunks).left)
    decreases |chunks|
  {
    if chunks == [] {
      assert Placed(left + Flatten(chunks), Run(left, chunks).msgs, [], 0);
    } else {
      var now := Feed(left, chunks[0]);
      var rest := Run(now.left, chunks[1..]);
      FeedLeft(left, chunks[0]);
      FeedMessages(left, chunks[0]);
      EmittedArePieces(now.left, chunks[1..]);
      var starts :| Placed(now.left + Flatten(chunks[1..]), rest.msgs, starts, 0);
      var all := PiecesStep(left, chunks, starts);
      forall m | m in now.msgs + rest.msgs
        ensures |m| <= MAX_CHARS - |CRLF| && Index(m, CRLF) < 0
      {
        assert m in now.msgs || m in rest.msgs;
      }
    }
  }

  lemma PiecesAfterCut(s: string, t: string, a: Received, rest: seq<string>, starts: seq<nat>) returns (all: seq<nat>)
    requires IsCut(s, CRLF, a) && Placed(a.left + t, rest, starts, 0)
    ensures Placed(s + t, a.msgs + rest, all, 0)
  {
    var x := Stream(a.msgs, CRLF);
    assert s + t == x + (a.left + t);
    all := PlacedAfter(a.msgs, a.left + t, rest, starts);
  }

  lemma PiecesAfterDrop(s: string, t: string, rest: seq<string>, starts: seq<nat>) returns (all: seq<nat>)
    requires Placed(t, rest, starts, 0)
    ensures Placed(s + t, rest, all, 0)
  {
    PlacedShift(s, t, rest, starts, 0);
    all := Shift(starts, |s|);
    PlacedEarlier(s + t, rest, all, |s|);
  }

  lemma FeedCuts(left: string, chunk: string)
    requires Unfinished(left)
    ensures var now := Feed(left, chunk);
            now == Received([], "") || IsCut(left + chunk, CRLF, now)
  {
    hide Feed, Index, IsCut;
    if |left| + |chunk| > MAX_CHARS {
      FeedOverflow(left, chunk);
    } else {
      FeedFitting(left, chunk);
      SplitCuts(left + chunk, CRLF);
    }
  }

  lemma PiecesStep(left: string, chunks: seq<string>, starts: seq<nat>) returns (all: seq<nat>)
    requires Unfinished(left) && chunks != []
    requires var now := Feed(left, chunks[0]);
             Placed(now.left + Flatten(chunks[1..]), Run(now.left, chunks[1..]).msgs, starts, 0)
    ensures Placed(left + Flatten(chunks), Run(left, chunks).msgs, all, 0)
  {
    hide Placed, Unfinished, IsCut, Feed;
    var now := Feed(left, chunks[0]);
    var s, t := left + chunks[0], Flatten(chunks[1..]);
    var rest := Run(now.left, chunks[1..]).msgs;
    assert left + Flatten(chunks) == s + t;
    FeedCuts(left, chunks[0]);
    if now == Received([], "") {
      assert "" + t == t && [] + rest == rest;
      all := PiecesAfterDrop(s, t, rest, starts);
    } else {
      all := PiecesAfterCut(s, t, now, rest, starts);
    }
  }

  lemma PlacedEarlier(stream: string, msgs: seq<string>, starts: seq<nat>, from: nat)
    requires Placed(stream, msgs, starts, from)
    ensures Placed(stream, msgs, starts, 0)
  {
  }
}
