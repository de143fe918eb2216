/** Cutting a string at its first delimiters, and joining tokens into one string. */
module Tokens {
  import opened Common
  import opened CString

  /** At most `k` pieces: the string cut at its first k - 1 delimiters. */
  function Cut(s: string, k: nat, d: char): (c: seq<string>)
    requires k > 0
    ensures 0 < |c| <= k
    decreases k
  {
    var i := Index(s, [d]);
    if k == 1 || i < 0 then [s] else [s[..i]] + Cut(s[i + 1..], k - 1, d)
  }

  function Join(tokens: seq<string>, d: char): string
  {
    if tokens == [] then "" else if |tokens| == 1 then tokens[0] else tokens[0] + [d] + Join(tokens[1..], d)
  }

  /** Tokens that a delimiter can separate. */
  predicate Plain(tokens: seq<string>, d: char)
  {
    forall t <- tokens :: t != "" && d !in t
  }

  predicate EndsIn(s: string, d: char)
  {
    s != "" && s[|s| - 1] == d
  }

  /** Without the delimiter it ends with, if it does. */
  function Unended(s: string, d: char): string
  {
    if EndsIn(s, d) then s[..|s| - 1] else s
  }

  /** The last piece loses the delimiter it ends with. */
  function Trimmed(pieces: seq<string>, d: char): (r: seq<string>)
    requires pieces != []
    ensures |r| == |pieces|
  {
    pieces[..|pieces| - 1] + [Unended(pieces[|pieces| - 1], d)]
  }

  /** Only the last piece may be empty. */
  predicate Regular(s: string, k: nat, d: char)
    requires k > 0
  {
    var c := Cut(s, k, d);
    forall i :: 0 <= i < |c| - 1 ==> c[i] != ""
  }

  lemma IndexChar(s: string, d: char)
    ensures Index(s, [d]) < 0 <==> d !in s
    ensures Index(s, [d]) >= 0 ==> Index(s, [d]) < |s| && s[Index(s, [d])] == d && d !in s[..Index(s, [d])]
  {
    IndexFirst(s, [d]);
    var i := Index(s, [d]);
    forall j | 0 <= j < |s|
      ensures At(s, [d], j) <==> s[j] == d
    {
      assert s[j..j + 1] == [s[j]];
    }
  }

  lemma IndexToken(t: string, rest: string, d: char)
    requires d !in t
    ensures Index(t + [d] + rest, [d]) == |t|
  {
    var s := t + [d] + rest;
    assert s[|t|..|t| + 1] == [d];
    forall j: nat | j < |t|
      ensures !At(s, [d], j)
    {
      assert s[j..j + 1] == [t[j]];
    }
    IndexIs(s, [d], |t|);
  }

  lemma CutStep(t: string, rest: string, k: nat, d: char)
    requires k > 1 && d !in t
    ensures Cut(t + [d] + rest, k, d) == [t] + Cut(rest, k - 1, d)
  {
    hide Index;
    var s := t + [d] + rest;
    IndexToken(t, rest, d);
    assert s[..|t|] == t && s[|t| + 1..] == rest;
  }

  lemma CutOne(t: string, k: nat, d: char)
    requires k > 0 && d !in t
    ensures Cut(t, k, d) == [t]
  {
    IndexChar(t, d);
  }

  /** Cutting a join gives the tokens back, the last piece joining what is left. */
  lemma {:induction false} CutJoin(tokens: seq<string>, k: nat, d: char)
    requires k > 0 && tokens != [] && Plain(tokens, d)
    ensures Cut(Join(tokens, d), k, d) ==
            if |tokens| <= k then tokens else tokens[..k - 1] + [Join(tokens[k - 1..], d)]
    decreases k
  {
    hide Index, Cut;
    var t, ts := tokens[0], tokens[1..];
    assert t in tokens && tokens == [t] + ts;
    if |tokens| == 1 {
      CutOne(t, k, d);
    } else if k == 1 {
      CutWhole(Join(tokens, d), d);
      assert tokens[0..] == tokens;
    } else {
      CutStep(t, Join(ts, d), k, d);
      assert forall x <- ts :: x in tokens;
      CutJoin(ts, k - 1, d);
      if |tokens| > k {
        assert tokens[..k - 1] == [t] + ts[..k - 2] && ts[k - 2..] == tokens[k - 1..];
      }
    }
  }

  lemma CutWhole(s: string, d: char)
    ensures Cut(s, 1, d) == [s]
  {
  }

  lemma {:induction false} JoinEnd(tokens: seq<string>, d: char)
    requires tokens != [] && Plain(tokens, d)
    ensures Join(tokens, d) != "" && !EndsIn(Join(tokens, d), d)
  {
    assert tokens[0] in tokens;
    if |tokens| > 1 {
      assert forall x <- tokens[1..] :: x in tokens;
      JoinEnd(tokens[1..], d);
    }
  }

  /** So the pieces of a join need no trimming, and none of them is empty. */
  lemma JoinRegular(tokens: seq<string>, k: nat, d: char)
    requires k > 0 && tokens != [] && Plain(tokens, d)
    ensures var s := Join(tokens, d); var c := Cut(s, k, d);
            && Regular(s, k, d) && Trimmed(c, d) == c
            && |c| == (if |tokens| < k then |tokens| else k)
            && c[|c| - 1] != ""
  {
    hide Cut, Join;
    CutJoin(tokens, k, d);
    JoinEnd(tokens, d);
    assert forall i :: 0 <= i < |tokens| ==> tokens[i] in tokens;
    if |tokens| > k {
      JoinEnd(tokens[k - 1..], d);
    }
  }

  lemma CutMore(s: string, k: nat, d: char)
    requires k > 1 && Index(s, [d]) >= 0
    ensures var i := Index(s, [d]); Cut(s, k, d) == [s[..i]] + Cut(s[i + 1..], k - 1, d)
  {
  }

  lemma JoinMore(t: string, c: seq<string>, d: char)
    requires c != []
    ensures Join([t] + c, d) == t + [d] + Join(c, d)
  {
    assert ([t] + c)[1..] == c;
  }

  lemma JoinOne(t: string, d: char)
    ensures Join([t], d) == t
  {
  }

  /** One token more is joined on at the end. */
  lemma {:induction false} JoinAppend(words: seq<string>, last: string, d: char)
    requires words != []
    ensures Join(words, d) + [d] + last == Join(words + [last], d)
  {
    var all := words + [last];
    assert all[1..] == words[1..] + [last];
    if |words| > 1 {
      JoinAppend(words[1..], last, d);
    } else {
      assert all[1..] == [last];
    }
  }

  lemma JoinTwo(a: string, b: string, d: char)
    ensures Join([a, b], d) == a + [d] + b
  {
    hide Join;
    JoinOne(a, d);
    JoinAppend([a], b, d);
    assert [a] + [b] == [a, b];
  }

  lemma JoinThree(a: string, b: string, c: string, d: char)
    ensures Join([a, b, c], d) == a + [d] + b + [d] + c
  {
    hide Join;
    JoinTwo(a, b, d);
    JoinAppend([a, b], c, d);
    assert [a, b] + [c] == [a, b, c];
  }

  /** Cutting loses nothing: joining the pieces gives the string back. */
  lemma {:induction false} JoinCut(s: string, k: nat, d: char)
    requires k > 0
    ensures Join(Cut(s, k, d), d) == s
    decreases k
  {
    hide Index, Cut, Join;
    IndexChar(s, d);
    var i := Index(s, [d]);
    if k > 1 && i >= 0 {
      CutMore(s, k, d);
      JoinCut(s[i + 1..], k - 1, d);
      JoinMore(s[..i], Cut(s[i + 1..], k - 1, d), d);
      assert s == s[..i] + [d] + s[i + 1..];
    } else {
      CutLittle(s, k, d);
      JoinOne(s, d);
    }
  }

  lemma CutLittle(s: string, k: nat, d: char)
    requires k > 0 && (k == 1 || Index(s, [d]) < 0)
    ensures Cut(s, k, d) == [s]
  {
  }

  /** Words cut off in front of a last piece that may hold delimiters itself. */
  lemma {:induction false} CutLast(words: seq<string>, last: string, d: char)
    requires forall w <- words :: d !in w
    ensures Cut(Join(words + [last], d), |words| + 1, d) == words + [last]
  {
    hide Index, Cut;
    if words == [] {
      CutWhole(last, d);
    } else {
      var all := words + [last];
      assert all[1..] == words[1..] + [last] && words[0] in words;
      CutStep(words[0], Join(words[1..] + [last], d), |words| + 1, d);
      CutLast(words[1..], last, d);
    }
  }

  // ----- strings that start with a delimiter or repeat one

  /** What tokenize_string makes of any string. `held` is what it has passed over since the last
      cut; a delimiter at position `gap` of the rest is taken for a repeated one and passed
      over as well. Behind such a delimiter the gap is one, so that a delimiter after a single
      character counts as repeated too. */
  function Pieces(held: string, rest: string, gap: nat, k: nat, d: char): (r: seq<string>)
    requires k > 0
    ensures 0 < |r| <= k
    decreases |rest|
  {
    var i := Index(rest, [d]);
    if k == 1 then [held + Unended(rest, d)]
    else if i < 0 then [held + rest]
    else if i == gap then Pieces(held + rest[..i + 1], rest[i + 1..], 1, k, d)
    else [held + rest[..i]] + Pieces("", rest[i + 1..], 0, k - 1, d)
  }

  function Tokenized(s: string, k: nat, d: char): (r: seq<string>)
    requires k > 0
    ensures 0 < |r| <= k
  {
    Pieces("", s, 0, k, d)
  }

  /** The number of delimiters that are cut at when there is no limit. */
  function Cuts(rest: string, gap: nat, d: char): nat
    decreases |rest|
  {
    var i := Index(rest, [d]);
    if i < 0 then 0
    else if i == gap then Cuts(rest[i + 1..], 1, d)
    else 1 + Cuts(rest[i + 1..], 0, d)
  }

  lemma {:induction false} PieceCount(held: string, rest: string, gap: nat, k: nat, d: char)
    requires k > 0
    ensures |Pieces(held, rest, gap, k, d)| == if 1 + Cuts(rest, gap, d) < k then 1 + Cuts(rest, gap, d) else k
    decreases |rest|
  {
    hide Index;
    var i := Index(rest, [d]);
    if k > 1 && i >= 0 {
      if i == gap {
        PieceCount(held + rest[..i + 1], rest[i + 1..], 1, k, d);
      } else {
        PieceCount("", rest[i + 1..], 0, k - 1, d);
      }
    }
  }

  lemma TrimmedMore(p: string, c: seq<string>, d: char)
    requires c != []
    ensures Trimmed([p] + c, d) == [p] + Trimmed(c, d)
  {
    var all := [p] + c;
    assert all[..|all| - 1] == [p] + c[..|c| - 1];
  }

  /** On a string with no delimiter in front or repeated, as far as it is cut, the pieces are
      those of the cut; the last one loses a delimiter it ends with. */
  lemma {:induction false} RegularPieces(s: string, k: nat, d: char)
    requires k > 0 && Regular(s, k, d)
    ensures Tokenized(s, k, d) == Trimmed(Cut(s, k, d), d)
    decreases k
  {
    hide Index, Cut, Trimmed;
    IndexChar(s, d);
    var i := Index(s, [d]);
    if k > 1 && i >= 0 {
      var rest := s[i + 1..];
      CutMore(s, k, d);
      var c := Cut(rest, k - 1, d);
      assert Cut(s, k, d)[0] == s[..i];
      forall j | 0 <= j < |c| - 1
        ensures c[j] != ""
      {
        assert c[j] == Cut(s, k, d)[j + 1];
      }
      RegularPieces(rest, k - 1, d);
      TrimmedMore(s[..i], c, d);
      assert "" + s[..i] == s[..i];
    } else {
      LastPiece(s, k, d);
    }
  }

  lemma LastPiece(s: string, k: nat, d: char)
    requires k > 0 && (k == 1 || Index(s, [d]) < 0)
    ensures Tokenized(s, k, d) == [Unended(s, d)] == Trimmed(Cut(s, k, d), d)
  {
    IndexChar(s, d);
    assert "" + s == s && "" + Unended(s, d) == Unended(s, d);
    assert ([s])[..0] == [];
  }

  /** Joined, the pieces are the whole, up to a delimiter that the last one has lost at the
      limit. */
  predicate Rejoins(p: seq<string>, k: nat, whole: string, d: char)
  {
    Join(p, d) == whole || (|p| == k && Join(p, d) + [d] == whole)
  }

  lemma RejoinsMore(a: string, p: seq<string>, k: nat, whole: string, d: char)
    requires p != [] && Rejoins(p, k, whole, d)
    ensures Rejoins([a] + p, k + 1, a + [d] + whole, d)
  {
    hide Join;
    JoinMore(a, p, d);
    Associative(a + [d], Join(p, d), [d]);
  }

  lemma PiecesOn(held: string, rest: string, gap: nat, k: nat, d: char, i: nat)
    requires k > 1 && i == Index(rest, [d])
    ensures i < |rest| && rest == rest[..i + 1] + rest[i + 1..] && rest[..i + 1] == rest[..i] + [d]
    ensures Pieces(held, rest, gap, k, d) ==
            if i == gap then Pieces(held + rest[..i + 1], rest[i + 1..], 1, k, d)
            else [held + rest[..i]] + Pieces("", rest[i + 1..], 0, k - 1, d)
  {
    hide Index;
    IndexChar(rest, d);
  }

  lemma PiecesEnd(held: string, rest: string, gap: nat, k: nat, d: char)
    requires k == 1 || (k > 1 && Index(rest, [d]) < 0)
    ensures Rejoins(Pieces(held, rest, gap, k, d), k, held + rest, d)
  {
    hide Index, Join;
    JoinOne(held + rest, d);
    if k == 1 {
      JoinOne(held + Unended(rest, d), d);
      assert held + Unended(rest, d) == held + rest || held + Unended(rest, d) + [d] == held + rest;
    }
  }

  /** Nothing is lost: joined, the pieces give the string back. */
  lemma {:induction false} PiecesJoin(held: string, rest: string, gap: nat, k: nat, d: char)
    requires k > 0
    ensures Rejoins(Pieces(held, rest, gap, k, d), k, held + rest, d)
    decreases |rest|
  {
    hide Index, Rejoins, Pieces;
    var i := Index(rest, [d]);
    if k == 1 || i < 0 {
      PiecesEnd(held, rest, gap, k, d);
    } else {
      var u, t := rest[..i + 1], rest[i + 1..];
      PiecesOn(held, rest, gap, k, d, i);
      Associative(held, u, t);
      if i == gap {
        PiecesJoin(held + u, t, 1, k, d);
      } else {
        PiecesJoin("", t, 0, k - 1, d);
        assert "" + t == t;
        RejoinsMore(held + rest[..i], Pieces("", t, 0, k - 1, d), k - 1, t, d);
        Associative(held, rest[..i], [d]);
      }
    }
  }

  lemma PiecesPass(held: string, t: string, rest: string, k: nat, d: char)
    requires k > 1 && d !in t
    ensures Pieces(held, t + [d] + rest, |t|, k, d) == Pieces(held + t + [d], rest, 1, k, d)
  {
    hide Index;
    IndexToken(t, rest, d);
    var s := t + [d] + rest;
    assert s[..|t| + 1] == t + [d] && s[|t| + 1..] == rest;
    assert held + (t + [d]) == held + t + [d];
  }

  lemma PiecesCut(held: string, t: string, rest: string, gap: nat, k: nat, d: char)
    requires k > 1 && d !in t && |t| != gap
    ensures Pieces(held, t + [d] + rest, gap, k, d) == [held + t] + Pieces("", rest, 0, k - 1, d)
  {
    hide Index;
    IndexToken(t, rest, d);
    var s := t + [d] + rest;
    assert s[..|t|] == t && s[|t| + 1..] == rest;
  }

  /** A delimiter directly behind another stays in the token, which goes on to the next
      delimiter when that is not just one character away. */
  lemma RepeatedOnce(w: string, v: string, rest: string, k: nat, d: char)
    requires k > 2 && w != "" && d !in w && |v| != 1 && v != "" && d !in v
    ensures Tokenized(w + [d] + ([d] + (v + [d] + rest)), k, d) == [w, [d] + v] + Tokenized(rest, k - 2, d)
  {
    hide Pieces;
    var s := v + [d] + rest;
    PiecesCut("", w, [d] + s, 0, k, d);
    PiecesPass("", "", s, k - 1, d);
    assert "" + [d] + s == [d] + s && "" + "" + [d] == [d] && "" + w == w;
    PiecesCut([d], v, rest, 1, k - 1, d);
    assert [w] + ([[d] + v] + Tokenized(rest, k - 2, d)) == [w, [d] + v] + Tokenized(rest, k - 2, d);
  }

  /** When it is, that delimiter stays in the token as well. */
  lemma RepeatedTwice(w: string, c: char, rest: string, k: nat, d: char)
    requires k > 2 && w != "" && d !in w && c != d && d !in rest
    ensures Tokenized(w + [d] + ([d] + ([c] + [d] + rest)), k, d) == [w, [d] + [c] + [d] + rest]
  {
    hide Pieces;
    var s := [c] + [d] + rest;
    PiecesCut("", w, [d] + s, 0, k, d);
    PiecesPass("", "", s, k - 1, d);
    assert "" + [d] + s == [d] + s && "" + "" + [d] == [d] && "" + w == w;
    PiecesPass([d], [c], rest, k - 1, d);
    PiecesRest([d] + [c] + [d], rest, 1, k - 1, d);
  }

  lemma PiecesRest(held: string, rest: string, gap: nat, k: nat, d: char)
    requires k > 1 && d !in rest
    ensures Pieces(held, rest, gap, k, d) == [held + rest]
  {
    IndexChar(rest, d);
  }

  /** The string starts with the delimiter or has two in a row. */
  predicate Repeats(s: string, d: char)
  {
    exists j :: 0 <= j < |s| && s[j] == d && (j == 0 || s[j - 1] == d)
  }

  function Count(s: string, d: char): nat
  {
    if s == "" then 0 else (if s[0] == d then 1 else 0) + Count(s[1..], d)
  }

  lemma {:induction false} CountSplit(s: string, i: nat, d: char)
    requires i < |s| && s[i] == d && d !in s[..i]
    ensures Count(s, d) == 1 + Count(s[i + 1..], d)
  {
    if i > 0 {
      assert s[0] == s[..i][0] && s[1..][..i - 1] == s[..i][1..] && s[1..][i..] == s[i + 1..];
      CountSplit(s[1..], i - 1, d);
    }
  }

  lemma {:induction false} CountNone(s: string, d: char)
    requires d !in s
    ensures Count(s, d) == 0
  {
    if s != "" {
      CountNone(s[1..], d);
    }
  }

  lemma {:induction false} CutsBound(rest: string, gap: nat, d: char)
    ensures Cuts(rest, gap, d) <= Count(rest, d)
    decreases |rest|
  {
    hide Index, Count;
    IndexChar(rest, d);
    var i := Index(rest, [d]);
    if i >= 0 {
      CountSplit(rest, i, d);
      CutsBound(rest[i + 1..], if i == gap then 1 else 0, d);
    }
  }

  lemma RepeatsAfter(s: string, i: nat, d: char)
    requires i < |s| && s[i] == d && d !in s[..i]
    ensures Repeats(s, d) <==> i == 0 || Repeats(s[i + 1..], d)
  {
    var t := s[i + 1..];
    if i == 0 {
      assert s[0] == d;
    } else {
      assert forall j :: 0 <= j < i ==> s[..i][j] == s[j];
      forall j | i < j < |s| && s[j] == d && s[j - 1] == d
        ensures Repeats(t, d)
      {
        assert t[j - i - 1] == d && (j > i + 1 ==> t[j - i - 2] == d);
      }
      forall j | 0 <= j < |t| && t[j] == d && (j == 0 || t[j - 1] == d)
        ensures Repeats(s, d)
      {
        assert s[j + i + 1] == d && s[j + i] == d;
      }
    }
  }

  /** Every delimiter is cut at exactly when none stands in front or is repeated. */
  lemma {:induction false} AllCut(s: string, d: char)
    ensures Cuts(s, 0, d) == Count(s, d) <==> !Repeats(s, d)
    decreases |s|
  {
    hide Index, Count, Repeats;
    IndexChar(s, d);
    var i := Index(s, [d]);
    if i >= 0 {
      CountSplit(s, i, d);
      RepeatsAfter(s, i, d);
      if i == 0 {
        CutsBound(s[1..], 1, d);
      } else {
        AllCut(s[i + 1..], d);
      }
    } else {
      CountNone(s, d);
      NoRepeats(s, d);
    }
  }

  lemma NoRepeats(s: string, d: char)
    requires d !in s
    ensures !Repeats(s, d)
  {
  }
}
