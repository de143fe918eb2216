/** Character arrays holding NUL-terminated strings, and the C library searches the string
    code relies on. */
module CString {

  const NUL: char := '\0'

  /** The string stored in `s`: its characters before the first NUL. Its length is strlen. */
  function Text(s: seq<char>): (r: string)
    ensures |r| <= |s| && r == s[..|r|]
    ensures NUL !in r
    ensures |r| < |s| ==> s[|r|] == NUL
  {
    if |s| == 0 || s[0] == NUL then [] else [s[0]] + Text(s[1..])
  }

  /** The bytes hold a string at all: there is a terminator. */
  predicate IsCString(s: seq<char>) { NUL in s }

  lemma {:induction false} TextIs(s: seq<char>, n: nat)
    requires n < |s| && s[n] == NUL && NUL !in s[..n]
    ensures Text(s) == s[..n]
  {
    if n > 0 {
      assert s[0] == s[..n][0];
      assert s[1..][..n - 1] == s[..n][1..];
      TextIs(s[1..], n - 1);
    }
  }

  predicate At(s: string, d: string, j: nat)
  {
    j + |d| <= |s| && s[j..j + |d|] == d
  }

  /** strstr: the first position of `d` in `s`, or -1. */
  function Index(s: string, d: string): (i: int)
    ensures -1 <= i <= |s|
    ensures i >= 0 ==> At(s, d, i)
  {
    IndexFrom(s, d, 0)
  }

  lemma IndexFirst(s: string, d: string)
    ensures var i := Index(s, d);
            forall j: nat :: (i < 0 || j < i) ==> !At(s, d, j)
  {
  }

  function IndexFrom(s: string, d: string, from: nat): (i: int)
    requires from <= |s|
    ensures i == -1 || from <= i <= |s|
    ensures i >= 0 ==> At(s, d, i)
    ensures forall j: nat :: from <= j && (i < 0 || j < i) ==> !At(s, d, j)
    decreases |s| - from
  {
    if At(s, d, from) then from
    else if from == |s| then -1
    else IndexFrom(s, d, from + 1)
  }

  lemma IndexIs(s: string, d: string, i: nat)
    requires At(s, d, i)
    requires forall j: nat :: j < i ==> !At(s, d, j)
    ensures Index(s, d) == i
  {
    IndexFirst(s, d);
  }

  /** Appending text never moves the first occurrence. */
  lemma IndexAppend(s: string, t: string, d: string)
    requires Index(s, d) >= 0
    ensures Index(s + t, d) == Index(s, d)
  {
    IndexFirst(s, d);
    var i := Index(s, d);
    assert (s + t)[i..i + |d|] == s[i..i + |d|];
    forall j: nat | j < i
      ensures !At(s + t, d, j)
    {
      assert !At(s, d, j);
      assert (s + t)[j..j + |d|] == s[j..j + |d|];
    }
    IndexIs(s + t, d, i);
  }
}
