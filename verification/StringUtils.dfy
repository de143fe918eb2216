/** The string functions that work in place on NUL-terminated buffers. */
module StringUtils {
  import opened CString

  function Overwrite(s: seq<char>, at: nat, x: seq<char>): (r: seq<char>)
    requires at + |x| <= |s|
    ensures |r| == |s|
  {
    s[..at] + x + s[at + |x|..]
  }

  lemma OverwriteParts(s: seq<char>, at: nat, x: seq<char>)
    requires at + |x| <= |s|
    ensures var r := Overwrite(s, at, x);
            && r[..at] == s[..at]
            && r[at..at + |x|] == x
            && r[at + |x|..] == s[at + |x|..]
            && forall k :: 0 <= k < |x| ==> r[at + k] == x[k]
  {
  }

  function Zeros(n: nat): (r: seq<char>)
    ensures |r| == n && forall k :: 0 <= k < n ==> r[k] == NUL
  {
    seq(n, _ => NUL)
  }

  /** Stores `x` from position `at` on: memset with zeros, memmove with a part of a buffer,
      strcpy with a string and its terminator. */
  method Store(dst: array<char>, at: nat, x: seq<char>)
    requires at + |x| <= dst.Length
    modifies dst
    ensures dst[..] == Overwrite(old(dst[..]), at, x)
  {
    forall k | at <= k < at + |x| {
      dst[k] := x[k - at];
    }
  }

  lemma TextOverwrite(s: seq<char>, at: nat, x: string)
    requires at + |x| + 1 <= |s| && NUL !in s[..at] && NUL !in x
    ensures Text(Overwrite(s, at, x + [NUL])) == s[..at] + x
  {
    hide Text;
    var r, y := Overwrite(s, at, x + [NUL]), x + [NUL];
    assert r[..at + |x|] == s[..at] + x;
    assert r[at + |x|] == y[|x|];
    TextIs(r, at + |x|);
  }

  /** Copies all of `src` behind the first `at` characters, or nothing. */
  method SafeCopy(dst: array<char>, at: nat, size: nat, src: string) returns (copied: bool)
    requires at + size <= dst.Length && NUL !in src
    requires NUL !in dst[..at]
    modifies dst
    ensures copied == (|src| < size)
    ensures copied ==> Text(dst[..]) == old(dst[..at]) + src && IsCString(dst[..])
    ensures !copied ==> dst[..] == old(dst[..])
  {
    copied := false;
    if |src| < size {
      TextOverwrite(dst[..], at, src);
      Store(dst, at, src + [NUL]);
      assert dst[at + |src|] == NUL;
      copied := true;
    }
  }

  /** The string a pointer into another string points to. */
  lemma TextFrom(s: seq<char>, p: nat)
    requires IsCString(s) && p <= |Text(s)|
    ensures Text(s[p..]) == Text(s)[p..] && IsCString(s[p..])
  {
    hide Text;
    var t := Text(s);
    assert s[..|s|] == s;
    assert |t| < |s|;
    var u := s[p..];
    assert u[|t| - p] == NUL;
    assert u[..|t| - p] == s[..|t|][p..] == t[p..];
    TextIs(u, |t| - p);
  }

  /** Zeroing a delimiter splits the string in two. */
  lemma DelimiterZeroed(s: seq<char>, d: string, i: nat)
    requires IsCString(s) && d != "" && At(Text(s), d, i)
    ensures var z := Overwrite(s, i, Zeros(|d|));
            && Text(z) == Text(s)[..i]
            && IsCString(z[i + |d|..])
            && Text(z[i + |d|..]) == Text(s)[i + |d|..]
  {
    hide Text, Overwrite;
    var z := Overwrite(s, i, Zeros(|d|));
    OverwriteParts(s, i, Zeros(|d|));
    assert z[i + 0] == NUL;
    assert s[..i] == Text(s)[..i];
    TextIs(z, i);
    TextFrom(s, i + |d|);
  }

  lemma ZeroAt(s: seq<char>, at: nat)
    requires at < |s|
    ensures Overwrite(s, at, Zeros(1)) == s[at := NUL] && IsCString(s[at := NUL])
  {
    assert Zeros(1) == [NUL];
    assert s[at := NUL][at] == NUL;
  }

  lemma FrontText(s: seq<char>, x: string)
    requires |x| + 1 <= |s| && NUL !in x
    ensures var z := Overwrite(s, 0, x + [NUL]); IsCString(z) && Text(z) == x
  {
    hide Text;
    TextOverwrite(s, 0, x);
    assert s[..0] + x == x;
    assert Overwrite(s, 0, x + [NUL])[|x|] == NUL;
  }

  lemma Cleared(s: seq<char>)
    requires IsCString(s)
    ensures var z := Overwrite(s, 0, Zeros(|Text(s)|)); IsCString(z) && Text(z) == ""
  {
    hide Text;
    var n := |Text(s)|;
    var z := Overwrite(s, 0, Zeros(n));
    assert s[..|s|] == s && n < |s|;
    assert z[n] == s[n] == NUL;
    if n > 0 {
      assert z[0] == Zeros(n)[0];
    }
    TextIs(z, 0);
  }

  /** Moves the string at `from` to the front of the buffer, or clears the buffer's string
      when there is none. */
  method MoveToFront(str: array<char>, from: nat)
    requires from < str.Length && IsCString(str[..]) && IsCString(str[from..])
    modifies str
    ensures IsCString(str[..]) && Text(str[..]) == old(Text(str[from..]))
  {
    hide Text, Overwrite, IsCString;
    var rest := Text(str[from..]);
    RestFits(str[..], from);
    assert str[from..] == str[..][from..];
    if |rest| > 0 {
      FrontText(str[..], rest);
      Store(str, 0, rest + [NUL]);
    } else {
      Cleared(str[..]);
      Store(str, 0, Zeros(|Text(str[..])|));
    }
  }

  lemma RestFits(s: seq<char>, from: nat)
    requires from < |s| && IsCString(s[from..])
    ensures |Text(s[from..])| + 1 <= |s|
  {
    var t := s[from..];
    assert t[..|t|] == t;
  }

  /** Moves the first delimited message from `str` to `buffer`, if there is one. */
  method ExtractMessage(buffer: array<char>, size: nat, str: array<char>, delim: string) returns (extracted: bool)
    requires buffer != str && size <= buffer.Length
    requires IsCString(str[..]) && delim != "" && NUL !in delim
    modifies buffer, str
    ensures IsCString(str[..])
    ensures var s := old(Text(str[..])); var i := Index(s, delim);
            && extracted == (i >= 0)
            && (!extracted ==> str[..] == old(str[..]) && buffer[..] == old(buffer[..]))
            && (extracted ==>
                  && Text(str[..]) == s[i + |delim|..]
                  && (i < size ==> Text(buffer[..]) == s[..i])
                  && (i >= size ==> buffer[..] == old(buffer[..])))
  {
    var i := Index(Text(str[..]), delim);
    extracted := false;
    if i >= 0 {
      DelimiterZeroed(str[..], delim, i);
      Store(str, i, Zeros(|delim|));
      var copied := SafeCopy(buffer, 0, size, Text(str[..]));
      MoveToFront(str, i + |delim|);
      extracted := true;
    }
  }

  /** shift_chars: moves what is from `endIdx` on, terminator included, to `startIdx`. */
  method ShiftChars(buffer: array<char>, size: nat, startIdx: int, endIdx: int)
    requires size < buffer.Length
    modifies buffer
    ensures buffer[..] ==
            if 0 <= startIdx < endIdx <= size
            then Overwrite(old(buffer[..]), startIdx, old(buffer[endIdx..size + 1]))
            else old(buffer[..])
  {
    if startIdx < endIdx && startIdx >= 0 && endIdx <= size {
      ghost var was := buffer[..];
      var offset := size - endIdx;
      for i := 0 to offset + 1
        invariant forall k :: startIdx <= k < startIdx + i ==> buffer[k] == was[k + (endIdx - startIdx)]
        invariant forall k :: 0 <= k < startIdx || startIdx + i <= k < buffer.Length ==> buffer[k] == was[k]
      {
        buffer[startIdx + i] := buffer[endIdx + i];
      }
      assert buffer[..] == Overwrite(was, startIdx, was[endIdx..size + 1]);
    }
  }
}
