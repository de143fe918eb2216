/** Numbers as text, and the tag that carries a descriptor in front of a message through the
    event queue and the server's out-queue. */
module FdTag {
  import opened Common
  import opened CString
  import opened Remainders
  import opened Framing
  import opened MessageList
  import opened Tokens
  import opened Tokenizer
  import opened Concat

  const MAX_DIGITS: nat := 10
  const INT_MAX: int := 0x7FFF_FFFF
  const LONG_MAX: int := 0x7FFF_FFFF_FFFF_FFFF
  const DELIM: char := '|'

  // ----- uint_to_str

  function DigitChar(n: nat): (c: char)
    requires n < 10
    ensures '0' <= c <= '9' && c != NUL && c != DELIM
  {
    '0' + n as char
  }

  function Decimal(n: nat): (s: string)
    ensures s != "" && forall i :: 0 <= i < |s| ==> '0' <= s[i] <= '9'
  {
    if n < 10 then [DigitChar(n)] else Decimal(n / 10) + [DigitChar(n % 10)]
  }

  function Pow10(k: nat): (p: nat)
    ensures p >= 1
  {
    if k == 0 then 1 else 10 * Pow10(k - 1)
  }

  lemma {:induction false} DecimalLength(n: nat, k: nat)
    requires k > 0 && (k == 1 || Pow10(k - 1) <= n) && n < Pow10(k)
    ensures |Decimal(n)| == k
  {
    assert Pow10(1) == 10 * Pow10(0) == 10;
    if k > 1 {
      assert Pow10(k) == 10 * Pow10(k - 1);
      assert Pow10(k - 1) == 10 * Pow10(k - 2);
      if k == 2 {
        DecimalLength(n / 10, 1);
      } else {
        DecimalLength(n / 10, k - 1);
      }
    }
  }

  lemma OneQuotient(a: nat, q: nat, r: nat, n: nat)
    requires r < n && a == q * n + r
    ensures a / n == q
  {
    var d, m := a / n, a % n;
    assert a == d * n + m;
    if d > q {
      MulGap(d, q, n);
    } else if d < q {
      MulGap(q, d, n);
    }
  }

  lemma DivideTwice(n: nat, p: nat)
    requires p > 0
    ensures n / 10 / p == n / (10 * p)
  {
    var a, b := n / 10, n % 10;
    var q, r := a / p, a % p;
    assert a == q * p + r;
    assert n == 10 * (q * p) + 10 * r + b;
    assert 10 * (q * p) == q * (10 * p);
    OneQuotient(n, q, 10 * r + b, 10 * p);
  }

  /** Counted from the right, the i-th character is the digit of the i-th power of ten. */
  lemma {:induction false} DecimalDigit(n: nat, i: nat)
    requires i < |Decimal(n)|
    ensures Decimal(n)[|Decimal(n)| - 1 - i] as int == '0' as int + n / Pow10(i) % 10
  {
    hide Pow10;
    PowZero();
    if i > 0 {
      PowerStep(i - 1);
      DivideTwice(n, Pow10(i - 1));
      DecimalDigit(n / 10, i - 1);
    }
  }

  lemma PowerStep(k: nat)
    ensures Pow10(k + 1) == 10 * Pow10(k)
  {
  }

  lemma BelowBillion(k: nat)
    requires Pow10(k) < 1_000_000_000
    ensures k < 9 && 10 * Pow10(k) <= 1_000_000_000
  {
    assert Pow10(8) == 100_000_000 && Pow10(9) == 1_000_000_000;
    if k < 9 {
      Growing(k, 8);
    } else {
      Growing(9, k);
    }
  }

  lemma {:induction false} Growing(j: nat, k: nat)
    requires j <= k
    ensures Pow10(j) <= Pow10(k) && (j < k ==> Pow10(j) < Pow10(k))
  {
    if j < k {
      Growing(j, k - 1);
    }
  }

  /** The number of decimal digits; the divisor stays within an int. */
  method CountDigits(number: nat) returns (digits: nat)
    requires number < 1_000_000_000
    ensures digits == |Decimal(number)| && digits < MAX_DIGITS
  {
    hide Pow10;
    var divisor := 10;
    digits := 1;
    PowerStep(0);
    assert Pow10(0) == 1 by { PowZero(); }
    while number >= divisor
      invariant 1 <= digits && divisor == Pow10(digits) <= INT_MAX
      invariant digits == 1 || Pow10(digits - 1) <= number
      decreases number - divisor
    {
      BelowBillion(digits);
      PowerStep(digits);
      divisor := divisor * 10;
      digits := digits + 1;
    }
    DecimalLength(number, digits);
    if digits > 1 {
      BelowBillion(digits - 1);
    }
  }

  lemma PowNine()
    ensures Pow10(9) == 1_000_000_000
  {
    assert Pow10(5) == 100_000;
  }

  lemma PowZero()
    ensures Pow10(0) == 1
  {
  }

  lemma DigitBefore(n: nat, tail: string)
    ensures var c := DigitChar(n % 10);
            if n < 10 then |Decimal(n)| == 1 && Decimal(n) + tail == [c] + tail
            else |Decimal(n)| == |Decimal(n / 10)| + 1 && Decimal(n) + tail == Decimal(n / 10) + ([c] + tail)
  {
    if n >= 10 {
      Associative(Decimal(n / 10), [DigitChar(n % 10)], tail);
    }
  }

  lemma SliceFirst(was: string, bytes: string, i: nat, j: nat, tail: string)
    requires i < j <= |was| && |bytes| == |was| && bytes == was[i := bytes[i]] && was[i + 1..j] == tail
    ensures bytes[i..j] == [bytes[i]] + tail
  {
  }

  /** Fills in the digits from the last one to the first. */
  method FillDigits(buffer: array<char>, number: nat)
    requires |Decimal(number)| < buffer.Length
    modifies buffer
    ensures buffer[..|Decimal(number)|] == Decimal(number)
    ensures forall k :: |Decimal(number)| <= k < buffer.Length ==> buffer[k] == old(buffer[k])
  {
    hide Decimal;
    var digits: nat := |Decimal(number)|;
    var n, i := number, 0;
    ghost var tail := "";
    assert Decimal(number) + tail == Decimal(number);
    while i < digits
      invariant 0 <= i <= digits && |tail| == i && buffer[digits - i..digits] == tail
      invariant i < digits ==> Decimal(number) == Decimal(n) + tail
      invariant i == digits ==> Decimal(number) == tail
      invariant forall k :: digits <= k < buffer.Length ==> buffer[k] == old(buffer[k])
    {
      DigitBefore(n, tail);
      ghost var bytes := buffer[..];
      buffer[digits - i - 1] := DigitChar(n % 10);
      SliceFirst(bytes, buffer[..], digits - i - 1, digits, tail);
      tail := [DigitChar(n % 10)] + tail;
      n := n / 10;
      i := i + 1;
    }
  }

  /** uint_to_str, on a zeroed buffer. */
  method UintToStr(buffer: array<char>, size: nat, number: nat) returns (converted: bool)
    requires number < 1_000_000_000 && size <= buffer.Length
    requires forall k :: 0 <= k < buffer.Length ==> buffer[k] == NUL
    modifies buffer
    ensures converted == (|Decimal(number)| < size)
    ensures converted ==> Text(buffer[..]) == Decimal(number) && IsCString(buffer[..])
    ensures !converted ==> buffer[..] == old(buffer[..])
  {
    hide Text, Pow10, Decimal;
    var digits := CountDigits(number);
    converted := false;
    if digits < size {
      FillDigits(buffer, number);
      DigitsNulFree(number);
      assert buffer[digits] == NUL && buffer[..][..digits] == Decimal(number);
      TextIs(buffer[..], digits);
      var end := |Text(buffer[..])|;
      ghost var bytes := buffer[..];
      buffer[end] := NUL;
      assert buffer[..] == bytes;
      converted := true;
    }
  }

  lemma DigitsNulFree(n: nat)
    ensures NUL !in Decimal(n)
  {
  }

  // ----- str_to_uint

  predicate IsSpace(c: char)
  {
    c == ' ' || 9 <= c as int <= 13
  }

  /** The value of a digit in any base up to 36. */
  function Digit(c: char): (v: nat)
  {
    if '0' <= c <= '9' then c as nat - '0' as nat
    else if 'a' <= c <= 'z' then c as nat - 'a' as nat + 10
    else if 'A' <= c <= 'Z' then c as nat - 'A' as nat + 10
    else 36
  }

  function SkipSpaces(s: string): string
  {
    if s != "" && IsSpace(s[0]) then SkipSpaces(s[1..]) else s
  }

  function Value(s: string, base: nat): nat
  {
    if s == "" then 0 else Value(s[..|s| - 1], base) * base + Digit(s[|s| - 1])
  }

  /** strtol with base 0, for a string that is a number as a whole; anything else, a negative
      number or one out of range is refused with -1. The value is cut to an int. */
  function StrToUint(s: string): (r: int)
    ensures -INT_MAX - 1 <= r <= INT_MAX
  {
    var t := SkipSpaces(s);
    var negative := t != "" && t[0] == '-';
    var u := if t != "" && (t[0] == '-' || t[0] == '+') then t[1..] else t;
    var hex := |u| > 2 && u[0] == '0' && (u[1] == 'x' || u[1] == 'X') && Digit(u[2]) < 16;
    var base := if hex then 16 else if u != "" && u[0] == '0' then 8 else 10;
    var ds := if hex then u[2..] else u;
    if ds == "" || exists i :: 0 <= i < |ds| && Digit(ds[i]) >= base then -1
    else if Value(ds, base) > LONG_MAX then -1
    else if negative && Value(ds, base) > 0 then -1
    else ToInt(Value(ds, base))
  }

  function ToInt(n: nat): (r: int)
    ensures -INT_MAX - 1 <= r <= INT_MAX
    ensures n <= INT_MAX ==> r == n
  {
    var m := n % 0x1_0000_0000;
    if m > INT_MAX then m - 0x1_0000_0000 else m
  }

  lemma {:induction false} ValueDecimal(n: nat)
    ensures Value(Decimal(n), 10) == n
  {
    var s := Decimal(n);
    if n < 10 {
      assert s[..0] == "";
    } else {
      ValueDecimal(n / 10);
      assert s[..|s| - 1] == Decimal(n / 10);
    }
  }

  lemma {:induction false} NoLeadingZero(n: nat)
    requires n > 0
    ensures Decimal(n)[0] != '0'
  {
    if n >= 10 {
      NoLeadingZero(n / 10);
    }
  }

  /** Reading a printed number gives the number back. */
  lemma StrToUintDecimal(n: nat)
    requires n <= INT_MAX
    ensures StrToUint(Decimal(n)) == n
  {
    hide Value;
    var s := Decimal(n);
    ValueDecimal(n);
    assert SkipSpaces(s) == s;
    assert forall i :: 0 <= i < |s| ==> Digit(s[i]) < 10;
    if n > 0 {
      NoLeadingZero(n);
    } else {
      assert s == "0";
      ValueZero();
    }
  }

  lemma ValueZero()
    ensures Value("0", 8) == 0
  {
    var s := "0";
    assert s[..|s| - 1] == "";
  }

  // ----- the tag

  function Tag(fd: nat, text: string): string
  {
    Decimal(fd) + [DELIM] + text
  }

  /** The tagged text as it is stored: no more of it than fits. */
  function Encode(fd: nat, text: string, size: nat): string
    requires size > 0
  {
    Clip(Tag(fd, text), size - 1)
  }

  /** `Ignored`: there is not exactly one delimiter. `Exited`: there is no second token, and the
      program ends. */
  datatype Decoded = Ignored | Tagged(fd: int, text: string) | Exited

  function Decode(s: string): Decoded
  {
    if |Split(s, [DELIM]).msgs| != 1 then Ignored
    else
      var pieces := Tokenized(s, 2, DELIM);
      if |pieces| != 2 then Exited else Tagged(StrToUint(pieces[0]), pieces[1])
  }

  lemma TagWords(fd: nat, text: string, size: nat)
    requires size > 0
    ensures var words := Words([Chars(Decimal(fd)), Chars([DELIM]), Chars(text)]);
            words != [] && Concatenated("", words, "", size) == Encode(fd, text, size)
  {
    hide Decimal;
    var t := [Chars(Decimal(fd)), Chars([DELIM]), Chars(text)];
    var last := if text == "" then [] else [text];
    assert t[1..] == [Chars([DELIM]), Chars(text)] && t[1..][1..] == [Chars(text)] && t[1..][1..][1..] == [];
    assert Words(t[1..][1..]) == last;
    assert Words(t[1..]) == [[DELIM]] + last;
    assert Words(t) == [Decimal(fd)] + ([[DELIM]] + last);
    var words := Words(t);
    assert words[1..] == [[DELIM]] + last && words[1..][1..] == last;
    assert Filled(last, "") == text by {
      if text != "" {
        assert last[1..] == [] && Filled(last, "") == text + "" + "";
      }
    }
    assert Filled(words[1..], "") == [DELIM] + "" + text;
    assert "" + Filled(words, "") == Tag(fd, text);
  }

  lemma {:induction false} DecimalBelow(n: nat, k: nat)
    requires k > 0 && n < Pow10(k)
    ensures |Decimal(n)| <= k
  {
    if n >= 10 {
      assert Pow10(1) == 10 * Pow10(0);
      DecimalBelow(n / 10, k - 1);
    }
  }

  /** process_socket_data and add_message_to_queue. */
  method FormatTag(fd: nat, text: string, size: nat) returns (message: array<char>)
    requires fd < 1_000_000_000 && NUL !in text && size > 1
    ensures fresh(message) && message.Length == size && IsCString(message[..])
    ensures Text(message[..]) == Encode(fd, text, size)
  {
    hide Text, Concatenated, Words, Encode, Decimal;
    message := new char[size](_ => NUL);
    var fdStr := new char[MAX_DIGITS](_ => NUL);
    assert message[0] == NUL;
    assert Text(message[..]) == "" by {
      TextIs(message[..], 0);
    }
    DecimalBelow(fd, 9) by {
      assert fd < Pow10(9) by { PowNine(); }
    }
    var _ := UintToStr(fdStr, MAX_DIGITS, fd);
    var t := Text(fdStr[..]);
    TagWords(fd, text, size);
    var _ := ConcatTokens(message, size, [Chars(t), Chars([DELIM]), Chars(text)], "");
  }

  /** handle_ne_client_msg_event and send_socket_messages. */
  method DecodeTag(message: array<char>) returns (d: Decoded)
    requires IsCString(message[..])
    modifies message
    ensures d == Decode(old(Text(message[..])))
  {
    hide Text, Tokenized, Split, StrToUint, Index;
    d := Ignored;
    var s := Text(message[..]);
    var count := CountDelimiters(s, [DELIM]);
    if count == 1 {
      var tokens, _ := TokenizeString(message, 2, DELIM);
      if |tokens| < 2 {
        d := Exited;
      } else {
        ghost var bytes := message[..];
        assert message[tokens[0]..] == bytes[tokens[0]..] && message[tokens[1]..] == bytes[tokens[1]..];
        d := Tagged(StrToUint(Text(message[tokens[0]..])), Text(message[tokens[1]..]));
      }
    }
  }

  /** The program ends exactly when the only delimiter stands in front. */
  lemma DecodeExits(s: string)
    ensures Decode(s) == Exited <==> s != "" && s[0] == DELIM && DELIM !in s[1..]
  {
    hide Index, Split, StrToUint;
    IndexChar(s, DELIM);
    Delimiters(s);
    var i := Index(s, [DELIM]);
    PieceCount("", s, 0, 2, DELIM);
    if i >= 0 {
      SplitStep(s, [DELIM]);
      Delimiters(s[i + 1..]);
      if i == 0 && DELIM !in s[1..] {
        NoCuts(s[1..], 1);
      }
    }
  }

  lemma NoCuts(rest: string, gap: nat)
    requires DELIM !in rest
    ensures Cuts(rest, gap, DELIM) == 0
  {
    IndexChar(rest, DELIM);
  }

  lemma DigitsOnly(n: nat)
    ensures DELIM !in Decimal(n)
  {
  }

  lemma Delimiters(x: string)
    ensures Split(x, [DELIM]).msgs == [] <==> DELIM !in x
  {
    IndexChar(x, DELIM);
  }

  lemma TagPieces(fd: nat, x: string)
    ensures Tokenized(Tag(fd, x), 2, DELIM) == [Decimal(fd), Unended(x, DELIM)]
  {
    hide Decimal, Cut, Tokenized, Index;
    var a, s := Decimal(fd), Tag(fd, x);
    DigitsOnly(fd);
    CutStep(a, x, 2, DELIM);
    CutWhole(x, DELIM);
    var c := [a] + [x];
    assert Cut(s, 2, DELIM) == c;
    assert forall j :: 0 <= j < |c| - 1 ==> c[j] == a;
    RegularPieces(s, 2, DELIM);
    assert c[..|c| - 1] == [a];
  }

  lemma TagSplit(fd: nat, x: string)
    ensures |Split(Tag(fd, x), [DELIM]).msgs| == 1 <==> DELIM !in x
  {
    hide Decimal, Split, Index;
    var a, s := Decimal(fd), Tag(fd, x);
    DigitsOnly(fd);
    IndexToken(a, x, DELIM);
    SplitStep(s, [DELIM]);
    assert s[..|a|] == a && s[|a| + 1..] == x;
    Delimiters(x);
  }

  /** What decoding makes of a descriptor, a delimiter and any text. */
  lemma DecodeTagged(fd: nat, x: string)
    requires fd <= INT_MAX
    ensures Decode(Tag(fd, x)) == if DELIM in x then Ignored else Tagged(fd, x)
  {
    hide Decimal, Tokenized, Split, StrToUint, Tag;
    TagSplit(fd, x);
    TagPieces(fd, x);
    StrToUintDecimal(fd);
  }

  /** What is stored: the digits, a bar and the text, or as much of the text as there is room
      for; and what decoding makes of it. */
  lemma EncodeReads(fd: nat, text: string, size: nat)
    requires fd < 1_000_000_000 && size > MAX_DIGITS
    ensures |Decimal(fd)| <= size - 2
    ensures var n := size - 2 - |Decimal(fd)|;
            var x := if |text| < n then text else text[..n];
            && Encode(fd, text, size) == Decimal(fd) + "|" + x
            && Decode(Encode(fd, text, size)) == if '|' in x then Ignored else Tagged(fd, x)
  {
    hide Decimal, Decode;
    DecimalBelow(fd, 9) by {
      assert fd < Pow10(9) by { PowNine(); }
    }
    var x := Clip(text, size - 2 - |Decimal(fd)|);
    assert Encode(fd, text, size) == Tag(fd, x);
    DecodeTagged(fd, x);
  }

  /** Tagging and decoding give the descriptor and the text back exactly when the text has no
      delimiter and fits; a text with a delimiter that fits is always ignored. */
  lemma TagRoundTrip(fd: nat, text: string, size: nat)
    requires fd < 1_000_000_000 && size > MAX_DIGITS
    ensures var s := Encode(fd, text, size);
            && (Decode(s) == Tagged(fd, text) <==> DELIM !in text && |Tag(fd, text)| < size)
            && (DELIM in text && |Tag(fd, text)| < size ==> Decode(s) == Ignored)
  {
    hide Decimal, Decode, Encode;
    DecimalBelow(fd, 9) by {
      assert fd < Pow10(9) by { PowNine(); }
    }
    EncodeReads(fd, text, size);
  }
}
