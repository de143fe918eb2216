/** The line editor of the client's input window: characters shifted in place in the message
    that is being typed. */
module LineEditors {
  import opened CString
  import opened Framing
  import opened StringUtils

  const PROMPT_SIZE: int := 2

  /** The editor as the user sees it: a text and a position in it. */
  datatype Edit = Edit(text: string, at: nat)
  {
    predicate Valid() { at <= |text| <= MAX_CHARS && NUL !in text }
  }

  datatype Key = Insert(ch: char) | Backspace | Delete | Home | End | Left | Right

  predicate CanAdd(e: Edit, width: int)
  {
    e.at + PROMPT_SIZE < width - 1 && |e.text| < MAX_CHARS
  }

  function Typed(e: Edit, ch: char): Edit
    requires e.Valid()
  {
    Edit(e.text[..e.at] + [ch] + e.text[e.at..], e.at + 1)
  }

  function Deleted(e: Edit): Edit
    requires e.Valid() && e.at < |e.text|
  {
    Edit(e.text[..e.at] + e.text[e.at + 1..], e.at)
  }

  function Press(e: Edit, key: Key, width: int): Edit
    requires e.Valid()
  {
    match key
    case Insert(ch) => if CanAdd(e, width) then Typed(e, ch) else e
    case Backspace => if e.at > 0 then Deleted(e.(at := e.at - 1)) else e
    case Delete => if e.at < |e.text| then Deleted(e) else e
    case Home => e.(at := 0)
    case End => e.(at := |e.text|)
    case Left => if e.at > 0 then e.(at := e.at - 1) else e
    case Right => if e.at < |e.text| then e.(at := e.at + 1) else e
  }

  predicate NonNul(key: Key) { key.Insert? ==> key.ch != NUL }

  /** The keys that only move the cursor move it to the start, to the end, or by one as far as
      the text reaches. */
  lemma KeysMove(e: Edit, width: int)
    requires e.Valid()
    ensures Press(e, Home, width) == Edit(e.text, 0) && Press(e, End, width) == Edit(e.text, |e.text|)
    ensures e.at > 0 ==> Press(Press(e, Left, width), Right, width) == e && Press(e, Left, width).at == e.at - 1
    ensures e.at < |e.text| ==> Press(Press(e, Right, width), Left, width) == e && Press(e, Right, width).at == e.at + 1
    ensures Press(Edit(e.text, 0), Left, width) == Edit(e.text, 0)
    ensures Press(Edit(e.text, |e.text|), Right, width) == Edit(e.text, |e.text|)
  {
  }

  lemma PressKeeps(e: Edit, key: Key, width: int)
    requires e.Valid() && NonNul(key)
    ensures Press(e, key, width).Valid()
  {
  }

  function Presses(e: Edit, keys: seq<Key>, width: int): (r: Edit)
    requires e.Valid() && forall k <- keys :: NonNul(k)
    ensures r.Valid()
    decreases |keys|
  {
    if keys == [] then e
    else
      PressKeeps(e, keys[0], width);
      Presses(Press(e, keys[0], width), keys[1..], width)
  }

  lemma ThreePresses(e: Edit, a: Key, b: Key, c: Key, width: int)
    requires e.Valid() && NonNul(a) && NonNul(b) && NonNul(c)
    ensures var d := Press(e, a, width);
            && d.Valid() && Press(d, b, width).Valid()
            && Presses(e, [a, b, c], width) == Press(Press(d, b, width), c, width)
  {
    hide Press;
    var keys := [a, b, c];
    PressKeeps(e, a, width);
    var d := Press(e, a, width);
    PressKeeps(d, b, width);
    assert keys[1..] == [b, c] && keys[1..][1..] == [c] && keys[1..][1..][1..] == [];
    var f := Press(d, b, width);
    PressKeeps(f, c, width);
    assert Presses(d, [b, c], width) == Presses(f, [b, c][1..], width);
    assert Presses(f, [c], width) == Presses(Press(f, c, width), [c][1..], width);
  }

  /** An accepted character is taken back by a backspace, and by a step left and a delete. */
  lemma TypedThenErased(e: Edit, ch: char, width: int)
    requires e.Valid() && ch != NUL && CanAdd(e, width)
    ensures Press(Press(e, Insert(ch), width), Backspace, width) == e
    ensures Presses(e, [Insert(ch), Left, Delete], width) == e
  {
    var t := Typed(e, ch);
    assert t.Valid();
    assert t.text[..e.at] == e.text[..e.at] && t.text[e.at + 1..] == e.text[e.at..];
    assert e.text[..e.at] + e.text[e.at..] == e.text;
    ThreePresses(e, Insert(ch), Left, Delete, width);
  }

  /** A deleted character comes back when it is typed again, if the width allows it. */
  lemma DeletedThenTyped(e: Edit, width: int)
    requires e.Valid() && e.at < |e.text|
    ensures Presses(e, [Delete, Insert(e.text[e.at]), Left], width) == e <==> e.at + PROMPT_SIZE < width - 1
  {
    var ch, d := e.text[e.at], Deleted(e);
    assert d.Valid() && Press(e, Delete, width) == d;
    assert d.text[..e.at] == e.text[..e.at] && d.text[e.at..] == e.text[e.at + 1..];
    assert e.text == e.text[..e.at] + [ch] + e.text[e.at + 1..];
    ThreePresses(e, Delete, Insert(ch), Left, width);
  }

  function Inserts(s: string): (keys: seq<Key>)
    ensures |keys| == |s|
    ensures NUL !in s ==> forall k <- keys :: NonNul(k)
  {
    if s == "" then [] else [Insert(s[0])] + Inserts(s[1..])
  }

  /** The longest text that can be typed from an empty line. */
  function Room(width: int): nat
  {
    var n := width - 1 - PROMPT_SIZE;
    if n < 0 then 0 else if n > MAX_CHARS then MAX_CHARS else n
  }

  lemma TypedAtEnd(done: string, ch: char)
    requires |done| <= MAX_CHARS && NUL !in done
    ensures Typed(Edit(done, |done|), ch) == Edit(done + [ch], |done| + 1)
  {
    assert done[..|done|] + [ch] + done[|done|..] == done + [ch];
  }

  lemma PressesFirst(e: Edit, s: string, width: int)
    requires e.Valid() && s != "" && NUL !in s
    ensures Press(e, Insert(s[0]), width).Valid()
    ensures forall k <- Inserts(s) :: NonNul(k)
    ensures forall k <- Inserts(s[1..]) :: NonNul(k)
    ensures Presses(e, Inserts(s), width) == Presses(Press(e, Insert(s[0]), width), Inserts(s[1..]), width)
  {
    hide Press;
    assert forall c <- s[1..] :: c in s;
    assert Inserts(s)[1..] == Inserts(s[1..]);
    PressKeeps(e, Insert(s[0]), width);
  }

  /** Typing gives what is typed, as far as there is room. */
  lemma {:induction false} Typing(done: string, s: string, width: int)
    requires NUL !in done && NUL !in s && |done| <= Room(width)
    ensures forall k <- Inserts(s) :: NonNul(k)
    ensures var all := done + s;
            Presses(Edit(done, |done|), Inserts(s), width) ==
            (if |all| <= Room(width) then Edit(all, |all|) else Edit(all[..Room(width)], Room(width)))
    decreases |s|
  {
    hide Presses, Inserts, Typed;
    if s == "" {
      assert done + s == done;
      NothingTyped(Edit(done, |done|), width);
    } else {
      var e, rest := Edit(done, |done|), s[1..];
      assert s[0] in s && forall c <- rest :: c in s;
      PressesFirst(e, s, width);
      if CanAdd(e, width) {
        TypedAtEnd(done, s[0]);
        Typing(done + [s[0]], rest, width);
        assert done + s == done + [s[0]] + rest;
      } else {
        FullLine(e, rest, width);
        assert (done + s)[..Room(width)] == done;
      }
    }
  }

  lemma NothingTyped(e: Edit, width: int)
    requires e.Valid()
    ensures Inserts("") == [] && Presses(e, Inserts(""), width) == e
  {
  }

  lemma {:induction false} FullLine(e: Edit, s: string, width: int)
    requires e.Valid() && !CanAdd(e, width) && forall k <- Inserts(s) :: NonNul(k)
    ensures Presses(e, Inserts(s), width) == e
    decreases |s|
  {
    if s != "" {
      assert Inserts(s)[1..] == Inserts(s[1..]);
      FullLine(e, s[1..], width);
    }
  }

  // ----- the editor in place

  /** How a text is stored: zeros behind it up to the end of the message. */
  function Stored(text: string): (s: seq<char>)
    requires |text| <= MAX_CHARS
    ensures |s| == MAX_CHARS + 1
  {
    text + Zeros(MAX_CHARS + 1 - |text|)
  }

  lemma StoredText(text: string)
    requires |text| <= MAX_CHARS && NUL !in text
    ensures Text(Stored(text)) == text && IsCString(Stored(text))
  {
    assert Stored(text)[|text|] == NUL && Stored(text)[..|text|] == text;
    TextIs(Stored(text), |text|);
  }

  lemma Spliced(was: seq<char>, at: nat, n: nat)
    requires at < n < |was|
    ensures var z := Overwrite(was, at, was[at + 1..n + 1]);
            z[..n - 1] == was[..at] + was[at + 1..n] && z[n - 1] == was[n]
  {
    var z := Overwrite(was, at, was[at + 1..n + 1]);
    assert was[at + 1..n + 1][n - 1 - at] == was[n];
  }

  /** Shifting the rest of a string over one character removes that character. */
  lemma ShiftedText(was: seq<char>, bytes: seq<char>, e: Edit)
    requires e.Valid() && e.at < |e.text|
    requires IsCString(was) && Text(was) == e.text
    requires |e.text| < |was| && bytes == Overwrite(was, e.at, was[e.at + 1..|e.text| + 1])
    ensures Text(bytes) == Deleted(e).text
  {
    hide Text, Overwrite;
    var n := |e.text|;
    Spliced(was, e.at, n);
    assert was[..n] == e.text && was[n] == NUL;
    assert was[..e.at] == e.text[..e.at] && was[e.at + 1..n] == e.text[e.at + 1..];
    assert forall c <- Deleted(e).text :: c in e.text;
    TextIs(bytes, n - 1);
  }

  /** `after` is `before` with one more character, which stands at position `at`. */
  ghost predicate Inserted(before: string, at: int, ch: char, after: string)
  {
    && |after| == |before| + 1 && 0 <= at <= |before| && after[at] == ch
    && after[..at] == before[..at] && after[at + 1..] == before[at..]
  }

  /** `after` is `before` without the character at position `at`. */
  ghost predicate Removed(before: string, at: int, after: string)
  {
    0 <= at < |before| && Inserted(after, at, before[at], before)
  }

  lemma TypedInserts(e: Edit, ch: char)
    requires e.Valid()
    ensures Inserted(e.text, e.at, ch, Typed(e, ch).text)
  {
  }

  lemma DeletedRemoves(e: Edit)
    requires e.Valid() && e.at < |e.text|
    ensures Removed(e.text, e.at, Deleted(e).text) && Deleted(e).at == e.at
  {
  }

  lemma TypedValid(e: Edit, ch: char)
    requires e.Valid() && |e.text| < MAX_CHARS && ch != NUL
    ensures Typed(e, ch).Valid() && |Typed(e, ch).text| == |e.text| + 1 && Typed(e, ch).at == e.at + 1
  {
  }

  /** A stored text with one more character in it. */
  lemma StoredTyped(was: seq<char>, bytes: seq<char>, e: Edit, ch: char)
    requires e.Valid() && |e.text| < MAX_CHARS && was == Stored(e.text) && |bytes| == |was|
    requires forall k :: 0 <= k < e.at ==> bytes[k] == was[k]
    requires bytes[e.at] == ch
    requires forall k :: e.at < k <= |e.text| ==> bytes[k] == was[k - 1]
    requires forall k :: |e.text| < k < |was| ==> bytes[k] == was[k]
    ensures bytes == Stored(Typed(e, ch).text) && bytes[..|e.text| + 1] == Typed(e, ch).text
  {
    var t := Typed(e, ch).text;
    assert forall k :: 0 <= k < |e.text| ==> was[k] == e.text[k];
    assert forall k :: 0 <= k <= |e.text| ==> bytes[k] == t[k];
  }

  class LineEditor {
    const content: array<char>
    const inputWidth: int
    var cursor: int
    var charCount: int

    ghost predicate Valid()
      reads this, content
    {
      && content.Length == MAX_CHARS + 1 && 0 <= charCount <= MAX_CHARS
      && PROMPT_SIZE <= cursor <= PROMPT_SIZE + charCount
      && NUL !in content[..charCount]
      && content[..] == Stored(content[..charCount])
    }

    ghost function View(): (e: Edit)
      requires Valid()
      reads this, content
      ensures e.Valid() && Text(content[..]) == e.text && content[..] == Stored(e.text)
      ensures charCount == |e.text| && cursor == PROMPT_SIZE + e.at
    {
      StoredText(content[..charCount]);
      Edit(content[..charCount], cursor - PROMPT_SIZE)
    }

    constructor (inputWidth: int)
      ensures Valid() && fresh(content) && View() == Edit("", 0) && this.inputWidth == inputWidth
    {
      content := new char[MAX_CHARS + 1](_ => NUL);
      this.inputWidth := inputWidth;
      cursor, charCount := PROMPT_SIZE, 0;
      new;
      assert content[..0] == "";
      assert content[..] == Stored("");
    }

    /** set_message_char. */
    method SetChar(ch: char, index: int)
      modifies content
      ensures content[..] == if 0 <= index < content.Length then old(content[..])[index := ch] else old(content[..])
    {
      if index >= 0 && index < content.Length {
        content[index] := ch;
      }
    }

    method CanAddChar() returns (add: bool)
      requires Valid()
      ensures add == CanAdd(View(), inputWidth)
    {
      add := cursor < inputWidth - 1 && charCount < MAX_CHARS;
    }

    method AddChar(ch: char) returns (added: bool)
      requires Valid() && ch != NUL
      modifies this, content
      ensures Valid() && View() == Press(old(View()), Insert(ch), inputWidth)
      ensures added == (old(cursor) < inputWidth - 1 && old(charCount) < MAX_CHARS)
      ensures cursor == old(cursor) + (if added then 1 else 0) && charCount == old(charCount) + (if added then 1 else 0)
      ensures added ==> Inserted(old(content[..charCount]), old(cursor) - PROMPT_SIZE, ch, content[..charCount])
      ensures !added ==> content[..] == old(content[..])
    {
      added := CanAddChar();
      if added {
        TypedInserts(View(), ch);
        InsertChar(ch);
      }
    }

    method InsertChar(ch: char)
      requires Valid() && ch != NUL && charCount < MAX_CHARS
      modifies this, content
      ensures Valid() && View() == Typed(old(View()), ch)
    {
      hide Stored, Typed, Text;
      ghost var was, e := content[..], View();
      ShiftRight();
      SetChar(ch, cursor - PROMPT_SIZE);
      StoredTyped(was, content[..], e, ch);
      charCount, cursor := charCount + 1, cursor + 1;
      TypedValid(e, ch);
    }

    /** Makes place for a character at the cursor. */
    method ShiftRight()
      requires content.Length == MAX_CHARS + 1
      requires PROMPT_SIZE <= cursor <= PROMPT_SIZE + charCount < PROMPT_SIZE + MAX_CHARS
      modifies content
      ensures forall k :: 0 <= k <= cursor - PROMPT_SIZE ==> content[k] == old(content[k])
      ensures forall k :: cursor - PROMPT_SIZE < k <= charCount ==> content[k] == old(content[k - 1])
      ensures forall k :: charCount < k < content.Length ==> content[k] == old(content[k])
    {
      ghost var was := content[..];
      var i := charCount + PROMPT_SIZE;
      while i > cursor
        invariant cursor <= i <= charCount + PROMPT_SIZE
        invariant forall k :: 0 <= k <= i - PROMPT_SIZE ==> content[k] == was[k]
        invariant forall k :: i - PROMPT_SIZE < k <= charCount ==> content[k] == was[k - 1]
        invariant forall k :: charCount < k < content.Length ==> content[k] == was[k]
      {
        SetChar(content[i - PROMPT_SIZE - 1], i - PROMPT_SIZE);
        i := i - 1;
      }
    }

    /** Deletes the character at the cursor. */
    method DeleteChar()
      requires Valid() && cursor - PROMPT_SIZE < charCount
      modifies this, content
      ensures Valid() && View() == Deleted(old(View()))
    {
      hide Text, Overwrite;
      ghost var e := View();
      var at := cursor - PROMPT_SIZE;
      var buffer := CopyContent();
      ghost var was := buffer[..];
      var size := |Text(buffer[..])|;
      ShiftChars(buffer, size, at, at + 1);
      ShiftedText(was, buffer[..], e);
      StoreShorter(Text(buffer[..]), e.text);
      charCount := charCount - 1;
    }

    /** A copy of the message. */
    method CopyContent() returns (buffer: array<char>)
      requires Valid()
      ensures fresh(buffer) && buffer.Length == MAX_CHARS + 1
      ensures IsCString(buffer[..]) && Text(buffer[..]) == View().text
    {
      hide Text;
      buffer := new char[MAX_CHARS + 1](_ => NUL);
      var text := Text(content[..]);
      assert View().text == text;
      assert buffer[..0] + text == text;
      var _ := SafeCopy(buffer, 0, MAX_CHARS + 1, text);
    }

    /** set_message_content, with a text that is one shorter: the zeros behind it meet. */
    method StoreShorter(text: string, ghost was: string)
      requires content.Length == MAX_CHARS + 1 && |was| <= MAX_CHARS && content[..] == Stored(was)
      requires |text| == |was| - 1
      modifies content
      ensures content[..] == Stored(text)
    {
      Store(content, 0, text + [NUL]);
    }

    method Backspace() returns (deleted: bool)
      requires Valid()
      modifies this, content
      ensures Valid() && View() == Press(old(View()), Key.Backspace, inputWidth)
      ensures deleted == (old(cursor) > PROMPT_SIZE) && cursor == old(cursor) - (if deleted then 1 else 0)
      ensures deleted ==> Removed(old(content[..charCount]), cursor - PROMPT_SIZE, content[..charCount])
      ensures !deleted ==> content[..] == old(content[..])
    {
      deleted := false;
      if cursor > PROMPT_SIZE {
        ghost var e := View();
        DeletedRemoves(e.(at := e.at - 1));
        cursor := cursor - 1;
        DeleteChar();
        deleted := true;
      }
    }

    method Delete() returns (deleted: bool)
      requires Valid()
      modifies this, content
      ensures Valid() && View() == Press(old(View()), Key.Delete, inputWidth)
      ensures deleted == (old(cursor) < PROMPT_SIZE + old(charCount)) && cursor == old(cursor)
      ensures deleted ==> Removed(old(content[..charCount]), cursor - PROMPT_SIZE, content[..charCount])
      ensures !deleted ==> content[..] == old(content[..])
    {
      deleted := false;
      if cursor - PROMPT_SIZE < charCount {
        DeletedRemoves(View());
        DeleteChar();
        deleted := true;
      }
    }

    method Home() returns (moved: bool)
      requires Valid()
      modifies this`cursor
      ensures Valid() && View() == Press(old(View()), Key.Home, inputWidth)
      ensures cursor == PROMPT_SIZE
      ensures moved == (View() != old(View()))
    {
      moved := false;
      if cursor > PROMPT_SIZE {
        cursor := PROMPT_SIZE;
        moved := true;
      }
    }

    method End() returns (moved: bool)
      requires Valid()
      modifies this`cursor
      ensures Valid() && View() == Press(old(View()), Key.End, inputWidth)
      ensures cursor == PROMPT_SIZE + charCount
      ensures moved == (View() != old(View()))
    {
      moved := false;
      if cursor < charCount + PROMPT_SIZE {
        cursor := charCount + PROMPT_SIZE;
        moved := true;
      }
    }

    method Left() returns (moved: bool)
      requires Valid()
      modifies this`cursor
      ensures Valid() && View() == Press(old(View()), Key.Left, inputWidth)
      ensures cursor == if old(cursor) > PROMPT_SIZE then old(cursor) - 1 else old(cursor)
      ensures moved == (View() != old(View()))
    {
      moved := false;
      if cursor > PROMPT_SIZE {
        cursor := cursor - 1;
        moved := true;
      }
    }

    method Right() returns (moved: bool)
      requires Valid()
      modifies this`cursor
      ensures Valid() && View() == Press(old(View()), Key.Right, inputWidth)
      ensures cursor == if old(cursor) < PROMPT_SIZE + charCount then old(cursor) + 1 else old(cursor)
      ensures moved == (View() != old(View()))
    {
      moved := false;
      if cursor - PROMPT_SIZE < charCount {
        cursor := cursor + 1;
        moved := true;
      }
    }
  }
}
