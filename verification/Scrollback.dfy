/** The scrollback of the client's window: lines in a ring, and a viewport that follows the
    newest line until the user scrolls. */
module Scrollbacks {
  import opened Remainders
  const DEF_MULTIPLIER: nat := 5

  /** The rows of the ring the viewport is about; `up`: the user has scrolled up, `pending`:
      there is a line the user has not seen. */
  datatype Scroll = Scroll(tail: int, head: int, topLine: int, bottomLine: int, count: nat, up: bool, pending: bool)

  datatype Op = Add | Up(lines: int) | Down(lines: int)

  function Min(a: int, b: int): int { if a < b then a else b }

  /** How far the viewport moves: no further than asked for, and than there are lines. */
  function Shift(asked: int, remaining: nat): (k: nat)
    ensures k <= remaining
  {
    if Min(asked, remaining) > 0 then Min(asked, remaining) else 0
  }

  const EMPTY: Scroll := Scroll(0, 0, 0, 0, 0, false, false)

  function Added(s: Scroll, capacity: nat, height: nat): Scroll
    requires capacity > 0 && s.head >= 0
  {
    var full := s.count == capacity;
    var head, count := CRem(s.head + 1, capacity), if full then s.count else s.count + 1;
    Scroll(
      if full then CRem(s.tail + 1, capacity) else s.tail,
      head,
      if !s.up && count > height then CRem(s.topLine + 1, capacity) else s.topLine,
      if s.up then s.bottomLine else head,
      count, s.up, s.up || s.pending)
  }

  function MovedUp(s: Scroll, asked: int, capacity: nat): Scroll
    requires capacity > 0
  {
    var k := if s.tail <= s.topLine then Shift(asked, s.topLine - s.tail) else 0;
    if k == 0 then s
    else s.(topLine := s.topLine - k, bottomLine := CRem(s.bottomLine - k, capacity), up := true)
  }

  /** Lines below the viewport. */
  function Below(s: Scroll, capacity: nat): (n: nat)
    requires 0 <= s.head < capacity && 0 - capacity < s.bottomLine < capacity
  {
    if s.bottomLine <= s.head then s.head - s.bottomLine else s.head - s.bottomLine + capacity
  }

  function MovedDown(s: Scroll, asked: int, capacity: nat): Scroll
    requires 0 <= s.head < capacity && 0 - capacity < s.bottomLine < capacity
  {
    var k := Shift(asked, Below(s, capacity));
    var seen := k == Below(s, capacity) && s.up;
    Scroll(s.tail, s.head, CRem(s.topLine + k, capacity), CRem(s.bottomLine + k, capacity), s.count,
           s.up && !seen, s.pending && !seen)
  }

  predicate InRange(s: Scroll, capacity: nat)
  {
    && 0 <= s.tail < capacity && 0 <= s.head < capacity && s.count <= capacity
    && 0 <= s.topLine < capacity && 0 - capacity < s.bottomLine < capacity
  }

  function Step(s: Scroll, op: Op, capacity: nat, height: nat): (r: Scroll)
    requires InRange(s, capacity)
    ensures InRange(r, capacity)
  {
    match op
    case Add => Added(s, capacity, height)
    case Up(n) => MovedUp(s, n, capacity)
    case Down(n) => MovedDown(s, n, capacity)
  }

  function Run(s: Scroll, ops: seq<Op>, capacity: nat, height: nat): (r: Scroll)
    requires InRange(s, capacity)
    ensures InRange(r, capacity)
    decreases |ops|
  {
    if ops == [] then s else Run(Step(s, ops[0], capacity, height), ops[1..], capacity, height)
  }

  function Adds(ops: seq<Op>): nat
  {
    if ops == [] then 0 else (if ops[0].Add? then 1 else 0) + Adds(ops[1..])
  }

  // ----- before the ring wraps

  /** The viewport lies within the lines, shows as many as it can, and the window knows whether
      there are lines below it. */
  predicate Inv(s: Scroll, capacity: nat, height: nat)
  {
    && 0 == s.tail <= s.topLine <= s.bottomLine <= s.head == s.count < capacity
    && s.bottomLine - s.topLine == Min(s.count, height)
    && (s.up <==> s.bottomLine < s.head)
    && (s.pending ==> s.up)
  }

  lemma StepKeeps(s: Scroll, op: Op, capacity: nat, height: nat)
    requires Inv(s, capacity, height)
    ensures Inv(Step(s, op, capacity, height), capacity, height) <==> !op.Add? || s.count + 1 < capacity
    ensures Step(s, op, capacity, height).count == s.count + if op.Add? then 1 else 0
  {
  }

  /** Once the ring is full it stays full, and the order of the indices is lost. */
  lemma FullStaysFull(s: Scroll, ops: seq<Op>, capacity: nat, height: nat)
    requires InRange(s, capacity) && s.count == capacity
    ensures Run(s, ops, capacity, height).count == capacity
    decreases |ops|
  {
    if ops != [] {
      FullStaysFull(Step(s, ops[0], capacity, height), ops[1..], capacity, height);
    }
  }

  /** The invariant holds at the end of a run exactly when fewer lines than the capacity have
      been added. */
  lemma {:induction false} RunKeeps(s: Scroll, ops: seq<Op>, capacity: nat, height: nat)
    requires Inv(s, capacity, height)
    ensures Inv(Run(s, ops, capacity, height), capacity, height) <==> s.count + Adds(ops) < capacity
    decreases |ops|
  {
    if ops != [] {
      var t := Step(s, ops[0], capacity, height);
      StepKeeps(s, ops[0], capacity, height);
      if t.count < capacity {
        RunKeeps(t, ops[1..], capacity, height);
      } else {
        FullStaysFull(t, ops[1..], capacity, height);
      }
    }
  }

  /** The run that a user sees, from an empty window. */
  lemma RunFromEmpty(ops: seq<Op>, capacity: nat, height: nat)
    requires capacity > 0
    ensures Inv(Run(EMPTY, ops, capacity, height), capacity, height) <==> Adds(ops) < capacity
  {
    hide Run, Adds;
    RunKeeps(EMPTY, ops, capacity, height);
  }

  /** Scrolling up and down again by as many lines changes nothing. */
  lemma UpDown(s: Scroll, n: int, capacity: nat, height: nat)
    requires Inv(s, capacity, height)
    ensures MovedDown(MovedUp(s, n, capacity), Shift(n, s.topLine), capacity) == s
  {
  }

  // ----- any number of lines, at the bottom

  function AddMany(n: nat, capacity: nat, height: nat): (r: Scroll)
    requires capacity > 0
    ensures InRange(r, capacity)
  {
    if n == 0 then EMPTY else Added(AddMany(n - 1, capacity, height), capacity, height)
  }

  /** The number of times the first line shown has moved on. */
  function Passed(n: nat, capacity: nat, height: nat): nat
  {
    if height < capacity && n > height then n - height else 0
  }

  function TailAt(n: nat, capacity: nat): nat
    requires capacity > 0
  {
    if n <= capacity then 0 else Mod(n, capacity)
  }

  lemma NextTail(n: nat, capacity: nat)
    requires capacity > 0
    ensures TailAt(n + 1, capacity) ==
            if n < capacity then TailAt(n, capacity) else CRem(TailAt(n, capacity) + 1, capacity)
  {
    hide Mod, CRem;
    ModNext(n, capacity);
    CModSame(TailAt(n, capacity) + 1, capacity);
  }

  lemma CModSame(a: nat, n: nat)
    requires n > 0
    ensures CRem(a, n) == Mod(a, n)
  {
  }

  lemma NextTop(n: nat, capacity: nat, height: nat)
    requires 0 < height <= capacity
    ensures var top := Mod(Passed(n, capacity, height), capacity);
            Mod(Passed(n + 1, capacity, height), capacity) ==
            if Min(n + 1, capacity) > height then CRem(top + 1, capacity) else top
  {
    hide Mod, CRem;
    ModNext(Passed(n, capacity, height), capacity);
    CModSame(Mod(Passed(n, capacity, height), capacity) + 1, capacity);
  }

  /** The window after `n` lines, in closed form. */
  function AtBottom(n: nat, capacity: nat, height: nat): Scroll
    requires capacity > 0
  {
    Scroll(TailAt(n, capacity), Mod(n, capacity), Mod(Passed(n, capacity, height), capacity), Mod(n, capacity),
           Min(n, capacity), false, false)
  }

  lemma NextAtBottom(n: nat, capacity: nat, height: nat)
    requires 0 < height <= capacity
    ensures Added(AtBottom(n, capacity, height), capacity, height) == AtBottom(n + 1, capacity, height)
  {
    hide CRem, Mod, Passed, TailAt;
    NextTail(n, capacity);
    NextTop(n, capacity, height);
    ModNext(n, capacity);
    CModSame(Mod(n, capacity) + 1, capacity);
  }

  lemma {:induction false} AddedMany(n: nat, capacity: nat, height: nat)
    requires 0 < height <= capacity
    ensures AddMany(n, capacity, height) == AtBottom(n, capacity, height)
  {
    hide AtBottom, Added, InRange;
    if n == 0 {
      Nothing(capacity, height);
    } else {
      AddedMany(n - 1, capacity, height);
      NextAtBottom(n - 1, capacity, height);
    }
  }

  lemma Nothing(capacity: nat, height: nat)
    requires capacity > 0
    ensures AtBottom(0, capacity, height) == EMPTY
  {
  }

  /** The first line shown is the one `height` lines before the end, for every number of lines
      exactly when the ring holds more than one screen. */
  lemma ShowsTheEnd(n: nat, capacity: nat, height: nat)
    requires 0 < height <= capacity
    ensures AddMany(n, capacity, height).topLine == Mod(n - Min(n, height), capacity) <==>
            height < capacity || n <= height || Mod(n, capacity) == 0
  {
    hide CRem, Mod;
    AddedMany(n, capacity, height);
    if height == capacity && n > height {
      ModAround(n - height, capacity);
    }
  }

  // ----- the counting loops

  function UpFrom(topLine: int, n: nat, capacity: nat): int
    requires capacity > 0
  {
    if n == 0 then topLine else CRem(UpFrom(topLine, n - 1, capacity) - 1, capacity)
  }

  /** With C's remainder the loop that counts the lines above ends exactly when the tail is not
      past the first line shown. */
  lemma CountingUpEnds(topLine: nat, tail: nat, capacity: nat)
    requires topLine < capacity && tail < capacity
    ensures (exists n: nat :: UpFrom(topLine, n, capacity) == tail) <==> tail <= topLine
  {
    if tail <= topLine {
      UpSteps(topLine, topLine - tail, capacity);
    } else {
      forall n: nat
        ensures UpFrom(topLine, n, capacity) != tail
      {
        UpStays(topLine, n, capacity);
      }
    }
  }

  lemma {:induction false} UpSteps(topLine: nat, n: nat, capacity: nat)
    requires n <= topLine < capacity
    ensures UpFrom(topLine, n, capacity) == topLine - n
  {
    if n > 0 {
      UpSteps(topLine, n - 1, capacity);
    }
  }

  lemma {:induction false} UpStays(topLine: nat, n: nat, capacity: nat)
    requires topLine < capacity
    ensures 0 - capacity < UpFrom(topLine, n, capacity) <= topLine
  {
    if n > 0 {
      UpStays(topLine, n - 1, capacity);
    }
  }

  // ----- the window's rows

  /** Copying the characters of a line leaves what was behind them. */
  function Overlay(row: string, line: string): (r: string)
    ensures line <= r
  {
    line + if |line| < |row| then row[|line|..] else ""
  }

  /** The rows hold the lines that were added last; before the ring wraps, all of them and
      nothing else. */
  ghost predicate Rows(rows: seq<string>, added: seq<string>)
    requires rows != []
  {
    && (forall i :: 0 <= i < |added| && |added| - |rows| <= i ==> added[i] <= rows[Mod(i, |rows|)])
    && (|added| <= |rows| ==> rows[..|added|] == added && forall k :: |added| <= k < |rows| ==> rows[k] == "")
  }

  lemma RowsAdded(rows: seq<string>, added: seq<string>, line: string)
    requires rows != [] && Rows(rows, added)
    ensures var at := Mod(|added|, |rows|); Rows(rows[at := Overlay(rows[at], line)], added + [line])
  {
    hide Mod;
    var n, at := |rows|, Mod(|added|, |rows|);
    var after, more := rows[at := Overlay(rows[at], line)], added + [line];
    forall i | 0 <= i < |more| && |more| - n <= i
      ensures more[i] <= after[Mod(i, n)]
    {
      if i < |added| {
        ModsDiffer(i, |added|, n);
      }
    }
    if |more| <= n {
      assert Overlay("", line) == line;
      assert after[..|more|] == rows[..|added|] + [line];
    }
  }

  lemma NoRows(rows: seq<string>)
    requires rows != [] && forall k :: 0 <= k < |rows| ==> rows[k] == ""
    ensures Rows(rows, [])
  {
  }

  lemma Unmoved(line: int, n: nat)
    requires 0 - n < line < n
    ensures CRem(line, n) == line && Further(line, 0, n) == line
  {
  }

  lemma MovedDownBy(s: Scroll, asked: int, k: nat, capacity: nat)
    requires InRange(s, capacity)
    requires k == if Below(s, capacity) < asked then Below(s, capacity) else if asked > 0 then asked else 0
    ensures var there := k == Below(s, capacity) && s.up;
            MovedDown(s, asked, capacity) ==
            Scroll(s.tail, s.head, Further(s.topLine, k, capacity), Further(s.bottomLine, k, capacity), s.count,
                   s.up && !there, s.pending && !there)
    ensures Further(s.topLine, k, capacity) == CRem(s.topLine + k, capacity)
    ensures Further(s.bottomLine, k, capacity) == CRem(s.bottomLine + k, capacity)
  {
    hide CRem, Below;
  }

  /** The line `k` lines further down the ring. */
  function Further(line: int, k: nat, n: nat): int
    requires n > 0
  {
    CRem(line + k, n)
  }

  lemma HeadAt(s: Scroll, k: nat, capacity: nat)
    requires InRange(s, capacity) && k <= Below(s, capacity)
    ensures Further(s.bottomLine, k, capacity) == s.head <==> k == Below(s, capacity)
  {
    hide CRem;
    if s.bottomLine + k < capacity {
      assert Further(s.bottomLine, k, capacity) == s.bottomLine + k;
    } else {
      assert Further(s.bottomLine, k, capacity) == s.bottomLine + k - capacity;
    }
  }

  /** Moving down reaches the head after as many lines as there are below, and not before. */
  lemma ReachesHead(s: Scroll, k: nat, capacity: nat)
    requires InRange(s, capacity) && k <= Below(s, capacity)
    ensures Further(s.bottomLine, k, capacity) == s.head <==> k == Below(s, capacity)
    ensures forall j: nat :: j < k ==> Further(s.bottomLine, j, capacity) != s.head
  {
    hide Further, Below;
    HeadAt(s, k, capacity);
    forall j: nat | j < k
      ensures Further(s.bottomLine, j, capacity) != s.head
    {
      HeadAt(s, j, capacity);
    }
  }

  /** A line that comes in while the user has scrolled up leaves the viewport where it is and is
      pending; otherwise the viewport follows it to the end. */
  lemma AddedView(s: Scroll, capacity: nat, height: nat)
    requires InRange(s, capacity)
    ensures var t := Added(s, capacity, height);
            && t.up == s.up && t.count == Min(s.count + 1, capacity)
            && (s.up ==> t.topLine == s.topLine && t.bottomLine == s.bottomLine && t.pending)
            && (!s.up ==> t.bottomLine == t.head && t.pending == s.pending)
            && t.head == (if s.head + 1 == capacity then 0 else s.head + 1)
            && t.tail == (if s.count < capacity then s.tail else if s.tail + 1 == capacity then 0 else s.tail + 1)
  {
    hide CRem;
  }

  class Scrollback {
    const buffer: array<string>
    const capacity: nat
    const viewportHeight: nat
    var tail: int
    var head: int
    var topLine: int
    var bottomLine: int
    var count: nat
    var isScrolledUp: bool
    var isMessagePending: bool
    ghost var added: seq<string>

    ghost function View(): Scroll
      reads this
    {
      Scroll(tail, head, topLine, bottomLine, count, isScrolledUp, isMessagePending)
    }

    ghost predicate Valid()
      reads this, buffer
    {
      && 0 < viewportHeight <= capacity == buffer.Length && InRange(View(), capacity)
      && head == Mod(|added|, capacity) && count == Min(|added|, capacity)
      && Rows(buffer[..], added)
    }

    constructor (viewportHeight: int, multiplier: int)
      ensures Valid() && fresh(buffer) && View() == EMPTY && added == []
      ensures this.viewportHeight == if viewportHeight <= 0 then 1 else viewportHeight
      ensures capacity == this.viewportHeight * if multiplier <= 0 then DEF_MULTIPLIER else multiplier
    {
      hide Mod, Rows;
      var h := if viewportHeight <= 0 then 1 else viewportHeight;
      var m := if multiplier <= 0 then DEF_MULTIPLIER else multiplier;
      var rows := Rectangle(h, m);
      this.viewportHeight := h;
      capacity := rows;
      buffer := new string[rows](_ => "");
      tail, head, topLine, bottomLine, count := 0, 0, 0, 0, 0;
      isScrolledUp, isMessagePending := false, false;
      added := [];
      new;
      NoRows(buffer[..]);
    }

    static method Rectangle(height: nat, multiplier: nat) returns (rows: nat)
      requires height > 0 && multiplier > 0
      ensures rows == height * multiplier && rows >= height
    {
      rows := height * multiplier;
      Larger(height, multiplier);
    }

    static lemma {:induction false} Larger(height: nat, multiplier: nat)
      requires multiplier > 0
      ensures height * multiplier >= height
    {
      if multiplier > 1 {
        Larger(height, multiplier - 1);
        assert height * multiplier == height * (multiplier - 1) + height;
      }
    }

    method AddLine(line: string)
      requires Valid()
      modifies this, buffer
      ensures Valid() && added == old(added) + [line]
      ensures View() == Added(old(View()), capacity, viewportHeight)
    {
      hide CRem, Mod, Rows, Overlay;
      ModNext(|added|, capacity);
      CModSame(head + 1, capacity);
      StoreLine(line);
      Advance();
    }

    /** Copies the line to the row of the head. */
    method StoreLine(line: string)
      requires Valid()
      modifies this`added, buffer
      ensures added == old(added) + [line] && Rows(buffer[..], added)
    {
      hide CRem, Mod, Rows, Overlay;
      RowsAdded(buffer[..], added, line);
      ghost var rows := buffer[..];
      buffer[head] := Overlay(buffer[head], line);
      assert buffer[..] == rows[head := Overlay(rows[head], line)];
      added := added + [line];
    }

    /** Moves the indices on. */
    method Advance()
      requires capacity > 0 && InRange(View(), capacity)
      modifies this`tail, this`head, this`topLine, this`bottomLine, this`count, this`isMessagePending
      ensures InRange(View(), capacity) && View() == Added(old(View()), capacity, viewportHeight)
    {
      hide CRem, Mod;
      if count == capacity {
        tail := CRem(tail + 1, capacity);
      } else {
        count := count + 1;
      }
      head := CRem(head + 1, capacity);
      if !isScrolledUp {
        bottomLine := head;
        if count > viewportHeight {
          topLine := CRem(topLine + 1, capacity);
        }
      } else if !isMessagePending {
        isMessagePending := true;
      }
    }

    method CountRemainingTopLines() returns (n: nat)
      requires capacity > 0 && 0 <= tail <= topLine < capacity
      ensures n == topLine - tail
    {
      hide CRem;
      n := 0;
      var line := topLine;
      while line != tail
        invariant tail <= line && n == topLine - line
        decreases line - tail
      {
        line := CRem(line - 1, capacity);
        n := n + 1;
      }
    }

    method CountRemainingBottomLines() returns (n: nat)
      requires InRange(View(), capacity)
      ensures n == Below(View(), capacity)
    {
      hide CRem;
      n := 0;
      var line := bottomLine;
      while line != head
        invariant 0 - capacity < line < capacity
        invariant n + Below(View().(bottomLine := line), capacity) == Below(View(), capacity)
        decreases Below(View().(bottomLine := line), capacity)
      {
        line := CRem(line + 1, capacity);
        n := n + 1;
      }
    }

    /** `k` is the number of lines the viewport moves: all that are asked for, or up to the
        first one. */
    method MoveUp(asked: int) returns (ghost k: nat)
      requires Valid() && tail <= topLine
      modifies this
      ensures Valid() && added == old(added)
      ensures View() == MovedUp(old(View()), asked, capacity)
      ensures asked <= 0 ==> k == 0
      ensures asked > 0 ==> k <= asked && (k == asked || topLine == tail)
      ensures tail <= topLine == old(topLine) - k && bottomLine == CRem(old(bottomLine) - k, capacity)
      ensures isScrolledUp == (old(isScrolledUp) || k > 0) && isMessagePending == old(isMessagePending)
      ensures tail == old(tail) && head == old(head) && count == old(count)
    {
      hide CRem, Mod, Rows;
      var remaining := CountRemainingTopLines();
      var shift := if remaining >= asked then asked else remaining;
      k := if remaining < asked then remaining else if asked > 0 then asked else 0;
      Unmoved(bottomLine, capacity);
      if shift > 0 {
        isScrolledUp := true;
        topLine := CRem(topLine - shift, capacity);
        bottomLine := CRem(bottomLine - shift, capacity);
      }
    }

    /** `k` is the number of lines the viewport moves: all that are asked for, or down to the
        head and no further. At the head it follows new lines again. */
    method MoveDown(asked: int) returns (ghost k: nat)
      requires Valid()
      modifies this
      ensures Valid() && added == old(added)
      ensures View() == MovedDown(old(View()), asked, capacity)
      ensures asked <= 0 ==> k == 0
      ensures asked > 0 ==> k <= asked && (k == asked || bottomLine == head)
      ensures topLine == Further(old(topLine), k, capacity) && bottomLine == Further(old(bottomLine), k, capacity)
      ensures forall j: nat :: j < k ==> Further(old(bottomLine), j, capacity) != head
      ensures isScrolledUp == (old(isScrolledUp) && bottomLine != head)
      ensures isMessagePending == (old(isMessagePending) && !(old(isScrolledUp) && bottomLine == head))
      ensures tail == old(tail) && head == old(head) && count == old(count)
    {
      hide CRem, Mod, Rows, Below, Further;
      var remaining := CountRemainingBottomLines();
      k := if remaining < asked then remaining else if asked > 0 then asked else 0;
      ReachesHead(View(), k, capacity);
      Unmoved(topLine, capacity);
      Unmoved(bottomLine, capacity);
      MovedDownBy(View(), asked, k, capacity);
      var shift := if remaining >= asked then asked else remaining;
      if shift > 0 {
        ShiftDown(shift);
        remaining := remaining - shift;
      }
      if remaining == 0 && isScrolledUp {
        isMessagePending, isScrolledUp := false, false;
      }
    }

    method ShiftDown(shift: nat)
      requires capacity > 0 && InRange(View(), capacity)
      modifies this`topLine, this`bottomLine
      ensures InRange(View(), capacity)
      ensures topLine == CRem(old(topLine) + shift, capacity) && bottomLine == CRem(old(bottomLine) + shift, capacity)
    {
      hide CRem, Mod;
      topLine, bottomLine := CRem(topLine + shift, capacity), CRem(bottomLine + shift, capacity);
    }
  }
}
