/**
 * The Minitel stream: a queue of integer protocol codes. Numbers, one-character
 * strings, other streams and nested sequences of these are pushed into it; codes
 * come out of either end; and two passes over a stream holding one screen row
 * build compacted copies of it (trim and optimize).
 *
 * The special-characters table is not part of this model: every operation that
 * consults it takes it as the read-only parameter `special`.
 */
module Minitel {
  import opened Wrappers

  /** The special-characters table: a code mapped to the codes sent in its place. */
  type SpecialChars = map<int, seq<int>>

  /** What `push` accepts, one constructor per branch of its type dispatch. */
  datatype Value =
    | Null                    // null or undefined
    | Code(n: int)            // a number (an integer here)
    | Char(c: char)           // a string of length one, its single UTF-16 unit
    | Items(codes: seq<int>)  // another Stream, by the items it holds
    | Seq(vs: seq<Value>)     // any other iterable: an array, a longer string
    | Other                   // anything else, which push ignores

  /** The codes `_pushValue` appends for one value. */
  function PushedCodes(special: SpecialChars, value: int): seq<int>
  {
    if value in special then special[value]
    else if value > 0x7f then []
    else [value]
  }

  /** The codes `push` appends for one item, in order. */
  function Encode(special: SpecialChars, item: Value): seq<int>
    decreases item
  {
    match item
    case Null => []
    case Code(n) => PushedCodes(special, n)
    case Char(c) => PushedCodes(special, c as int)
    case Items(codes) => codes
    case Seq(vs) => EncodeAll(special, vs)
    case Other => []
  }

  /** The codes appended by pushing each of `vs` in turn. */
  function EncodeAll(special: SpecialChars, vs: seq<Value>): seq<int>
    decreases vs
  {
    if vs == [] then []
    else EncodeAll(special, vs[..|vs| - 1]) + Encode(special, vs[|vs| - 1])
  }

  /** An array of numbers, as `push` sees it. */
  function Codes(s: seq<int>): seq<Value>
  {
    seq(|s|, k requires 0 <= k < |s| => Code(s[k]))
  }

  /** `s[i]` as JavaScript reads it: `undefined` past either end. */
  function At(s: seq<int>, i: int): Option<int>
  {
    if 0 <= i < |s| then Some(s[i]) else None
  }

  /** Codes that stand for themselves: at most 0x7f and not in the table. */
  predicate Plain(special: SpecialChars, s: seq<int>)
  {
    forall k :: 0 <= k < |s| ==> s[k] !in special && s[k] <= 0x7f
  }

  // ---------------------------------------------------------------------------
  // trimRow

  /** The position trimRow's loop examines after examining position `i`. */
  function NextTrim(s: seq<int>, i: nat): nat
    requires i < |s|
  {
    if s[i] >= 0x20 then i + 1
    else if s[i] == 0x12 then i + 2
    else
      var j := if s[i] == 0x1b then i + 1 else i;
      (if j < |s| && s[j] == 0x1f then j + 2 else j) + 1
  }

  /**
   * The mark that examining position `p` leaves in `lastChar`: `p` for a
   * displayable code, the count byte's position for a repeat, -1 for neither.
   */
  function MarkAt(s: seq<int>, p: int): int
  {
    if 0 <= p < |s| && s[p] >= 0x20 then p
    else if 0 <= p < |s| && s[p] == 0x12 then p + 1
    else -1
  }

  /** The final value of `lastChar` when the loop is at `i` with `lastChar == last`. */
  function LastFrom(s: seq<int>, i: nat, last: int): (r: int)
    requires last < i
    ensures last <= r
    ensures r == last || i <= r <= |s|
    decreases |s| - i
  {
    if i >= |s| then last
    else
      var m := MarkAt(s, i);
      LastFrom(s, NextTrim(s, i), if m >= 0 then m else last)
  }

  /** How many items trimRow keeps: `slice(0, lastChar + 1)`. */
  function TrimCut(s: seq<int>): (n: nat)
    ensures n <= |s|
  {
    var last := LastFrom(s, 0, -1);
    if last + 1 <= |s| then last + 1 else |s|
  }

  /** The items of the stream trimRow returns. */
  function Trimmed(special: SpecialChars, s: seq<int>): seq<int>
  {
    Encode(special, Seq(Codes(s[..TrimCut(s)])))
  }

  // ---------------------------------------------------------------------------
  // optimizeRow

  /** The locals optimizeRow carries along the row. */
  datatype RowState = RowState(fg: int, bg: int, separated: bool, ch: int, count: nat)

  /** A row starts white on black, not separated, with no character yet. */
  const RowStart := RowState(0x47, 0x50, false, 0x00, 0)

  /** How optimizeRow classifies one position, first test first. */
  datatype RowEvent =
    | MoveRight
    | ChangeFg(fg: int)
    | ChangeBg(bg: int)
    | ChangeSeparated(code: int)
    | ChangeChar(ch: int)
    | SameChar
    | Control(code: int)
    | Ignored                  // an escape pair that changes nothing

  function Classify(s: seq<int>, i: nat, st: RowState): RowEvent
    requires i < |s|
  {
    var x, next := s[i], At(s, i + 1);
    if x == 0x09 then MoveRight
    else if x == 0x1b && next.Some? && 0x40 <= next.value <= 0x47 && next.value != st.fg
    then ChangeFg(next.value)
    else if x == 0x1b && next.Some? && 0x50 <= next.value <= 0x57 && next.value != st.bg
    then ChangeBg(next.value)
    else if x == 0x1b && next.Some?
         && ((next.value == 0x5a && !st.separated) || (next.value == 0x59 && st.separated))
    then ChangeSeparated(next.value)
    else if x >= 0x20 && x != st.ch then ChangeChar(x)
    else if x >= 0x20 then SameChar
    else if x != 0x1b then Control(x)
    else Ignored
  }

  /** What a pending run is flushed to in mid-row: the character itself for one repeat. */
  function Flush(special: SpecialChars, st: RowState): seq<int>
  {
    if st.count == 0 then []
    else if st.count == 1 then Encode(special, Code(st.ch))
    else Encode(special, Seq([Code(0x12), Code(0x40 + st.count)]))
  }

  /** What a pending run is flushed to at the end of the row: always a repeat. */
  function FinalFlush(special: SpecialChars, st: RowState): seq<int>
  {
    if st.count > 0 then Encode(special, Seq([Code(0x12), Code(0x40 + st.count)])) else []
  }

  /** The item optimizeRow pushes for an event, after any flush; `Null` where it pushes nothing. */
  function Emitted(e: RowEvent): Value
  {
    match e
    case MoveRight => Code(0x09)
    case ChangeFg(c) => Seq([Code(0x1b), Code(c)])
    case ChangeBg(c) => Seq([Code(0x1b), Code(c)])
    case ChangeSeparated(c) => Seq([Code(0x1b), Code(c)])
    case ChangeChar(c) => Code(c)
    case SameChar => Null
    case Control(c) => Code(c)
    case Ignored => Null
  }

  /** The state after an event: a change ends the pending run. */
  function After(e: RowEvent, st: RowState): RowState
  {
    var st0 := if IsChange(e) then st.(count := 0) else st;
    match e
    case ChangeFg(c) => st0.(fg := c)
    case ChangeBg(c) => st0.(bg := c)
    case ChangeSeparated(_) => st0.(separated := !st0.separated)
    case ChangeChar(c) => st0.(ch := c)
    case SameChar => st0.(count := st0.count + 1)
    case _ => st0
  }

  /** The codes one event emits, a change flushing the pending run first, and the state after it. */
  function Step(special: SpecialChars, e: RowEvent, st: RowState): (seq<int>, RowState)
  {
    ((if IsChange(e) then Flush(special, st) else []) + Encode(special, Emitted(e)), After(e, st))
  }

  /** The position optimizeRow's loop examines next: an escape takes its argument along. */
  function NextOptimize(s: seq<int>, i: nat): nat
    requires i < |s|
  {
    if s[i] == 0x1b then i + 2 else i + 1
  }

  /** The codes optimizeRow emits from position `i` on, given its state there. */
  function OptimizeFrom(special: SpecialChars, s: seq<int>, i: nat, st: RowState): seq<int>
    decreases |s| - i
  {
    if i >= |s| then FinalFlush(special, st)
    else
      var r := Step(special, Classify(s, i, st), st);
      r.0 + OptimizeFrom(special, s, NextOptimize(s, i), r.1)
  }

  /** `OptimizeFrom` with the codes already emitted carried along, as the loop builds them. */
  function OptimizeOnto(special: SpecialChars, s: seq<int>, i: nat, st: RowState, acc: seq<int>): seq<int>
    decreases |s| - i
  {
    if i >= |s| then acc + FinalFlush(special, st)
    else
      var r := Step(special, Classify(s, i, st), st);
      OptimizeOnto(special, s, NextOptimize(s, i), r.1, acc + r.0)
  }

  lemma {:induction false} OptimizeOntoAppends(special: SpecialChars, s: seq<int>, i: nat, st: RowState, acc: seq<int>)
    ensures OptimizeOnto(special, s, i, st, acc) == acc + OptimizeFrom(special, s, i, st)
    decreases |s| - i
  {
    if i < |s| {
      var r := Step(special, Classify(s, i, st), st);
      OptimizeOntoAppends(special, s, NextOptimize(s, i), r.1, acc + r.0);
    }
  }

  /** The items of the stream optimizeRow returns. */
  function Optimized(special: SpecialChars, s: seq<int>): seq<int>
  {
    OptimizeFrom(special, s, 0, RowStart)
  }

  /** The events before which optimizeRow flushes a pending run. */
  predicate IsChange(e: RowEvent)
  {
    e.MoveRight? || e.ChangeFg? || e.ChangeBg? || e.ChangeSeparated? || e.ChangeChar?
  }

  // ---------------------------------------------------------------------------

  class Stream {
    var items: seq<int>
    var length: int

    /**
     * `length` is the item count, except that shift and pop on an empty
     * queue still decrement it, so that it may fall below zero.
     */
    ghost predicate Valid()
      reads this
    {
      length == |items| || (items == [] && length < 0)
    }

    constructor ()
      ensures items == [] && length == 0
    {
      new;
      Reset();
    }

    method Reset()
      modifies this
      ensures items == [] && length == 0
    {
      items := [];
      length := 0;
    }

    /** `push`: a null item changes nothing; any other resynchronises `length`. */
    method Push(special: SpecialChars, item: Value)
      modifies this
      decreases item
      ensures item.Null? ==> items == old(items) && length == old(length)
      ensures !item.Null? ==> items == old(items) + Encode(special, item) && length == |items|
      ensures old(Valid()) ==> Valid()
    {
      if item.Null? {
        return;
      }
      match item {
        case Items(codes) =>
          items := items + codes;
        case Char(c) =>
          PushValue(special, c as int);
        case Seq(vs) =>
          for j := 0 to |vs|
            invariant items == old(items) + EncodeAll(special, vs[..j])
          {
            Push(special, vs[j]);
            assert vs[..j + 1][..j] == vs[..j];
          }
          assert vs[..|vs|] == vs;
        case Code(n) =>
          PushValue(special, n);
        case Other =>
        case Null =>
      }
      length := |items|;
    }

    /** `_pushValue`: the table is consulted first, then codes above 0x7f are dropped. */
    method PushValue(special: SpecialChars, value: int)
      modifies this
      ensures value in special ==> items == old(items) + special[value]
      ensures value !in special && value > 0x7f ==> items == old(items)
      ensures value !in special && value <= 0x7f ==> items == old(items) + [value]
      ensures length == old(length)
    {
      if value in special {
        var codes := special[value];
        for k := 0 to |codes|
          invariant items == old(items) + codes[..k]
          invariant length == old(length)
        {
          items := items + [codes[k]];
          assert codes[..k + 1] == codes[..k] + [codes[k]];
        }
        assert codes[..|codes|] == codes;
      } else if value > 0x7f {
        return;
      } else {
        items := items + [value];
      }
    }

    /** Removes and returns the first code; `length` drops by one even when there is none. */
    method Shift() returns (first: Option<int>)
      modifies this
      ensures length == old(length) - 1
      ensures old(items) == [] ==> first == None && items == []
      ensures old(items) != [] ==> first == Some(old(items)[0]) && items == old(items)[1..]
      ensures old(Valid()) ==> Valid()
    {
      length := length - 1;
      if items == [] {
        first := None;
      } else {
        first := Some(items[0]);
        items := items[1..];
      }
    }

    /** Removes and returns the last code; `length` drops by one even when there is none. */
    method Pop() returns (last: Option<int>)
      modifies this
      ensures length == old(length) - 1
      ensures old(items) == [] ==> last == None && items == []
      ensures old(items) != [] ==>
                last == Some(old(items)[|old(items)| - 1]) && items == old(items)[..|old(items)| - 1]
      ensures old(Valid()) ==> Valid()
    {
      length := length - 1;
      if items == [] {
        last := None;
      } else {
        last := Some(items[|items| - 1]);
        items := items[..|items| - 1];
      }
    }

    /** `trimRow`: a new stream of the row up to its last meaningful position. */
    method TrimRow(special: SpecialChars) returns (trimmed: Stream)
      requires Valid()
      ensures fresh(trimmed)
      ensures trimmed.items == Trimmed(special, items)
      ensures trimmed.length == |trimmed.items|
    {
      var lastChar := -1;
      var i := 0;
      while i < length
        invariant 0 <= i <= |items| + 3
        invariant lastChar < i
        invariant LastFrom(items, i, lastChar) == LastFrom(items, 0, -1)
        decreases |items| - i
      {
        if items[i] >= 0x20 {
          lastChar := i;
          i := i + 1;
          continue;
        }
        if items[i] == 0x12 {
          i := i + 1;
          lastChar := i;
          i := i + 1;
          continue;
        }
        if items[i] == 0x1b {
          i := i + 1;
        }
        if At(items, i) == Some(0x1f) {
          i := i + 2;
        }
        i := i + 1;
      }
      assert LastFrom(items, i, lastChar) == lastChar;
      trimmed := new Stream();
      var cut := if lastChar + 1 <= |items| then lastChar + 1 else |items|;
      trimmed.Push(special, Seq(Codes(items[..cut])));
    }

    /** What one pass of optimizeRow's loop pushes: a pending run is flushed before a change. */
    method PushEvent(special: SpecialChars, event: RowEvent, ch: int, count: nat)
      requires length == |items|
      modifies this
      ensures items == old(items) + Step(special, event, RowState(0, 0, false, ch, count)).0
      ensures length == |items|
    {
      if count > 0 && IsChange(event) {
        if count == 1 {
          Push(special, Code(ch));
        } else {
          Push(special, Seq([Code(0x12), Code(0x40 + count)]));
        }
      }
      Push(special, Emitted(event));
    }

    /**
     * `optimizeRow`: a new stream of the row with runs compacted and idle
     * escapes dropped. The chain of tests on the current code is `Classify`.
     */
    method OptimizeRow(special: SpecialChars) returns (optimized: Stream)
      requires Valid()
      ensures fresh(optimized)
      ensures optimized.items == Optimized(special, items)
      ensures optimized.length == |optimized.items|
    {
      var row, n := items, length;
      var bg, fg, separated, ch, count: nat := 0x50, 0x47, false, 0x00, 0;
      optimized := new Stream();
      ghost var goal := Optimized(special, row);
      OptimizeOntoAppends(special, row, 0, RowStart, []);
      var i := 0;
      while i < n
        invariant 0 <= i <= |row| + 1
        invariant OptimizeOnto(special, row, i, RowState(fg, bg, separated, ch, count), optimized.items) == goal
        invariant optimized.length == |optimized.items|
        decreases |row| - i
      {
        ghost var st := RowState(fg, bg, separated, ch, count);
        var event := Classify(row, i, RowState(fg, bg, separated, ch, count));
        ghost var r := Step(special, event, st);
        assert OptimizeOnto(special, row, NextOptimize(row, i), r.1, optimized.items + r.0) == goal;
        optimized.PushEvent(special, event, ch, count);
        if IsChange(event) {
          count := 0;
        }
        match event {
          case ChangeFg(c) => fg := c;
          case ChangeBg(c) => bg := c;
          case ChangeSeparated(_) => separated := !separated;
          case ChangeChar(c) => ch := c;
          case SameChar => count := count + 1;
          case _ =>
        }
        assert RowState(fg, bg, separated, ch, count) == r.1;
        if row[i] == 0x1b {
          i := i + 1;
        }
        i := i + 1;
      }
      if count > 0 {
        optimized.Push(special, Seq([Code(0x12), Code(0x40 + count)]));
      }
    }
  }
}
