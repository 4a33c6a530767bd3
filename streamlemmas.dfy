/**
 * Properties of the Minitel stream's specification functions: how pushes
 * compose, which positions trimRow examines and what it keeps, and that
 * optimizeRow's compacted row displays the same as the row it came from.
 */
module StreamLemmas {
  import opened Wrappers
  import opened Minitel

  // ---------------------------------------------------------------------------
  // push

  /** Pushing an iterable is pushing its parts in turn: the codes concatenate. */
  lemma {:induction false} EncodeAllAppend(special: SpecialChars, a: seq<Value>, b: seq<Value>)
    ensures EncodeAll(special, a + b) == EncodeAll(special, a) + EncodeAll(special, b)
    decreases |b|
  {
    if b == [] {
      assert a + b == a;
    } else {
      var b' := b[..|b| - 1];
      assert (a + b)[..|a + b| - 1] == a + b';
      assert (a + b)[|a + b| - 1] == b[|b| - 1];
      EncodeAllAppend(special, a, b');
    }
  }

  /** An array of codes that stand for themselves is pushed unchanged. */
  lemma {:induction false} EncodeCodesPlain(special: SpecialChars, s: seq<int>)
    requires Plain(special, s)
    ensures EncodeAll(special, Codes(s)) == s
    decreases |s|
  {
    if s != [] {
      var s' := s[..|s| - 1];
      assert Codes(s)[..|s| - 1] == Codes(s');
      assert Plain(special, s');
      EncodeCodesPlain(special, s');
      assert s' + [s[|s| - 1]] == s;
    }
  }

  /** Every code `_pushValue` appends is at most 0x7f when every code the table maps to is. */
  lemma PushedCodesBounded(special: SpecialChars, value: int)
    requires forall k :: k in special ==> forall j :: 0 <= j < |special[k]| ==> special[k][j] <= 0x7f
    ensures forall j :: 0 <= j < |PushedCodes(special, value)| ==> PushedCodes(special, value)[j] <= 0x7f
  {
  }

  // ---------------------------------------------------------------------------
  // trimRow

  /** Position `p` is one trimRow's loop examines when it starts at `i`. */
  ghost predicate Visits(s: seq<int>, i: nat, p: int)
    decreases |s| - i
  {
    i < |s| && (p == i || Visits(s, NextTrim(s, i), p))
  }

  /** The loop examines positions in increasing order, at least `NextTrim` apart. */
  lemma {:induction false} VisitsAfter(s: seq<int>, i: nat, p: int)
    requires Visits(s, i, p)
    ensures i <= p < |s|
    decreases |s| - i
  {
    if p != i {
      VisitsAfter(s, NextTrim(s, i), p);
    }
  }

  /**
   * Two examined positions are at least a step apart: the byte after an
   * escape and the two bytes after 0x1f are never examined, so never marked.
   */
  lemma {:induction false} VisitsSpaced(s: seq<int>, i: nat, p: int, q: int)
    requires Visits(s, i, p) && Visits(s, i, q) && p < q
    ensures 0 <= p < |s| && NextTrim(s, p) <= q
    decreases |s| - i
  {
    if p == i {
      VisitsAfter(s, NextTrim(s, i), q);
    } else {
      VisitsAfter(s, i, p);
      VisitsSpaced(s, NextTrim(s, i), p, q);
    }
  }

  /**
   * The byte after an escape and the two bytes after 0x1f are skipped: the
   * loop never examines them, so they never count as content.
   */
  lemma ArgumentsSkipped(s: seq<int>, p: nat)
    requires Visits(s, 0, p)
    ensures p < |s|
    ensures s[p] == 0x1b ==> !Visits(s, 0, p + 1)
    ensures s[p] == 0x1b && p + 1 < |s| && s[p + 1] == 0x1f ==> !Visits(s, 0, p + 2) && !Visits(s, 0, p + 3)
    ensures s[p] == 0x1f ==> !Visits(s, 0, p + 1) && !Visits(s, 0, p + 2)
  {
    VisitsAfter(s, 0, p);
    forall q | Visits(s, 0, q) && p < q
      ensures NextTrim(s, p) <= q
    {
      VisitsSpaced(s, 0, p, q);
    }
  }

  /** Where no examined position leaves a mark, `lastChar` keeps its value. */
  lemma {:induction false} LastWithoutMarks(s: seq<int>, i: nat, last: int)
    requires last < i
    requires forall p :: Visits(s, i, p) ==> MarkAt(s, p) < 0
    ensures LastFrom(s, i, last) == last
    decreases |s| - i
  {
    if i < |s| {
      assert Visits(s, i, i);
      forall p | Visits(s, NextTrim(s, i), p)
        ensures MarkAt(s, p) < 0
      {
        assert Visits(s, i, p);
      }
      LastWithoutMarks(s, NextTrim(s, i), last);
    }
  }

  /**
   * `lastChar` ends as the greatest mark over the examined positions: no
   * examined position marks past it, and it is a mark or its starting value.
   */
  lemma {:induction false} LastIsGreatestMark(s: seq<int>, i: nat, last: int)
    requires last < i
    requires -1 <= last
    ensures forall p :: Visits(s, i, p) ==> MarkAt(s, p) <= LastFrom(s, i, last)
    ensures LastFrom(s, i, last) == last
            || exists p :: Visits(s, i, p) && MarkAt(s, p) == LastFrom(s, i, last)
    decreases |s| - i
  {
    if i < |s| {
      var n, m := NextTrim(s, i), MarkAt(s, i);
      var last' := if m >= 0 then m else last;
      LastIsGreatestMark(s, n, last');
      var r := LastFrom(s, n, last');
      forall p | Visits(s, i, p)
        ensures MarkAt(s, p) <= r
      {
        if p != i {
          assert Visits(s, n, p);
        }
      }
      if r != last {
        if r == last' {
          assert Visits(s, i, i) && MarkAt(s, i) == r;
        } else {
          var p :| Visits(s, n, p) && MarkAt(s, p) == r;
          assert Visits(s, i, p);
        }
      }
    }
  }

  /** trimRow keeps exactly the prefix up to the greatest mark of an examined position. */
  lemma TrimCutIsGreatestMark(s: seq<int>)
    ensures forall p :: Visits(s, 0, p) && MarkAt(s, p) >= 0 ==> p < TrimCut(s)
    ensures TrimCut(s) > 0 ==>
              exists p :: Visits(s, 0, p) && 0 <= MarkAt(s, p)
                          && TrimCut(s) == (if MarkAt(s, p) < |s| then MarkAt(s, p) + 1 else |s|)
  {
    LastIsGreatestMark(s, 0, -1);
    forall p | Visits(s, 0, p) && MarkAt(s, p) >= 0
      ensures p < TrimCut(s)
    {
      VisitsAfter(s, 0, p);
    }
  }

  /** A row of control codes other than the repeat code trims to the empty stream. */
  lemma TrimAllControl(special: SpecialChars, s: seq<int>)
    requires forall k :: 0 <= k < |s| ==> s[k] < 0x20 && s[k] != 0x12
    ensures Trimmed(special, s) == []
  {
    forall p | Visits(s, 0, p)
      ensures MarkAt(s, p) < 0
    {
      VisitsAfter(s, 0, p);
    }
    LastWithoutMarks(s, 0, -1);
    assert TrimCut(s) == 0;
    assert Codes(s[..0]) == [];
    assert Encode(special, Seq([])) == [];
  }

  /**
   * Scanning the prefix `s[..c]` leaves the same `lastChar` as scanning `s`
   * when no position examined at or after `c` leaves a mark.
   */
  lemma {:induction false} LastOfPrefix(s: seq<int>, c: nat, i: nat, last: int)
    requires c <= |s|
    requires last < i
    requires forall p :: Visits(s, i, p) && p >= c ==> MarkAt(s, p) < 0
    ensures LastFrom(s[..c], i, last) == LastFrom(s, i, last)
    decreases |s| - i
  {
    var t := s[..c];
    if i >= c {
      forall p | Visits(s, i, p)
        ensures MarkAt(s, p) < 0
      {
        VisitsAfter(s, i, p);
      }
      LastWithoutMarks(s, i, last);
    } else {
      var n, m := NextTrim(s, i), MarkAt(s, i);
      assert MarkAt(t, i) == m;
      var last' := if m >= 0 then m else last;
      forall p | Visits(s, n, p) && p >= c
        ensures MarkAt(s, p) < 0
      {
        assert Visits(s, i, p);
      }
      if NextTrim(t, i) == n {
        LastOfPrefix(s, c, n, last');
      } else {
        assert NextTrim(t, i) >= c && n >= c;
        forall p | Visits(s, n, p)
          ensures MarkAt(s, p) < 0
        {
          VisitsAfter(s, n, p);
        }
        LastWithoutMarks(s, n, last');
      }
    }
  }

  /** Trimming a row of plain codes keeps a prefix of it, and trimming again keeps all of that. */
  lemma TrimIdempotent(special: SpecialChars, s: seq<int>)
    requires Plain(special, s)
    ensures Trimmed(special, s) == s[..TrimCut(s)]
    ensures Trimmed(special, Trimmed(special, s)) == Trimmed(special, s)
  {
    var c := TrimCut(s);
    var t := s[..c];
    assert Plain(special, t);
    EncodeCodesPlain(special, t);
    LastIsGreatestMark(s, 0, -1);
    forall p | Visits(s, 0, p) && p >= c
      ensures MarkAt(s, p) < 0
    {
      VisitsAfter(s, 0, p);
    }
    LastOfPrefix(s, c, 0, -1);
    assert TrimCut(t) == c;
    assert t[..c] == t;
  }

  // ---------------------------------------------------------------------------
  // optimizeRow

  /** What a reference terminal shows for one entry of a row. */
  datatype Shown =
    | Glyph(code: int, fg: int, bg: int, separated: bool)
    | Gap                                     // the cursor moved right over a cell
    | Ctl(code: int)                          // another control code, kept in place

  /** The terminal's attributes, with the last character shown, which a repeat repeats. */
  datatype Attrs = Attrs(fg: int, bg: int, separated: bool, last: int)

  /** The attributes optimizeRow's state stands for on the terminal. */
  function AttrsOf(st: RowState): Attrs
  {
    Attrs(st.fg, st.bg, st.separated, st.ch)
  }

  /** The terminal after an escape with argument `x`: a colour, separation on or off, or nothing. */
  function SetAttr(a: Attrs, x: int): Attrs
  {
    if 0x40 <= x <= 0x47 then a.(fg := x)
    else if 0x50 <= x <= 0x57 then a.(bg := x)
    else if x == 0x5a then a.(separated := true)
    else if x == 0x59 then a.(separated := false)
    else a
  }

  /** `n` copies of the last character, in the current attributes. */
  function Repeated(n: nat, a: Attrs): (r: seq<Shown>)
    ensures |r| == n
    ensures forall k :: 0 <= k < n ==> r[k] == Glyph(a.last, a.fg, a.bg, a.separated)
  {
    seq(n, _ => Glyph(a.last, a.fg, a.bg, a.separated))
  }

  /**
   * A reference reading of a row of codes: 0x09 moves right, an escape sets
   * an attribute from its argument, 0x12 repeats the last character as many
   * times as its argument exceeds 0x40, and a displayable code is shown.
   */
  function Decode(c: seq<int>, a: Attrs): seq<Shown>
    decreases |c|
  {
    if c == [] then []
    else if c[0] == 0x09 then [Gap] + Decode(c[1..], a)
    else if c[0] == 0x1b then (if |c| < 2 then [] else Decode(c[2..], SetAttr(a, c[1])))
    else if c[0] == 0x12 then
      (if |c| < 2 then [] else Repeated(if c[1] >= 0x40 then c[1] - 0x40 else 0, a) + Decode(c[2..], a))
    else if c[0] >= 0x20 then [Glyph(c[0], a.fg, a.bg, a.separated)] + Decode(c[1..], a.(last := c[0]))
    else [Ctl(c[0])] + Decode(c[1..], a)
  }

  /** The table leaves every code from 0x00 to 0x7f alone. */
  predicate NoLowKeys(special: SpecialChars)
  {
    forall k :: k in special ==> k < 0 || k > 0x7f
  }

  /** An escape argument that sets an attribute: a foreground or background colour, or separation on or off. */
  predicate AttributeCode(x: int)
  {
    0x40 <= x <= 0x47 || 0x50 <= x <= 0x57 || x == 0x59 || x == 0x5a
  }

  /**
   * A row, from position `i` on as optimizeRow walks it, made of
   * displayable codes up to 0x7f, 0x09 and escapes followed by an
   * attribute code. optimizeRow drops every other escape pair, so a row
   * holding one does not show the same once optimized.
   */
  predicate PlainFrom(s: seq<int>, i: nat)
    decreases |s| - i
  {
    i >= |s|
    || ((s[i] == 0x09 || 0x20 <= s[i] <= 0x7f || (s[i] == 0x1b && i + 1 < |s| && AttributeCode(s[i + 1])))
        && PlainFrom(s, NextOptimize(s, i)))
  }

  lemma EncodePair(special: SpecialChars, a: int, b: int)
    ensures Encode(special, Seq([Code(a), Code(b)])) == PushedCodes(special, a) + PushedCodes(special, b)
  {
    var two := [Code(a), Code(b)];
    assert two[..1] == [Code(a)] && [Code(a)][..0] == [];
    calc {
      Encode(special, Seq(two));
      EncodeAll(special, two);
      EncodeAll(special, [Code(a)]) + Encode(special, Code(b));
      EncodeAll(special, []) + Encode(special, Code(a)) + Encode(special, Code(b));
    }
  }

  /** A flushed run shows as that many repeats of the run's character. */
  lemma FlushShows(special: SpecialChars, st: RowState, y: seq<int>)
    requires NoLowKeys(special)
    requires st.count <= 63 && (st.count > 0 ==> 0x20 <= st.ch <= 0x7f)
    ensures Decode(Flush(special, st) + y, AttrsOf(st)) == Repeated(st.count, AttrsOf(st)) + Decode(y, AttrsOf(st))
  {
    var a := AttrsOf(st);
    if st.count == 0 {
      assert Flush(special, st) + y == y;
    } else if st.count == 1 {
      assert Flush(special, st) == [st.ch];
      assert ([st.ch] + y)[1..] == y;
      assert a.(last := st.ch) == a;
    } else {
      EncodePair(special, 0x12, 0x40 + st.count);
      assert Flush(special, st) == [0x12, 0x40 + st.count];
      assert ([0x12, 0x40 + st.count] + y)[2..] == y;
    }
  }

  /** The end-of-row flush shows as the pending repeats. */
  lemma FinalFlushShows(special: SpecialChars, st: RowState)
    requires NoLowKeys(special) && st.count <= 63
    ensures Decode(FinalFlush(special, st), AttrsOf(st)) == Repeated(st.count, AttrsOf(st))
  {
    if st.count > 0 {
      EncodePair(special, 0x12, 0x40 + st.count);
      assert FinalFlush(special, st) == [0x12, 0x40 + st.count];
      assert [0x12, 0x40 + st.count][2..] == [];
    }
  }

  /** How the row from position `i` on reads, by its first code. */
  lemma DecodeAt(s: seq<int>, i: nat, a: Attrs)
    requires i < |s|
    ensures s[i] == 0x09 ==> Decode(s[i..], a) == [Gap] + Decode(s[i + 1..], a)
    ensures s[i] == 0x1b && i + 1 < |s| ==> Decode(s[i..], a) == Decode(s[i + 2..], SetAttr(a, s[i + 1]))
    ensures 0x20 <= s[i] && s[i] != 0x1b ==>
              Decode(s[i..], a) == [Glyph(s[i], a.fg, a.bg, a.separated)] + Decode(s[i + 1..], a.(last := s[i]))
  {
    assert s[i..][0] == s[i];
    assert s[i..][1..] == s[i + 1..];
    if i + 1 < |s| {
      assert s[i..][2..] == s[i + 2..];
    }
  }

  /** An escape pair that optimizeRow pushes reads as setting its attribute. */
  lemma EscapeShows(special: SpecialChars, x: int, rest: seq<int>, a: Attrs)
    requires NoLowKeys(special) && 0 <= x <= 0x7f
    ensures Decode(Encode(special, Seq([Code(0x1b), Code(x)])) + rest, a) == Decode(rest, SetAttr(a, x))
  {
    EncodePair(special, 0x1b, x);
    var y := [0x1b, x] + rest;
    assert y[2..] == rest;
  }

  /** A single code that optimizeRow pushes reads as a move or as that character. */
  lemma CodeShows(special: SpecialChars, x: int, rest: seq<int>, a: Attrs)
    requires NoLowKeys(special) && (x == 0x09 || 0x20 <= x <= 0x7f) && x != 0x1b
    ensures x == 0x09 ==> Decode(Encode(special, Code(x)) + rest, a) == [Gap] + Decode(rest, a)
    ensures x != 0x09 ==>
              Decode(Encode(special, Code(x)) + rest, a)
              == [Glyph(x, a.fg, a.bg, a.separated)] + Decode(rest, a.(last := x))
  {
    var y := [x] + rest;
    assert y[1..] == rest;
  }

  /** What optimizeRow pushes for a flushing event reads as the position it came from. */
  lemma EmittedShows(special: SpecialChars, s: seq<int>, i: nat, st: RowState, rest: seq<int>)
    requires NoLowKeys(special)
    requires i < |s| && PlainFrom(s, i)
    requires IsChange(Classify(s, i, st))
    requires var e := Classify(s, i, st);
             Decode(rest, AttrsOf(After(e, st))) == Decode(s[NextOptimize(s, i)..], AttrsOf(After(e, st)))
    ensures Decode(Encode(special, Emitted(Classify(s, i, st))) + rest, AttrsOf(st)) == Decode(s[i..], AttrsOf(st))
  {
    var a := AttrsOf(st);
    DecodeAt(s, i, a);
    match Classify(s, i, st) {
      case MoveRight =>
        CodeShows(special, 0x09, rest, a);
      case ChangeFg(c) =>
        EscapeShows(special, c, rest, a);
      case ChangeBg(c) =>
        EscapeShows(special, c, rest, a);
      case ChangeSeparated(c) =>
        EscapeShows(special, c, rest, a);
      case ChangeChar(c) =>
        CodeShows(special, c, rest, a);
    }
  }

  /** The induction step of `OptimizeFromShows` for an event that flushes the run. */
  lemma ChangeShows(special: SpecialChars, s: seq<int>, i: nat, st: RowState, rest: seq<int>)
    requires NoLowKeys(special)
    requires i < |s| && PlainFrom(s, i)
    requires st.count <= 63 && (st.count > 0 ==> 0x20 <= st.ch <= 0x7f)
    requires IsChange(Classify(s, i, st))
    requires var e := Classify(s, i, st);
             Decode(rest, AttrsOf(After(e, st))) == Decode(s[NextOptimize(s, i)..], AttrsOf(After(e, st)))
    ensures Decode(Step(special, Classify(s, i, st), st).0 + rest, AttrsOf(st))
            == Repeated(st.count, AttrsOf(st)) + Decode(s[i..], AttrsOf(st))
  {
    var e := Classify(s, i, st);
    var y := Encode(special, Emitted(e)) + rest;
    assert Step(special, e, st).0 + rest == Flush(special, st) + y;
    FlushShows(special, st, y);
    EmittedShows(special, s, i, st, rest);
  }

  /** The induction step of `OptimizeFromShows` for the run's character once more. */
  lemma SameCharShows(s: seq<int>, i: nat, st: RowState, rest: seq<int>)
    requires i < |s| && Classify(s, i, st).SameChar?
    requires Decode(rest, AttrsOf(st)) == Repeated(st.count + 1, AttrsOf(st)) + Decode(s[i + 1..], AttrsOf(st))
    ensures Decode(rest, AttrsOf(st)) == Repeated(st.count, AttrsOf(st)) + Decode(s[i..], AttrsOf(st))
  {
    var a := AttrsOf(st);
    DecodeAt(s, i, a);
    assert a.(last := s[i]) == a;
    var g := Glyph(st.ch, a.fg, a.bg, a.separated);
    assert Repeated(st.count + 1, a) == Repeated(st.count, a) + [g];
  }

  /** The induction step of `OptimizeFromShows` for an escape pair that changes nothing. */
  lemma IgnoredShows(s: seq<int>, i: nat, st: RowState, rest: seq<int>)
    requires i < |s| && PlainFrom(s, i) && Classify(s, i, st).Ignored?
    requires Decode(rest, AttrsOf(st)) == Repeated(st.count, AttrsOf(st)) + Decode(s[i + 2..], AttrsOf(st))
    ensures Decode(rest, AttrsOf(st)) == Repeated(st.count, AttrsOf(st)) + Decode(s[i..], AttrsOf(st))
  {
    var a := AttrsOf(st);
    assert s[i] == 0x1b && i + 1 < |s|;
    DecodeAt(s, i, a);
    assert SetAttr(a, s[i + 1]) == a;
  }

  /** One step of optimizeRow keeps the conditions the display argument needs. */
  lemma StepKeepsPlain(special: SpecialChars, s: seq<int>, i: nat, st: RowState)
    requires i < |s| && PlainFrom(s, i)
    requires st.count + (|s| - i) <= 63
    requires st.count > 0 ==> 0x20 <= st.ch <= 0x7f
    ensures var r := Step(special, Classify(s, i, st), st);
            var n := NextOptimize(s, i);
            n <= |s| && PlainFrom(s, n) && r.1.count + (|s| - n) <= 63
            && (r.1.count > 0 ==> 0x20 <= r.1.ch <= 0x7f)
  {
  }

  /** One step of optimizeRow, read through the decoder, in front of what the rest of the row emits. */
  lemma StepShows(special: SpecialChars, s: seq<int>, i: nat, st: RowState, rest: seq<int>)
    requires NoLowKeys(special)
    requires i < |s| && PlainFrom(s, i)
    requires st.count <= 63 && (st.count > 0 ==> 0x20 <= st.ch <= 0x7f)
    requires var r := Step(special, Classify(s, i, st), st);
             Decode(rest, AttrsOf(r.1)) == Repeated(r.1.count, AttrsOf(r.1)) + Decode(s[NextOptimize(s, i)..], AttrsOf(r.1))
    ensures Decode(Step(special, Classify(s, i, st), st).0 + rest, AttrsOf(st))
            == Repeated(st.count, AttrsOf(st)) + Decode(s[i..], AttrsOf(st))
  {
    var e := Classify(s, i, st);
    var r := Step(special, e, st);
    if IsChange(e) {
      assert Repeated(0, AttrsOf(r.1)) == [];
      ChangeShows(special, s, i, st, rest);
    } else if e.SameChar? {
      assert r.0 + rest == rest;
      SameCharShows(s, i, st, rest);
    } else {
      assert r.0 + rest == rest && r.1 == st;
      IgnoredShows(s, i, st, rest);
    }
  }

  /**
   * What optimizeRow emits from position `i` on shows as the pending run
   * followed by what the rest of the original row shows.
   */
  lemma {:induction false} OptimizeFromShows(special: SpecialChars, s: seq<int>, i: nat, st: RowState)
    requires NoLowKeys(special)
    requires i <= |s| && PlainFrom(s, i)
    requires st.count + (|s| - i) <= 63
    requires st.count > 0 ==> 0x20 <= st.ch <= 0x7f
    ensures Decode(OptimizeFrom(special, s, i, st), AttrsOf(st))
            == Repeated(st.count, AttrsOf(st)) + Decode(s[i..], AttrsOf(st))
    decreases |s| - i
  {
    if i == |s| {
      FinalFlushShows(special, st);
      assert s[i..] == [];
    } else {
      var r := Step(special, Classify(s, i, st), st);
      var n := NextOptimize(s, i);
      StepKeepsPlain(special, s, i, st);
      OptimizeFromShows(special, s, n, r.1);
      StepShows(special, s, i, st, OptimizeFrom(special, s, n, r.1));
    }
  }

  /** optimizeRow's compacted row shows exactly what the row it started from shows. */
  lemma OptimizePreservesDisplay(special: SpecialChars, s: seq<int>)
    requires NoLowKeys(special)
    requires PlainFrom(s, 0) && |s| <= 63
    ensures Decode(Optimized(special, s), AttrsOf(RowStart)) == Decode(s, AttrsOf(RowStart))
  {
    OptimizeFromShows(special, s, 0, RowStart);
    assert s[0..] == s;
  }

  /**
   * The codes a flush sends when the table leaves them alone: mid-row a run
   * of one is the character itself, and at the end of the row even a run of
   * one is a repeat.
   */
  lemma FlushCodes(special: SpecialChars, st: RowState)
    requires NoLowKeys(special) && st.count <= 63 && 0 <= st.ch <= 0x7f
    ensures Flush(special, st) == if st.count == 0 then []
                                  else if st.count == 1 then [st.ch]
                                  else [0x12, 0x40 + st.count]
    ensures FinalFlush(special, st) == if st.count == 0 then [] else [0x12, 0x40 + st.count]
  {
    EncodePair(special, 0x12, 0x40 + st.count);
  }

  /** An escape whose argument changes no attribute is dropped, with the run still pending. */
  lemma IdleEscapeDropped(special: SpecialChars, s: seq<int>, i: nat, st: RowState)
    requires i < |s| && s[i] == 0x1b
    requires i + 1 == |s| || SetAttr(AttrsOf(st), s[i + 1]) == AttrsOf(st)
    ensures OptimizeFrom(special, s, i, st) == OptimizeFrom(special, s, i + 2, st)
  {
    assert Classify(s, i, st).Ignored?;
  }

  /**
   * An escape whose argument is not an attribute code (a size, blink,
   * polarity or masking escape, say) is dropped with its argument.
   */
  lemma OtherEscapeDropped(special: SpecialChars, s: seq<int>, i: nat, st: RowState)
    requires i + 1 < |s| && s[i] == 0x1b && !AttributeCode(s[i + 1])
    ensures OptimizeFrom(special, s, i, st) == OptimizeFrom(special, s, i + 2, st)
  {
    IdleEscapeDropped(special, s, i, st);
  }

  /** An escape whose argument changes an attribute flushes the run and is kept. */
  lemma ChangingEscapeKept(special: SpecialChars, s: seq<int>, i: nat, st: RowState)
    requires i + 1 < |s| && s[i] == 0x1b
    requires SetAttr(AttrsOf(st), s[i + 1]) != AttrsOf(st)
    ensures var a := SetAttr(AttrsOf(st), s[i + 1]);
            OptimizeFrom(special, s, i, st)
            == Flush(special, st) + Encode(special, Seq([Code(0x1b), Code(s[i + 1])]))
               + OptimizeFrom(special, s, i + 2, RowState(a.fg, a.bg, a.separated, st.ch, 0))
  {
    var e := Classify(s, i, st);
    assert e.ChangeFg? || e.ChangeBg? || e.ChangeSeparated?;
  }

  /** A control code other than 0x09 and escape is pushed where it stands, the run still pending. */
  lemma ControlCopied(special: SpecialChars, s: seq<int>, i: nat, st: RowState)
    requires i < |s| && s[i] < 0x20 && s[i] != 0x09 && s[i] != 0x1b
    ensures OptimizeFrom(special, s, i, st) == PushedCodes(special, s[i]) + OptimizeFrom(special, s, i + 1, st)
  {
    assert Classify(s, i, st) == Control(s[i]);
  }

  /** The rest of a row repeating the run's character only lengthens the run. */
  lemma {:induction false} RunContinues(special: SpecialChars, s: seq<int>, i: nat, st: RowState)
    requires i <= |s| && st.ch >= 0x20
    requires forall k :: i <= k < |s| ==> s[k] == st.ch
    ensures OptimizeFrom(special, s, i, st) == FinalFlush(special, st.(count := st.count + (|s| - i)))
    decreases |s| - i
  {
    if i < |s| {
      assert Classify(s, i, st) == SameChar;
      RunContinues(special, s, i + 1, st.(count := st.count + 1));
    }
  }

  /** `n` copies of one displayable code compact to the code and a repeat of the other `n - 1`. */
  lemma RunCompacts(special: SpecialChars, c: int, n: nat)
    requires NoLowKeys(special) && 0x20 <= c <= 0x7f && 1 <= n <= 64
    ensures Optimized(special, seq(n, _ => c)) == if n == 1 then [c] else [c, 0x12, 0x40 + (n - 1)]
  {
    var s := seq(n, _ => c);
    assert Classify(s, 0, RowStart) == ChangeChar(c);
    var st := RowState(0x47, 0x50, false, c, 0);
    assert Flush(special, RowStart) == [] && Encode(special, Code(c)) == [c];
    assert After(ChangeChar(c), RowStart) == st;
    assert IsChange(ChangeChar(c)) && Emitted(ChangeChar(c)) == Code(c);
    assert Step(special, ChangeChar(c), RowStart).0 == [] + [c];
    assert Step(special, ChangeChar(c), RowStart).1 == st;
    RunContinues(special, s, 1, st);
    FlushCodes(special, st.(count := n - 1));
  }
}
