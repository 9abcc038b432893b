/** The generator of the Unicode class table: it run-length encodes a classification of code points. */
module MkCtype {
  import opened Options
  import opened CtypeTable

  /** The generated codes are those below END; tables for a two-byte `wchar_t` stop at MIDDLE. */
  const MIDDLE := 0x10000
  const END := 0xe01f0

  type Classes = int -> Category

  /** Entries below `above`, in order; each class entry is a code of that class, and no other entry is at 0. */
  ghost predicate Genuine(t: seq<Entry>, classes: Classes, above: int) {
    && Increasing(t) && Compressed(t) && above >= 1
    && (forall i | 0 <= i < |t| :: 0 <= t[i].code < above)
    && (forall i | 0 <= i < |t| :: if t[i].cat == NONE then t[i].code >= 1 else classes(t[i].code) == t[i].cat)
    && (t != [] ==> t[|t| - 1].cat != NONE)
  }

  /** The codes from `first` up to `code` are of one class. */
  ghost predicate Open(classes: Classes, first: int, code: int, c: Category) {
    0 <= first < code && forall x | first <= x < code :: classes(x) == c
  }

  /** How many runs of equal class start below `n`. */
  function Runs(classes: Classes, n: int): (r: nat)
    ensures n > 0 ==> r > 0
  {
    if n <= 0 then 0
    else Runs(classes, n - 1) + if n == 1 || classes(n - 1) != classes(n - 2) then 1 else 0
  }

  /** Along a run that number grows by one. */
  lemma {:induction false} RunsOpen(classes: Classes, first: int, code: int, c: Category)
    requires Open(classes, first, code, c) && (first > 0 ==> classes(first - 1) != c)
    ensures Runs(classes, code) == Runs(classes, first) + 1
    decreases code
  {
    if code > first + 1 {
      RunsOpen(classes, first, code - 1, c);
    }
  }

  /** The code that a table starts with: the gap before the first run is printed from 1 on. */
  function Lowest(classes: Classes): int {
    if classes(0) != NONE then 0 else 1
  }

  /** No entry is missing for the first run. */
  predicate FirstRunShows(classes: Classes) {
    classes(0) != NONE || classes(1) == NONE
  }

  /** What is written describes everything up to `above`, and what lies between there and `first` has no class. */
  ghost predicate Covers(t: seq<Entry>, classes: Classes, above: int, first: int) {
    if t == [] then forall x | 0 <= x < first :: classes(x) == NONE
    else
      && t[0].code == Lowest(classes)
      && (forall x | Lowest(classes) <= x < above :: Decode(t, x) == classes(x))
      && (forall x | above <= x < first :: classes(x) == NONE)
  }

  /** One entry for each run in front of `first`, but for a gap that is still to be printed. */
  ghost predicate Counted(t: seq<Entry>, classes: Classes, above: int, first: int) {
    FirstRunShows(classes) ==> |t| == Runs(classes, first) - if above < first then 1 else 0
  }

  /** The generator is about to look at `code`; the run from `first` on, of class `prev`, is not yet written. */
  ghost predicate Scanned(t: seq<Entry>, above: int, classes: Classes, code: int, first: int, prev: Option<Category>) {
    && Genuine(t, classes, above)
    && (t == [] ==> above == 1)
    && match prev
       case None => code == 0 && t == []
       case Some(c) =>
         && Open(classes, first, code, c) && (first > 0 ==> classes(first - 1) != c)
         && (above <= first || (t == [] && first == 0))
         && (t != [] && first == above ==> t[|t| - 1].cat != c)
         && (c == NONE ==> first == above || (t == [] && first == 0))
         && Covers(t, classes, above, first) && Counted(t, classes, above, first)
  }

  /** The lines that `dump_result` prints for a run of class `c`: first the gap in front of it, if any. */
  function Dumped(t: seq<Entry>, above: int, code: int, c: Category): seq<Entry> {
    t + (if above < code then [Entry(above, NONE)] else []) + [Entry(code, c)]
  }

  lemma {:induction false} GenuineAppend(t: seq<Entry>, classes: Classes, above: int, e: Entry, end: int)
    requires Genuine(t, classes, above) && 0 <= e.code < end && (above <= e.code || t == [])
    requires e.cat != NONE && classes(e.code) == e.cat && (t != [] ==> t[|t| - 1].cat != e.cat)
    ensures Genuine(t + [e], classes, end)
  {
    CompressedAppend(t, e);
  }

  lemma {:induction false} CompressedAppend(t: seq<Entry>, e: Entry)
    requires Compressed(t) && (t != [] ==> t[|t| - 1].cat != e.cat)
    ensures Compressed(t + [e])
  {
    forall i | 0 < i < |t + [e]|
      ensures Differ(t + [e], i)
    {
      assert i < |t| ==> Differ(t, i);
    }
  }

  lemma {:induction false} GenuineGap(t: seq<Entry>, classes: Classes, above: int, first: int, c: Category, end: int)
    requires Genuine(t, classes, above) && above < first < end && c != NONE && classes(first) == c
    ensures Genuine(Dumped(t, above, first, c), classes, end)
  {
    CompressedAppend(t, Entry(above, NONE));
    CompressedAppend(t + [Entry(above, NONE)], Entry(first, c));
  }

  /** A run that is written leaves a table that describes everything up to its end. */
  lemma {:induction false} DumpRun(t: seq<Entry>, above: int, classes: Classes, code: int, first: int, c: Category)
    requires Scanned(t, above, classes, code, first, Some(c)) && c != NONE
    ensures Dumped(t, above, first, c) != [] && Genuine(Dumped(t, above, first, c), classes, code)
    ensures Covers(Dumped(t, above, first, c), classes, code, code)
    ensures Counted(Dumped(t, above, first, c), classes, code, code)
  {
    hide Genuine, Decode, Covers, Runs;
    if above < first {
      GenuineGap(t, classes, above, first, c, code);
    } else {
      assert Dumped(t, above, first, c) == t + [Entry(first, c)];
      GenuineAppend(t, classes, above, Entry(first, c), code);
    }
    DumpCovers(t, above, classes, code, first, c);
    RunsOpen(classes, first, code, c);
  }

  lemma {:induction false} DumpCovers(t: seq<Entry>, above: int, classes: Classes, code: int, first: int, c: Category)
    requires Scanned(t, above, classes, code, first, Some(c)) && c != NONE
    ensures Covers(Dumped(t, above, first, c), classes, code, code)
  {
    hide Genuine, Decode, Counted;
    var gap := t + [Entry(above, NONE)];
    var t' := Dumped(t, above, first, c);
    assert classes(first) == c;
    forall x | Lowest(classes) <= x < code
      ensures Decode(t', x) == classes(x)
    {
      DecodeNone(x);
      DecodeAppend(t, Entry(above, NONE), x);
      if above < first {
        assert t' == gap + [Entry(first, c)];
        DecodeAppend(gap, Entry(first, c), x);
      } else {
        assert t' == t + [Entry(first, c)];
        DecodeAppend(t, Entry(first, c), x);
      }
    }
  }

  lemma {:induction false} DecodeNone(x: int)
    ensures Decode([], x) == NONE
  {
  }

  /** The next code is of another class than the run so far, which is written or has nothing to write. */
  lemma {:induction false} NewRun(t: seq<Entry>, above: int, classes: Classes, code: int, first: int,
                                  prev: Option<Category>)
    requires Scanned(t, above, classes, code, first, prev) && prev != Some(classes(code)) && code >= 0
    ensures prev.None? || prev == Some(NONE) ==> Scanned(t, above, classes, code + 1, code, Some(classes(code)))
    ensures prev.Some? && prev != Some(NONE) ==>
              Scanned(Dumped(t, above, first, prev.value), code, classes, code + 1, code, Some(classes(code)))
  {
    hide Genuine, Decode, Runs;
    NoRuns(classes);
    if prev.Some? {
      RunsOpen(classes, first, code, prev.value);
    }
    if prev.Some? && prev != Some(NONE) {
      DumpRun(t, above, classes, code, first, prev.value);
    }
  }

  lemma {:induction false} NoRuns(classes: Classes)
    ensures Runs(classes, 0) == 0
  {
  }

  // ---- when a table is right ----

  /** A search for any generated code finds its class. */
  ghost predicate Right(t: seq<Entry>, classes: Classes, end: int) {
    t != [] && forall x | 0 <= x < end :: Answer(t, x, false) == Found(classes(x))
  }

  /** A search for code 0 in a table of `n` entries finds its class. */
  ghost predicate ZeroFound(classes: Classes, n: nat) {
    classes(0) != NONE || (classes(1) == NONE && !UnderflowSize(n))
  }

  /** The exact condition for a two-byte `wchar_t`. */
  ghost predicate NarrowFits(classes: Classes) {
    classes(MIDDLE - 1) == NONE && ZeroFound(classes, Runs(classes, MIDDLE))
  }

  /** The exact condition for a four-byte `wchar_t`. */
  ghost predicate WideFits(classes: Classes) {
    || (forall x | 0 <= x < END :: classes(x) == NONE)
    || (classes(END - 1) != NONE && ZeroFound(classes, Runs(classes, END) + 1))
  }

  /** What a table answers that is closed at `above`: it is right from its lowest code on, and sometimes below. */
  lemma {:induction false} ClosedAnswers(t: seq<Entry>, classes: Classes, above: int, end: int)
    requires Genuine(t, classes, above) && t != [] && Covers(t, classes, above, above)
    requires above <= end && forall x | above <= x < end :: classes(x) == NONE
    ensures var t' := t + [Entry(above, NONE)];
            && t'[0].code == Lowest(classes)
            && Answer(t', 0, false) == (if classes(0) != NONE then Found(classes(0))
                                        else if UnderflowSize(|t'|) then Underflow else Found(classes(1)))
            && forall x | 0 < x < end :: Answer(t', x, false) == Found(classes(x))
  {
    hide Decode, UnderflowSize, StepsBelow, Compressed;
    var t' := t + [Entry(above, NONE)];
    StepsBelowExact(|t'| - 1);
    assert t'[0] == t[0];
    if classes(0) == NONE {
      DecodeAt(t, 1, 0);
      assert Decode(t, 1) == classes(1);
    }
    forall x | Lowest(classes) <= x < end
      ensures Answer(t', x, false) == Found(classes(x))
    {
      DecodeAppend(t, Entry(above, NONE), x);
    }
    assert classes(0) != NONE ==> Answer(t', 0, false) == Found(classes(0));
  }

  /** A table without a class: every search finds none. */
  lemma {:induction false} EmptyAnswers(end: int, x: int)
    requires x >= 0
    ensures Answer([Entry(end, NONE)], x, false) == Found(NONE)
  {
    DecodeAppend([], Entry(end, NONE), x);
    assert [] + [Entry(end, NONE)] == [Entry(end, NONE)];
  }

  class Generator {
    var prevAbove: int
    var table: seq<Entry>

    /** `dump_result`: writes a run, unless it has no class. */
    method DumpResult(code: int, above: int, c: Category)
      modifies this
      ensures table == if c == NONE then old(table) else Dumped(old(table), old(prevAbove), code, c)
      ensures prevAbove == if c == NONE then old(prevAbove) else above
    {
      if c != NONE {
        if prevAbove < code {
          table := table + [Entry(prevAbove, NONE)];
        }
        table := table + [Entry(code, c)];
        prevAbove := above;
      }
    }

    /** One pass over a range of codes. */
    method Scan(classes: Classes, lo: int, hi: int, first0: int, prev0: Option<Category>)
      returns (first: int, prev: Option<Category>)
      requires 0 <= lo <= hi && Scanned(table, prevAbove, classes, lo, first0, prev0)
      modifies this
      ensures Scanned(table, prevAbove, classes, hi, first, prev)
    {
      hide Scanned, Dumped;
      first, prev := first0, prev0;
      for code := lo to hi
        invariant Scanned(table, prevAbove, classes, code, first, prev)
      {
        var c := classes(code);
        if prev != Some(c) {
          NewRun(table, prevAbove, classes, code, first, prev);
          if prev.Some? && prev.value != NONE {
            DumpResult(first, code, prev.value);
          }
          first, prev := code, Some(c);
        } else {
          SameRun(table, prevAbove, classes, code, first, c);
        }
      }
    }

    /** `dump_table`: the table for a two-byte `wchar_t` and the one for a four-byte `wchar_t`. Each finds the
        class of every generated code exactly under a condition on the classification: on its last code, and on
        its first two and the number of its runs. */
    method DumpTable(classes: Classes) returns (narrow: seq<Entry>, wide: seq<Entry>)
      modifies this
      ensures Increasing(wide) && Compressed(wide) && Increasing(narrow) && Compressed(narrow)
      ensures wide != [] && forall x | x >= END :: Answer(wide, x, false) == Found(NONE)
      ensures narrow != [] && forall x | x >= MIDDLE :: Answer(narrow, x, false) == Found(NONE)
      ensures Right(wide, classes, END) <==> WideFits(classes)
      ensures Right(narrow, classes, MIDDLE) <==> NarrowFits(classes)
      ensures classes(END - 1) != NONE ==> wide[0].code == Lowest(classes)
      ensures classes(END - 1) != NONE && FirstRunShows(classes) ==> |wide| == Runs(classes, END) + 1
    {
      hide Scanned, Right, Answer, WideFits, NarrowFits, Increasing, Compressed, Dumped, Runs;
      prevAbove, table := 1, [];
      NothingScanned(classes);
      var first, prev := Scan(classes, 0, MIDDLE, 0, None);
      NarrowEnd(table, prevAbove, classes, first, prev);
      narrow := table;
      if prevAbove < MIDDLE {
        narrow := narrow + [Entry(prevAbove, NONE)];
      }
      first, prev := Scan(classes, MIDDLE, END, first, prev);
      WideEnd(table, prevAbove, classes, first, prev);
      DumpResult(first, END, classes(END - 1));
      wide := table + [Entry(END, NONE)];
    }
  }

  lemma {:induction false} NothingScanned(classes: Classes)
    ensures Scanned([], 1, classes, 0, 0, None)
  {
  }

  lemma {:induction false} SameRun(t: seq<Entry>, above: int, classes: Classes, code: int, first: int, c: Category)
    requires Scanned(t, above, classes, code, first, Some(c)) && classes(code) == c
    ensures Scanned(t, above, classes, code + 1, first, Some(c))
  {
    hide Genuine, Covers;
  }

  /** A table of class entries, closed by one without a class: it stays in order, and has no class from there on. */
  lemma {:induction false} Closed(t: seq<Entry>, classes: Classes, above: int, end: int)
    requires Genuine(t, classes, above) && above <= end
    ensures var t' := t + [Entry(end, NONE)];
            && Increasing(t') && Compressed(t')
            && (forall x | x >= end :: Answer(t', x, false) == Found(NONE))
            && (forall x | t'[0].code <= x < end :: Answer(t', x, false) == Found(Decode(t, x)))
  {
    hide Decode;
    var t' := t + [Entry(end, NONE)];
    CompressedAppend(t, Entry(end, NONE));
    forall x | x >= t'[0].code
      ensures Answer(t', x, false) == Found(if x >= end then NONE else Decode(t, x))
    {
      DecodeAppend(t, Entry(end, NONE), x);
    }
  }

  lemma {:induction false} LastClass(t: seq<Entry>, classes: Classes, above: int, x: int)
    requires Genuine(t, classes, above) && t != [] && x >= above
    ensures Decode(t, x) != NONE && t[0].code <= x
  {
  }

  /** What is closed at the end of the first range. */
  lemma {:induction false} NarrowEnd(t: seq<Entry>, above: int, classes: Classes, first: int, prev: Option<Category>)
    requires Scanned(t, above, classes, MIDDLE, first, prev)
    ensures above < MIDDLE
    ensures var t' := t + [Entry(above, NONE)];
            && Increasing(t') && Compressed(t') && (forall x | x >= MIDDLE :: Answer(t', x, false) == Found(NONE))
            && (Right(t', classes, MIDDLE) <==> NarrowFits(classes))
  {
    hide Genuine, Decode, Increasing, Compressed, Answer, Runs, UnderflowSize, Covers;
    var t' := t + [Entry(above, NONE)];
    Closed(t, classes, above, above);
    RunsOpen(classes, first, MIDDLE, prev.value);
    CloseBelow(t, classes, above);
    if prev.value != NONE {
      assert Answer(t', MIDDLE - 1, false) == Found(NONE);
    } else if t == [] {
      NarrowEmpty(t, classes, above, first);
      assert t' == [Entry(above, NONE)];
    } else {
      ClosedAnswers(t, classes, above, MIDDLE);
      ZeroAnswer(t', classes, MIDDLE, Runs(classes, MIDDLE));
    }
  }

  lemma {:induction false} CloseBelow(t: seq<Entry>, classes: Classes, above: int)
    requires Genuine(t, classes, above)
    ensures (t + [Entry(above, NONE)])[0].code <= above
  {
  }

  /** Nothing was written: no code of the range has a class, and the table has one entry. */
  lemma {:induction false} NarrowEmpty(t: seq<Entry>, classes: Classes, above: int, first: int)
    requires t == [] && Scanned(t, above, classes, MIDDLE, first, Some(NONE))
    ensures Right([Entry(above, NONE)], classes, MIDDLE) && NarrowFits(classes)
  {
    hide Genuine, Decode, Answer;
    assert first == 0;
    RunsOpen(classes, 0, MIDDLE, NONE);
    NoRuns(classes);
    StepsBelowExact(0);
    forall x | 0 <= x < MIDDLE
      ensures Answer([Entry(above, NONE)], x, false) == Found(classes(x))
    {
      EmptyAnswers(above, x);
    }
  }

  /** A table that is right from 1 on is right if 0 is found. */
  lemma {:induction false} ZeroAnswer(t: seq<Entry>, classes: Classes, end: int, n: nat)
    requires t != [] && end > 1
    requires forall x | 0 < x < end :: Answer(t, x, false) == Found(classes(x))
    requires Answer(t, 0, false) == (if classes(0) != NONE then Found(classes(0))
                                     else if UnderflowSize(|t|) then Underflow else Found(classes(1)))
    requires FirstRunShows(classes) ==> |t| == n
    ensures Right(t, classes, end) <==> ZeroFound(classes, n)
  {
    hide Answer, UnderflowSize;
    assert Right(t, classes, end) <==> Answer(t, 0, false) == Found(classes(0));
  }

  /** What is closed at the end of the second range. */
  lemma {:induction false} WideEnd(t: seq<Entry>, above: int, classes: Classes, first: int, prev: Option<Category>)
    requires Scanned(t, above, classes, END, first, prev)
    ensures var c := classes(END - 1);
            var t' := (if c == NONE then t else Dumped(t, above, first, c)) + [Entry(END, NONE)];
            && Increasing(t') && Compressed(t') && (forall x | x >= END :: Answer(t', x, false) == Found(NONE))
            && (Right(t', classes, END) <==> WideFits(classes))
            && (c != NONE ==> t'[0].code == Lowest(classes))
            && (c != NONE && FirstRunShows(classes) ==> |t'| == Runs(classes, END) + 1)
  {
    hide Genuine, Decode, Increasing, Compressed, Dumped, Answer, Runs, UnderflowSize, Covers;
    var c := classes(END - 1);
    if c != NONE {
      var t1 := Dumped(t, above, first, c);
      DumpRun(t, above, classes, END, first, c);
      Closed(t1, classes, END, END);
      ClosedAnswers(t1, classes, END, END);
      ZeroAnswer(t1 + [Entry(END, NONE)], classes, END, Runs(classes, END) + 1);
    } else {
      Closed(t, classes, above, END);
      if t == [] {
        WideEmpty(t, classes, above, first);
        assert t + [Entry(END, NONE)] == [Entry(END, NONE)];
      } else {
        LastClass(t, classes, above, END - 1);
        Classified(t, classes, above);
        assert Answer(t + [Entry(END, NONE)], END - 1, false) != Found(NONE);
      }
    }
  }

  lemma {:induction false} WideEmpty(t: seq<Entry>, classes: Classes, above: int, first: int)
    requires t == [] && Scanned(t, above, classes, END, first, Some(NONE))
    ensures Right([Entry(END, NONE)], classes, END) && WideFits(classes)
  {
    hide Genuine, Decode, Answer;
    assert first == 0;
    forall x | 0 <= x < END
      ensures Answer([Entry(END, NONE)], x, false) == Found(classes(x))
    {
      EmptyAnswers(END, x);
    }
  }

  /** Where something is written, some code has a class. */
  lemma {:induction false} Classified(t: seq<Entry>, classes: Classes, above: int)
    requires Genuine(t, classes, above) && t != []
    ensures exists x :: 0 <= x < above && classes(x) != NONE
  {
    var e := t[|t| - 1];
    assert classes(e.code) != NONE;
  }

  /** Generating and looking up: for each classification that the table fits, every code below the end of the
      table has the class it was generated from, and every code above has none. In the C locale that is so for
      ASCII, and nothing else has a class. */
  method LookupGenerated(classes: Classes, x: int, inC: bool) returns (answer: Search)
    requires WideFits(classes) && x >= 0
    ensures answer == Found(if x < END && !(inC && x >= 0x80) then classes(x) else NONE)
  {
    hide Answer, WideFits, Increasing, Compressed;
    var g := new Generator;
    var narrow, wide := g.DumpTable(classes);
    SameInC(wide, x, inC);
    answer := Lookup(wide, x, inC);
  }

  lemma {:induction false} SameInC(t: seq<Entry>, x: int, inC: bool)
    requires t != [] && x >= 0
    ensures Answer(t, x, inC) == if inC && x >= 0x80 then Found(NONE) else Answer(t, x, false)
  {
  }

  // ---- classifications that show the condition ----

  /** Nothing has a class: both tables are right. */
  method EmptyThroughout() returns (narrow: seq<Entry>, wide: seq<Entry>)
    ensures Right(wide, x => NONE, END) && Right(narrow, x => NONE, MIDDLE)
  {
    hide Right, Answer;
    var g := new Generator;
    narrow, wide := g.DumpTable(x => NONE);
    ghost var classes: Classes := x => NONE;
    RunsOpen(classes, 0, MIDDLE, NONE);
    NoRuns(classes);
    StepsBelowExact(0);
  }

  /** All but codes 0 and 1 have the same class: the four-byte table starts at 1 and is right all the same. */
  method EmptyAtZeroAndOne() returns (narrow: seq<Entry>, wide: seq<Entry>)
    ensures Right(wide, x => if x < 2 then NONE else 1, END) && wide[0].code == 1 && |wide| == 3
    ensures !Right(narrow, x => if x < 2 then NONE else 1, MIDDLE)
  {
    hide Right, Answer, Runs;
    var g := new Generator;
    narrow, wide := g.DumpTable(x => if x < 2 then NONE else 1);
    ghost var classes: Classes := x => if x < 2 then NONE else 1;
    NoRuns(classes);
    RunsOpen(classes, 0, 2, NONE);
    RunsOpen(classes, 2, END, 1);
    StepsBelowExact(2);
  }

  /** With two runs more the table has five entries, and the search for code 0 underflows. */
  method FiveEntriesUnderflow() returns (narrow: seq<Entry>, wide: seq<Entry>)
    ensures |wide| == 5 && Answer(wide, 0, false) == Underflow
    ensures !Right(wide, x => if x < 2 then NONE else if x < 4 then x - 1 else 3, END)
  {
    hide Runs, Right, Decode;
    var g := new Generator;
    narrow, wide := g.DumpTable(x => if x < 2 then NONE else if x < 4 then x - 1 else 3);
    ghost var classes: Classes := x => if x < 2 then NONE else if x < 4 then x - 1 else 3;
    NoRuns(classes);
    RunsOpen(classes, 0, 2, NONE);
    RunsOpen(classes, 2, 3, 1);
    RunsOpen(classes, 3, 4, 2);
    RunsOpen(classes, 4, END, 3);
    StepsBelowExact(4);
    assert StepsBelow(1);
  }

  /** Every code but 0 has a class: code 0 is answered with the class of code 1. */
  method EmptyAtZero() returns (narrow: seq<Entry>, wide: seq<Entry>)
    ensures !Right(wide, x => if x == 0 then NONE else 1, END)
    ensures !Right(narrow, x => if x == 0 then NONE else 1, MIDDLE)
  {
    hide Right, Runs, Answer;
    var g := new Generator;
    narrow, wide := g.DumpTable(x => if x == 0 then NONE else 1);
    ghost var classes: Classes := x => if x == 0 then NONE else 1;
    assert classes(1) == 1;
  }

  /** Only code 0 has a class. The table for a two-byte `wchar_t` is right; the other one is not. */
  method EmptyAtEnd() returns (narrow: seq<Entry>, wide: seq<Entry>)
    ensures Right(narrow, x => if x == 0 then 1 else NONE, MIDDLE)
    ensures !Right(wide, x => if x == 0 then 1 else NONE, END)
  {
    hide Right, Runs, Answer;
    var g := new Generator;
    narrow, wide := g.DumpTable(x => if x == 0 then 1 else NONE);
    ghost var classes: Classes := x => if x == 0 then 1 else NONE;
    assert classes(0) == 1;
  }
}
