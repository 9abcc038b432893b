/** Argz vectors: sequences of NUL-terminated strings in one buffer, their meaning as lists of entries,
    and what search-and-replace means for them. */
module Argz {
  import opened Memory

  /** A C string without its terminator holds no NUL. */
  predicate Clean(s: Bytes) {
    0 !in s
  }

  ghost predicate AllClean(es: seq<Bytes>) {
    forall i | 0 <= i < |es| :: Clean(es[i])
  }

  /** The buffer of a list of entries. */
  function Flatten(es: seq<Bytes>): Bytes {
    if es == [] then [] else es[0] + [0] + Flatten(es[1..])
  }

  predicate WellFormed(b: Bytes) {
    b == [] || b[|b| - 1] == 0
  }

  /** The length of the C string that starts a buffer (`strlen`). */
  function StrLen(b: Bytes): (n: nat)
    ensures n <= |b| && Clean(b[..n])
    ensures n < |b| ==> b[n] == 0
    ensures 0 in b ==> n < |b|
  {
    if b == [] || b[0] == 0 then 0
    else
      var n := 1 + StrLen(b[1..]);
      assert b[..n] == [b[0]] + b[1..][..n - 1];
      n
  }

  /** The entries of a well-formed buffer. */
  function Entries(b: Bytes): (es: seq<Bytes>)
    requires WellFormed(b)
    decreases |b|
  {
    if b == [] then [] else [b[..StrLen(b)]] + Entries(b[StrLen(b) + 1..])
  }

  lemma {:induction false} SplitAt(b: Bytes, n: nat)
    requires n < |b|
    ensures b == b[..n] + [b[n]] + b[n + 1..]
  {
  }

  lemma {:induction false} FirstEntry(b: Bytes)
    requires WellFormed(b) && b != []
    ensures StrLen(b) < |b| && Clean(b[..StrLen(b)]) && b == b[..StrLen(b)] + [0] + b[StrLen(b) + 1..]
    ensures WellFormed(b[StrLen(b) + 1..])
  {
    hide StrLen, Clean;
    assert b[|b| - 1] in b;
    SplitAt(b, StrLen(b));
  }

  /** Buffers and clean entry lists stand for each other. */
  lemma {:induction false} FlattenEntries(b: Bytes)
    requires WellFormed(b)
    ensures AllClean(Entries(b)) && Flatten(Entries(b)) == b
    decreases |b|
  {
    hide StrLen, WellFormed, Clean;
    if b != [] {
      FirstEntry(b);
      FlattenEntries(b[StrLen(b) + 1..]);
      assert Entries(b)[1..] == Entries(b[StrLen(b) + 1..]);
    }
  }

  lemma {:induction false} EntriesFlatten(es: seq<Bytes>)
    requires AllClean(es)
    ensures WellFormed(Flatten(es)) && Entries(Flatten(es)) == es
  {
    if es != [] {
      EntriesFlatten(es[1..]);
      var b := Flatten(es);
      StrLenOf(es[0], Flatten(es[1..]));
      assert b[|es[0]| + 1..] == Flatten(es[1..]);
      assert b[..|es[0]|] == es[0];
    }
  }

  lemma {:induction false} StrLenOf(x: Bytes, rest: Bytes)
    requires Clean(x)
    ensures StrLen(x + [0] + rest) == |x|
  {
    var b := x + [0] + rest;
    if x != [] {
      assert b[1..] == x[1..] + [0] + rest;
      StrLenOf(x[1..], rest);
    }
  }

  lemma {:induction false} FlattenAppend(a: seq<Bytes>, b: seq<Bytes>)
    ensures Flatten(a + b) == Flatten(a) + Flatten(b)
  {
    if a == [] {
      assert a + b == b;
    } else {
      assert (a + b)[1..] == a[1..] + b;
      FlattenAppend(a[1..], b);
    }
  }

  // ---- search and replace ----

  /** `str` occurs in `s` at `i`. */
  predicate MatchAt(s: Bytes, str: Bytes, i: nat) {
    i <= |s| && str <= s[i..]
  }

  lemma {:induction false} NoneBefore(s: Bytes, str: Bytes, i: nat)
    requires s != [] && i > 0 && !(str <= s)
    requires forall k: nat | k < i - 1 :: !MatchAt(s[1..], str, k)
    ensures forall k: nat | k < i :: !MatchAt(s, str, k)
  {
    forall k: nat | k < i
      ensures !MatchAt(s, str, k)
    {
      if k == 0 {
        assert s[0..] == s;
      } else if k <= |s| {
        assert s[k..] == s[1..][k - 1..];
        assert !MatchAt(s[1..], str, k - 1);
      }
    }
  }

  /** The first occurrence of a non-empty `str`, or |s| if there is none. */
  function First(s: Bytes, str: Bytes): (i: nat)
    requires str != []
    ensures i <= |s|
    ensures i < |s| ==> MatchAt(s, str, i) && i + |str| <= |s|
    ensures forall k: nat | k < i :: !MatchAt(s, str, k)
  {
    if s == [] || str <= s then 0
    else
      var i := 1 + First(s[1..], str);
      assert forall k: nat | k < i :: !MatchAt(s, str, k) by { NoneBefore(s, str, i); }
      assert i <= |s| && s[i..] == s[1..][i - 1..];
      i
  }

  /** Every occurrence, leftmost first and without overlaps, replaced. */
  function Replaced(s: Bytes, str: Bytes, with: Bytes): Bytes
    requires str != []
    decreases |s|
  {
    var i := First(s, str);
    if i == |s| then s else s[..i] + with + Replaced(s[i + |str|..], str, with)
  }

  /** How many are replaced. */
  function Occurrences(s: Bytes, str: Bytes): nat
    requires str != []
    decreases |s|
  {
    var i := First(s, str);
    if i == |s| then 0 else 1 + Occurrences(s[i + |str|..], str)
  }

  /** Pieces with copies of a string between them. */
  function Between(ps: seq<Bytes>, str: Bytes): Bytes
    requires ps != []
  {
    if |ps| == 1 then ps[0] else ps[0] + str + Between(ps[1..], str)
  }

  /** In `p`, with `rest` behind it, no occurrence of `str` begins within `p`. */
  ghost predicate NoneIn(p: Bytes, rest: Bytes, str: Bytes) {
    forall k: nat | k < |p| :: !MatchAt(p + rest, str, k)
  }

  /** The string falls into pieces around its leftmost occurrences; replacing puts the same pieces around copies of
      the replacement. */
  lemma {:induction false} PiecesKept(s: Bytes, str: Bytes, with: Bytes) returns (ps: seq<Bytes>)
    requires str != []
    ensures |ps| == Occurrences(s, str) + 1
    ensures Between(ps, str) == s && Between(ps, with) == Replaced(s, str, with)
    ensures forall i | 0 <= i < |ps| - 1 :: NoneIn(ps[i], str, str)
    ensures NoneIn(ps[|ps| - 1], [], str)
    decreases |s|
  {
    hide MatchAt, NoneIn, Between, First;
    var i := First(s, str);
    if i == |s| {
      ps := [s];
      assert s[..i] == s;
      NoneInFront(s, str, [], i);
      OnePiece(s, str, with);
    } else {
      MatchParts(s, str, i);
      var rest := PiecesKept(s[i + |str|..], str, with);
      ps := [s[..i]] + rest;
      OneMorePiece(s[..i], rest, str);
      OneMorePiece(s[..i], rest, with);
      NoneInFront(s, str, str, i);
    }
  }

  lemma {:induction false} OnePiece(s: Bytes, str: Bytes, with: Bytes)
    ensures Between([s], str) == s && Between([s], with) == s
  {
  }

  lemma {:induction false} OneMorePiece(p: Bytes, ps: seq<Bytes>, str: Bytes)
    requires ps != []
    ensures Between([p] + ps, str) == p + str + Between(ps, str)
  {
    assert ([p] + ps)[1..] == ps;
  }

  lemma {:induction false} MatchParts(s: Bytes, str: Bytes, i: nat)
    requires MatchAt(s, str, i) && i + |str| <= |s|
    ensures s == s[..i] + str + s[i + |str|..]
  {
    assert s[i..][..|str|] == str;
  }

  lemma {:induction false} MatchLonger(p: Bytes, s: Bytes, str: Bytes, k: nat)
    requires p <= s && MatchAt(p, str, k)
    ensures MatchAt(s, str, k)
  {
    assert p[k..] <= s[k..];
  }

  lemma {:induction false} NoneInFront(s: Bytes, str: Bytes, rest: Bytes, i: nat)
    requires str != [] && i == First(s, str) && (rest == [] || (rest == str && i < |s|))
    ensures NoneIn(s[..i], rest, str)
  {
    hide First;
    if rest == [] {
      assert s[..i] + rest == s[..i];
    } else {
      MatchParts(s, str, i);
    }
    var p := s[..i] + rest;
    assert p <= s;
    forall k: nat | k < i
      ensures !MatchAt(p, str, k)
    {
      if MatchAt(p, str, k) {
        MatchLonger(p, s, str, k);
      }
    }
  }

  function ReplacedEach(es: seq<Bytes>, str: Bytes, with: Bytes): (r: seq<Bytes>)
    requires str != []
    ensures |r| == |es|
    ensures forall i | 0 <= i < |es| :: r[i] == Replaced(es[i], str, with)
  {
    if es == [] then [] else [Replaced(es[0], str, with)] + ReplacedEach(es[1..], str, with)
  }

  function OccurrencesIn(es: seq<Bytes>, str: Bytes): nat
    requires str != []
  {
    if es == [] then 0 else Occurrences(es[0], str) + OccurrencesIn(es[1..], str)
  }

  /** A clean search string never matches across a terminator. */
  lemma {:induction false} PrefixAcross(x: Bytes, rest: Bytes, str: Bytes)
    requires Clean(str)
    ensures str <= x + [0] + rest <==> str <= x
  {
    var b := x + [0] + rest;
    assert b[|x|] == 0;
    assert str <= b ==> |str| <= |x|;
    assert str <= b ==> b[..|str|] == x[..|str|];
    assert str <= x ==> b[..|str|] == x[..|str|];
  }

  lemma {:induction false} FirstAcross(x: Bytes, rest: Bytes, str: Bytes)
    requires str != [] && Clean(str)
    ensures First(x + [0] + rest, str) ==
            if First(x, str) < |x| then First(x, str) else |x| + 1 + First(rest, str)
  {
    var b := x + [0] + rest;
    PrefixAcross(x, rest, str);
    if x == [] {
      assert b[1..] == rest;
    } else {
      assert b[1..] == x[1..] + [0] + rest;
      FirstAcross(x[1..], rest, str);
    }
  }

  /** One replacement: what stands before the first occurrence, the new text, and the rest replaced. */
  lemma {:induction false} ReplacedAt(s: Bytes, str: Bytes, with: Bytes, i: nat)
    requires str != [] && i == First(s, str) < |s|
    ensures Replaced(s, str, with) == s[..i] + with + Replaced(s[i + |str|..], str, with)
    ensures Occurrences(s, str) == 1 + Occurrences(s[i + |str|..], str)
  {
    hide First, MatchAt;
  }

  lemma {:induction false} ReplacedNone(s: Bytes, str: Bytes, with: Bytes)
    requires str != [] && First(s, str) == |s|
    ensures Replaced(s, str, with) == s && Occurrences(s, str) == 0
  {
  }

  lemma {:induction false} ReplacedAcross(x: Bytes, rest: Bytes, str: Bytes, with: Bytes)
    requires str != [] && Clean(str)
    ensures Replaced(x + [0] + rest, str, with) == Replaced(x, str, with) + [0] + Replaced(rest, str, with)
    ensures Occurrences(x + [0] + rest, str) == Occurrences(x, str) + Occurrences(rest, str)
    decreases |x|
  {
    hide First, Replaced, Occurrences, Clean, MatchAt;
    var b := x + [0] + rest;
    var i := First(x, str);
    FirstAcross(x, rest, str);
    if i < |x| {
      var y := x[i + |str|..];
      ReplacedAt(x, str, with, i);
      ReplacedAt(b, str, with, i);
      assert b[i + |str|..] == y + [0] + rest;
      assert b[..i] == x[..i];
      ReplacedAcross(y, rest, str, with);
    } else {
      ReplacedNone(x, str, with);
      var j := First(rest, str);
      if j < |rest| {
        ReplacedAt(rest, str, with, j);
        ReplacedAt(b, str, with, |x| + 1 + j);
        assert b[|x| + 1 + j + |str|..] == rest[j + |str|..];
        assert b[..|x| + 1 + j] == x + [0] + rest[..j];
      } else {
        ReplacedNone(rest, str, with);
        ReplacedNone(b, str, with);
      }
    }
  }

  /** Replacing in the buffer is replacing in each entry: number and order of entries stay. */
  lemma {:induction false} ReplacedFlatten(es: seq<Bytes>, str: Bytes, with: Bytes)
    requires str != [] && Clean(str)
    ensures Replaced(Flatten(es), str, with) == Flatten(ReplacedEach(es, str, with))
    ensures Occurrences(Flatten(es), str) == OccurrencesIn(es, str)
  {
    if es != [] {
      ReplacedFlatten(es[1..], str, with);
      ReplacedAcross(es[0], Flatten(es[1..]), str, with);
      assert ReplacedEach(es, str, with)[1..] == ReplacedEach(es[1..], str, with);
    }
  }

  /** Replacement keeps entries clean. */
  lemma {:induction false} ReplacedClean(s: Bytes, str: Bytes, with: Bytes)
    requires str != [] && Clean(s) && Clean(with)
    ensures Clean(Replaced(s, str, with))
    decreases |s|
  {
    hide First, Replaced, Clean, MatchAt;
    var i := First(s, str);
    if i < |s| {
      ReplacedAt(s, str, with, i);
      CleanParts(s, i);
      CleanParts(s, i + |str|);
      ReplacedClean(s[i + |str|..], str, with);
      CleanConcat(s[..i], with);
      CleanConcat(s[..i] + with, Replaced(s[i + |str|..], str, with));
    } else {
      ReplacedNone(s, str, with);
    }
  }

  lemma {:induction false} CleanConcat(a: Bytes, b: Bytes)
    ensures Clean(a + b) <==> Clean(a) && Clean(b)
  {
    if 0 in a {
      var k :| 0 <= k < |a| && a[k] == 0;
      assert (a + b)[k] == 0;
    }
    if 0 in b {
      var k :| 0 <= k < |b| && b[k] == 0;
      assert (a + b)[|a| + k] == 0;
    }
  }

  lemma {:induction false} CleanParts(s: Bytes, i: nat)
    requires Clean(s) && i <= |s|
    ensures Clean(s[..i]) && Clean(s[i..])
  {
  }

  lemma {:induction false} ReplacedAllClean(es: seq<Bytes>, str: Bytes, with: Bytes)
    requires str != [] && AllClean(es) && Clean(with)
    ensures AllClean(ReplacedEach(es, str, with))
  {
    forall i | 0 <= i < |es|
      ensures Clean(ReplacedEach(es, str, with)[i])
    {
      ReplacedClean(es[i], str, with);
    }
  }

  // ---- what the C search does, the empty string included ----

  /** Where the search stops: at the first occurrence, and for the empty string at the first terminator. */
  function FoundAt(s: Bytes, str: Bytes): (i: nat)
    ensures i <= |s|
    ensures i < |s| ==> i + |str| <= |s|
  {
    if str == [] then StrLen(s) else First(s, str)
  }

  /** The search stops at `i` if it gets there. */
  predicate Hit(s: Bytes, str: Bytes, i: nat) {
    if str == [] then i < |s| && s[i] == 0 else MatchAt(s, str, i)
  }

  lemma {:induction false} FoundAtIs(s: Bytes, str: Bytes, i: nat)
    requires i + |str| <= |s| && i < |s| && (if str == [] then s[i] == 0 else str == s[i..i + |str|])
    requires forall k: nat | k < i :: !Hit(s, str, k)
    ensures FoundAt(s, str) == i
  {
    hide First, StrLen;
    if str == [] {
      forall k: nat | k < i
        ensures s[k] != 0
      {
        assert !Hit(s, str, k);
      }
      SplitAt(s, i);
      StrLenOf(s[..i], s[i + 1..]);
    } else {
      assert s[i..][..|str|] == s[i..i + |str|];
      assert MatchAt(s, str, i);
      forall k: nat | k < i
        ensures !MatchAt(s, str, k)
      {
        assert !Hit(s, str, k);
      }
    }
  }

  lemma {:induction false} FoundAtNone(s: Bytes, str: Bytes)
    requires forall k: nat | k < |s| :: !Hit(s, str, k)
    ensures FoundAt(s, str) == |s|
  {
    hide First, StrLen;
    var i := FoundAt(s, str);
    assert i < |s| ==> Hit(s, str, i);
  }

  /** What is left of the buffer after one round of the counting loop. */
  function AfterRound(s: Bytes, str: Bytes): Bytes {
    var i := FoundAt(s, str);
    if i < |s| then s[i + |str|..] else []
  }

  /** What is left after `n` rounds; the loop ends when nothing is. */
  function AfterRounds(s: Bytes, str: Bytes, n: nat): Bytes
    decreases n
  {
    if n == 0 || s == [] then s else AfterRounds(AfterRound(s, str), str, n - 1)
  }

  /** The counting loop of the replacement ends exactly if there is something to search for, or nothing to
      search in. */
  lemma {:induction false} CountingEnds(s: Bytes, str: Bytes)
    requires WellFormed(s)
    ensures (exists n: nat :: AfterRounds(s, str, n) == []) <==> str != [] || s == []
  {
    hide AfterRounds;
    if s == [] {
      NoRounds(s, str);
    } else if str != [] {
      var n := RoundsShrink(s, str);
    } else {
      forall n: nat
        ensures AfterRounds(s, str, n) != []
      {
        RoundsStay(s, n);
      }
    }
  }

  lemma {:induction false} NoRounds(s: Bytes, str: Bytes)
    ensures AfterRounds(s, str, 0) == s
  {
  }

  lemma {:induction false} RoundsShrink(s: Bytes, str: Bytes) returns (n: nat)
    requires str != []
    ensures AfterRounds(s, str, n) == []
    decreases |s|
  {
    hide FoundAt;
    n := 0;
    if s != [] {
      var m := RoundsShrink(AfterRound(s, str), str);
      n := m + 1;
    }
  }

  /** The empty string is found at the first terminator, again and again. */
  lemma {:induction false} RoundsStay(s: Bytes, n: nat)
    requires WellFormed(s) && s != []
    ensures AfterRounds(s, [], n) != []
    decreases n
  {
    hide StrLen;
    assert s[|s| - 1] in s;
    if n > 0 {
      RoundsStay(AfterRound(s, []), n - 1);
    }
  }

  /** A vector that holds one empty string is never left. */
  lemma {:induction false} EmptySearchLoops(n: nat)
    ensures AfterRounds([0], [], n) == [0]
    decreases n
  {
    hide AfterRound;
    if n > 0 {
      EmptyRound();
      EmptySearchLoops(n - 1);
    }
  }

  lemma {:induction false} EmptyRound()
    ensures AfterRound([0], []) == [0]
  {
    var s, none: Bytes := [0], [];
    assert StrLen(s) == 0 && s[0 + |none|..] == s;
  }
}
