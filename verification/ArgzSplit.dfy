/** What splitting at a separator and joining with it mean, following the tokenizer the library has
    (strsep in strsep.c and strtok_r.c): it returns empty tokens, except one at the very end. */
module ArgzSplit {
  import opened Bits
  import opened Memory
  import opened Argz
  import opened Options

  /** The position of the first separator, or |t|. The NUL separator never occurs. */
  function SepIndex(t: Bytes, sep: u8): (k: nat)
    ensures k <= |t| && (k < |t| ==> t[k] == sep) && sep !in t[..k]
  {
    if t == [] || t[0] == sep then 0
    else
      var k := 1 + SepIndex(t[1..], sep);
      assert t[..k] == [t[0]] + t[1..][..k - 1];
      k
  }

  /** The tokens of a string: the tokenizer stops when nothing is left. */
  function Split(t: Bytes, sep: u8): seq<Bytes>
    decreases |t|
  {
    if t == [] then []
    else
      var k := SepIndex(t, sep);
      [t[..k]] + (if k < |t| then Split(t[k + 1..], sep) else [])
  }

  /** The tokens still to come, given what the tokenizer's pointer designates. */
  function SplitRest(rest: Option<Bytes>, sep: u8): seq<Bytes> {
    match rest
    case None => []
    case Some(t) => Split(t, sep)
  }

  function Separators(t: Bytes, sep: u8): nat {
    if t == [] then 0 else (if t[0] == sep then 1 else 0) + Separators(t[1..], sep)
  }

  /** Does the string end with the separator? This is what a caller can look at beforehand. */
  predicate EndsWithSep(t: Bytes, sep: u8) {
    t != [] && t[|t| - 1] == sep
  }

  /** `argz_stringify`: every terminator but the last becomes the separator. */
  function Stringified(b: Bytes, sep: u8): (r: Bytes)
    ensures |r| == |b|
  {
    seq(|b|, i requires 0 <= i < |b| => if i < |b| - 1 && b[i] == 0 then sep else b[i])
  }

  lemma {:induction false} SplitStep(t: Bytes, sep: u8)
    requires t != []
    ensures var k := SepIndex(t, sep);
            var rest := if k < |t| then Split(t[k + 1..], sep) else [];
            Split(t, sep) == [t[..k]] + rest && Flatten(Split(t, sep)) == t[..k] + [0] + Flatten(rest)
  {
    hide SepIndex;
    var k := SepIndex(t, sep);
    var rest := if k < |t| then Split(t[k + 1..], sep) else [];
    assert Split(t, sep)[1..] == rest;
  }

  lemma {:induction false} SplitClean(t: Bytes, sep: u8)
    requires Clean(t)
    ensures AllClean(Split(t, sep))
    decreases |t|
  {
    hide SepIndex;
    if t != [] {
      var k := SepIndex(t, sep);
      SplitStep(t, sep);
      if k < |t| {
        SplitClean(t[k + 1..], sep);
      }
    }
  }

  lemma {:induction false} SeparatorsConcat(a: Bytes, b: Bytes, sep: u8)
    ensures Separators(a + b, sep) == Separators(a, sep) + Separators(b, sep)
  {
    if a == [] {
      assert a + b == b;
    } else {
      assert (a + b)[1..] == a[1..] + b;
      SeparatorsConcat(a[1..], b, sep);
    }
  }

  lemma {:induction false} NoSeparators(a: Bytes, sep: u8)
    requires sep !in a
    ensures Separators(a, sep) == 0
  {
    if a != [] {
      NoSeparators(a[1..], sep);
    }
  }

  /** The separators of a string, counted around the first one. */
  lemma {:induction false} SeparatorsAt(t: Bytes, sep: u8)
    ensures var k := SepIndex(t, sep);
            Separators(t, sep) == if k < |t| then 1 + Separators(t[k + 1..], sep) else 0
  {
    hide SepIndex;
    var k := SepIndex(t, sep);
    NoSeparators(t[..k], sep);
    if k < |t| {
      assert t == t[..k] + ([sep] + t[k + 1..]);
      SeparatorsConcat(t[..k], [sep] + t[k + 1..], sep);
      assert ([sep] + t[k + 1..])[1..] == t[k + 1..];
    } else {
      assert t[..k] == t;
    }
  }

  /** One entry more than there are separators, exactly when the string does not end with one. */
  lemma {:induction false} EntryCount(t: Bytes, sep: u8)
    requires t != []
    ensures |Split(t, sep)| == Separators(t, sep) + if EndsWithSep(t, sep) then 0 else 1
    decreases |t|
  {
    hide SepIndex, Split, Flatten, Separators, EndsWithSep;
    var k := SepIndex(t, sep);
    SplitStep(t, sep);
    SeparatorsAt(t, sep);
    if k + 1 < |t| {
      EntryCount(t[k + 1..], sep);
      TokenThenRest(t, k, sep);
    } else if k < |t| {
      NothingLeft(t, k, sep);
    } else {
      WholeToken(t, sep);
    }
  }

  /** Without a separator the whole string is one token. */
  lemma {:induction false} WholeToken(t: Bytes, sep: u8)
    requires t != [] && SepIndex(t, sep) == |t|
    ensures !EndsWithSep(t, sep) && t[..|t|] == t
  {
    hide SepIndex;
    assert t[..|t|] == t && t[|t| - 1] in t;
  }

  lemma {:induction false} StringifiedJoin(x: Bytes, r: Bytes, sep: u8)
    requires Clean(x)
    ensures Stringified(x + [0] + r, sep) == if r == [] then x + [0] else x + [sep] + Stringified(r, sep)
  {
    var s := Stringified(x + [0] + r, sep);
    var e := if r == [] then x + [0] else x + [sep] + Stringified(r, sep);
    forall i | 0 <= i < |s|
      ensures s[i] == e[i]
    {
    }
  }

  /** Joining what was split gives back the string, without a separator at its end. */
  lemma {:induction false} JoinSplit(t: Bytes, sep: u8)
    requires t != [] && Clean(t)
    ensures Stringified(Flatten(Split(t, sep)), sep) ==
            (if EndsWithSep(t, sep) then t[..|t| - 1] else t) + [0]
    decreases |t|
  {
    hide SepIndex, Stringified, Split, Flatten, EndsWithSep, Clean;
    var k := SepIndex(t, sep);
    SplitStep(t, sep);
    CleanParts(t, k);
    if k + 1 < |t| {
      var u := t[k + 1..];
      CleanParts(t, k + 1);
      JoinSplit(u, sep);
      StringifiedJoin(t[..k], Flatten(Split(u, sep)), sep);
      SplitStep(u, sep);
      TokenThenRest(t, k, sep);
    } else if k < |t| {
      StringifiedJoin(t[..k], [], sep);
      NothingLeft(t, k, sep);
    } else {
      StringifiedJoin(t[..k], [], sep);
      WholeToken(t, sep);
      FlattenNone();
    }
  }

  lemma {:induction false} TokenThenRest(t: Bytes, k: nat, sep: u8)
    requires k + 1 < |t| && t[k] == sep
    ensures var u := t[k + 1..];
            && EndsWithSep(t, sep) == EndsWithSep(u, sep)
            && t[..k] + [sep] + (u + [0]) == t + [0]
            && t[..k] + [sep] + (u[..|u| - 1] + [0]) == t[..|t| - 1] + [0]
  {
    var u := t[k + 1..];
    assert t == t[..k] + [sep] + u;
  }

  lemma {:induction false} NothingLeft(t: Bytes, k: nat, sep: u8)
    requires k + 1 == |t| && t[k] == sep
    ensures EndsWithSep(t, sep) && Split(t[k + 1..], sep) == [] && Flatten([]) == []
    ensures Separators(t[k + 1..], sep) == 0
    ensures t[..k] + [0] == t[..|t| - 1] + [0]
  {
  }

  lemma {:induction false} FlattenNone()
    ensures Flatten([]) == []
  {
  }

  /** Splitting and joining is the identity exactly for strings that do not end with the separator. */
  lemma {:induction false} RoundTrip(t: Bytes, sep: u8)
    requires t != [] && Clean(t)
    ensures Stringified(Flatten(Split(t, sep)), sep) == t + [0] <==> !EndsWithSep(t, sep)
    ensures |Split(t, sep)| == Separators(t, sep) + 1 <==> !EndsWithSep(t, sep)
  {
    hide Stringified, Split, Flatten, Separators;
    JoinSplit(t, sep);
    EntryCount(t, sep);
    if EndsWithSep(t, sep) {
      assert |t[..|t| - 1] + [0]| != |t + [0]|;
    }
  }

  /** A lone comma splits into one empty entry, and joins to the empty string. */
  lemma {:induction false} TrailingSeparatorLost()
    ensures Split([44], 44) == [[]] && Stringified(Flatten([[]]), 44) == [0] != [44, 0]
  {
    assert Split([44], 44) == [[44][..0]] + Split([44][1..], 44);
    assert Flatten([[]]) == [] + [0] + Flatten([]);
  }
}
