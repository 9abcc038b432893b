/** What inserting and deleting mean: the back-scan to the start of an entry, and the entries afterwards. */
module ArgzEdit {
  import opened Memory
  import opened Argz

  /** The start of the entry that holds position `i`: back to just after the previous terminator. */
  function EntryStart(b: Bytes, i: nat): (p: nat)
    requires i < |b|
    ensures p <= i
  {
    if i == 0 || b[i - 1] == 0 then i else EntryStart(b, i - 1)
  }

  /** Between the start and the position there is no terminator, and in front of the start there is one, if anything. */
  lemma {:induction false} StartIs(b: Bytes, i: nat)
    requires i < |b|
    ensures EntryStart(b, i) == 0 || b[EntryStart(b, i) - 1] == 0
    ensures 0 !in b[EntryStart(b, i)..i]
  {
    if i > 0 && b[i - 1] != 0 {
      StartIs(b, i - 1);
      var p := EntryStart(b, i);
      assert b[p..i] == b[p..i - 1] + [b[i - 1]];
    }
  }

  /** The number of the entry that holds position `i` of the buffer. */
  function EntryOf(es: seq<Bytes>, i: nat): (k: nat)
    requires i < |Flatten(es)|
    ensures k < |es|
    decreases |es|
  {
    if i <= |es[0]| then 0 else 1 + EntryOf(es[1..], i - |es[0]| - 1)
  }

  lemma {:induction false} EntryStartIn(x: Bytes, rest: Bytes, i: nat)
    requires Clean(x) && i <= |x|
    ensures EntryStart(x + [0] + rest, i) == 0
    decreases i
  {
    if i > 0 {
      assert (x + [0] + rest)[i - 1] == x[i - 1];
      EntryStartIn(x, rest, i - 1);
    }
  }

  lemma {:induction false} EntryStartAfter(x: Bytes, rest: Bytes, i: nat)
    requires |x| < i < |x + [0] + rest|
    ensures EntryStart(x + [0] + rest, i) == |x| + 1 + EntryStart(rest, i - |x| - 1)
    decreases i
  {
    var b := x + [0] + rest;
    if i > |x| + 1 {
      assert b[i - 1] == rest[i - |x| - 2];
      if b[i - 1] != 0 {
        EntryStartAfter(x, rest, i - 1);
      }
    } else {
      assert b[|x|] == 0;
    }
  }

  /** The back-scan ends at the boundary in front of that entry. */
  lemma {:induction false} EntryBoundary(es: seq<Bytes>, i: nat)
    requires AllClean(es) && i < |Flatten(es)|
    ensures var b, k := Flatten(es), EntryOf(es, i);
            var p := EntryStart(b, i);
            b[..p] == Flatten(es[..k]) && b[p..] == Flatten(es[k..]) && p <= i < p + |es[k]| + 1
    decreases |es|
  {
    hide EntryStart, Clean, Flatten;
    assert EntryOf(es, i) < |es|;
    var rest, x := Flatten(es[1..]), es[0];
    FlattenHead(es);
    if i <= |x| {
      EntryStartIn(x, rest, i);
      WholeBoundary(es);
    } else {
      EntryBoundary(es[1..], i - |x| - 1);
      EntryStartAfter(x, rest, i);
      ShiftBoundary(es, EntryOf(es[1..], i - |x| - 1), EntryStart(rest, i - |x| - 1));
    }
  }

  lemma {:induction false} FlattenHead(es: seq<Bytes>)
    requires es != []
    ensures Flatten(es) == es[0] + [0] + Flatten(es[1..])
  {
  }

  lemma {:induction false} WholeBoundary(es: seq<Bytes>)
    ensures Flatten(es)[..0] == Flatten(es[..0]) && Flatten(es)[0..] == Flatten(es[0..])
  {
    assert es[..0] == [] && es[0..] == es;
  }

  lemma {:induction false} ShiftBoundary(es: seq<Bytes>, k: nat, p: nat)
    requires es != [] && k < |es| - 1 && p <= |Flatten(es[1..])|
    requires Flatten(es[1..])[..p] == Flatten(es[1..][..k]) && Flatten(es[1..])[p..] == Flatten(es[1..][k..])
    ensures var b, q := Flatten(es), |es[0]| + 1 + p;
            b[..q] == Flatten(es[..k + 1]) && b[q..] == Flatten(es[k + 1..])
  {
    var x, rest := es[0], Flatten(es[1..]);
    var b, q := Flatten(es), |es[0]| + 1 + p;
    assert b == x + [0] + rest;
    assert es[..k + 1][0] == x && es[..k + 1][1..] == es[1..][..k];
    assert es[k + 1..] == es[1..][k..];
    assert b[..q] == x + [0] + rest[..p];
    assert b[q..] == rest[p..];
  }

  /** The buffer after a string is inserted in front of the entry that holds position `i`. */
  function Inserted(b: Bytes, i: nat, entry: Bytes): Bytes
    requires i < |b|
  {
    var p := EntryStart(b, i);
    b[..p] + entry + [0] + b[p..]
  }

  /** The buffer without the string that starts at `p`. */
  function Deleted(b: Bytes, p: nat): Bytes
    requires p < |b| && WellFormed(b)
  {
    var n := StrLen(b[p..]);
    assert b[|b| - 1] in b[p..];
    b[..p] + b[p + n + 1..]
  }

  /** The new entry stands immediately before the entry that holds the position, and all others stay. */
  lemma {:induction false} InsertedEntries(es: seq<Bytes>, i: nat, entry: Bytes)
    requires AllClean(es) && Clean(entry) && i < |Flatten(es)|
    ensures var k := EntryOf(es, i);
            Inserted(Flatten(es), i, entry) == Flatten(es[..k] + [entry] + es[k..])
    ensures AllClean(es[..EntryOf(es, i)] + [entry] + es[EntryOf(es, i)..])
  {
    hide EntryStart, EntryOf;
    var k := EntryOf(es, i);
    EntryBoundary(es, i);
    FlattenAppend(es[..k], [entry]);
    FlattenAppend(es[..k] + [entry], es[k..]);
    assert Flatten([entry]) == entry + [0] + Flatten([entry][1..]);
  }

  /** Deleting at the start of entry `k` removes that entry and no other. */
  lemma {:induction false} DeletedEntries(es: seq<Bytes>, k: nat)
    requires AllClean(es) && k < |es|
    ensures |Flatten(es[..k])| < |Flatten(es)| && WellFormed(Flatten(es))
    ensures Deleted(Flatten(es), |Flatten(es[..k])|) == Flatten(es[..k] + es[k + 1..])
  {
    hide StrLen, WellFormed, Flatten, Deleted, AllClean;
    assert es == es[..k] + es[k..];
    assert es[k..][1..] == es[k + 1..];
    FlattenAppend(es[..k], es[k..]);
    FlattenAppend(es[..k], es[k + 1..]);
    FlattenHead(es[k..]);
    EntriesFlatten(es);
    CleanAt(es, k);
    DeletedString(Flatten(es[..k]), es[k], Flatten(es[k + 1..]));
  }

  lemma {:induction false} CleanAt(es: seq<Bytes>, k: nat)
    requires AllClean(es) && k < |es|
    ensures Clean(es[k])
  {
  }

  lemma {:induction false} DeletedString(a: Bytes, x: Bytes, rest: Bytes)
    requires Clean(x) && WellFormed(a + (x + [0] + rest))
    ensures Deleted(a + (x + [0] + rest), |a|) == a + rest
  {
    hide StrLen;
    var b := a + (x + [0] + rest);
    assert b[|a|..] == x + [0] + rest;
    StrLenOf(x, rest);
  }

  /** Deleting the inserted entry gives back the original buffer. */
  lemma {:induction false} DeleteUndoesInsert(b: Bytes, i: nat, entry: Bytes)
    requires WellFormed(b) && i < |b| && Clean(entry)
    ensures WellFormed(Inserted(b, i, entry)) && EntryStart(b, i) < |Inserted(b, i, entry)|
    ensures Deleted(Inserted(b, i, entry), EntryStart(b, i)) == b
  {
    hide StrLen, EntryStart, Clean;
    var p, c := EntryStart(b, i), Inserted(b, i, entry);
    assert c[p..] == entry + [0] + b[p..];
    StrLenOf(entry, b[p..]);
    assert c[p + |entry| + 1..] == b[p..] && c[..p] == b[..p];
  }
}
