/** The Python `str` operations the converter relies on, as functions on
    `seq<char>`: find, split, join, startswith/endswith, strip, lstrip,
    slicing from an index and decimal rendering of a number. */
module Strings {
  import opened Wrappers

  /** `d` occurs in `s` starting at index `i`. */
  predicate OccursAt(s: string, d: string, i: int)
  {
    0 <= i && i + |d| <= |s| && s[i..i + |d|] == d
  }

  /** `d` occurs nowhere in `s`. */
  predicate Free(s: string, d: string)
  {
    forall k :: 0 <= k <= |s| ==> !OccursAt(s, d, k)
  }

  /** Index of the leftmost occurrence of `d` in `s` (`str.find`, with
      "not found" as None). */
  function Find(s: string, d: string): (r: Option<nat>)
    ensures r.Some? ==> OccursAt(s, d, r.value)
    ensures r.Some? ==> forall k :: 0 <= k < r.value ==> !OccursAt(s, d, k)
    ensures r.None? <==> Free(s, d)
    decreases |s|
  {
    if |s| < |d| then None
    else if s[..|d|] == d then Some(0)
    else
      var rest := Find(s[1..], d);
      FreeShift(s, d);
      assert !OccursAt(s, d, 0);
      match rest
      case None =>
        assert forall k :: !OccursAt(s, d, k) by {
          forall k ensures !OccursAt(s, d, k) {
            if k > 0 { assert !OccursAt(s[1..], d, k - 1); }
          }
        }
        None
      case Some(i) =>
        assert forall k :: 0 <= k < i + 1 ==> !OccursAt(s, d, k) by {
          forall k | 0 < k < i + 1 ensures !OccursAt(s, d, k) {
            assert !OccursAt(s[1..], d, k - 1);
          }
        }
        Some(i + 1)
  }

  /** `s.split(d)` for a non-empty separator: the pieces between the
      leftmost non-overlapping occurrences of `d`. */
  function Split(s: string, d: string): (r: seq<string>)
    requires |d| > 0
    ensures |r| >= 1
    decreases |s|
  {
    match Find(s, d)
    case None => [s]
    case Some(i) => [s[..i]] + Split(s[i + |d|..], d)
  }

  /** `s.split(d, 1)` unpacked into two parts; None when `d` does not occur
      (the unpacking in Python then raises). */
  function SplitOnce(s: string, d: string): (r: Option<(string, string)>)
    ensures r.None? <==> Free(s, d)
    ensures r.Some? ==> s == r.value.0 + d + r.value.1
    ensures r.Some? ==> forall k :: 0 <= k < |r.value.0| ==> !OccursAt(s, d, k)
  {
    match Find(s, d)
    case None => None
    case Some(i) =>
      assert s == s[..i] + s[i..i + |d|] + s[i + |d|..];
      Some((s[..i], s[i + |d|..]))
  }

  /** `sep.join(parts)`. */
  function Join(parts: seq<string>, sep: string): string
    decreases |parts|
  {
    if |parts| == 0 then ""
    else if |parts| == 1 then parts[0]
    else parts[0] + sep + Join(parts[1..], sep)
  }

  /** `"".join(parts)`. */
  function Concat(parts: seq<string>): string
    decreases |parts|
  {
    if parts == [] then "" else parts[0] + Concat(parts[1..])
  }

  /** `s` with every occurrence of `d` deleted, scanning left to right: an
      independent description of what splitting on `d` throws away. */
  function RemoveAll(s: string, d: string): string
    requires |d| > 0
    decreases |s|
  {
    if |s| < |d| then s
    else if s[..|d|] == d then RemoveAll(s[|d|..], d)
    else [s[0]] + RemoveAll(s[1..], d)
  }

  predicate StartsWith(s: string, p: string)
  {
    |p| <= |s| && s[..|p|] == p
  }

  predicate EndsWith(s: string, p: string)
  {
    |p| <= |s| && s[|s| - |p|..] == p
  }

  /** The ASCII characters `str.strip()` removes: space, tab, newline,
      vertical tab, form feed, carriage return and the separators 0x1C-0x1F. */
  predicate IsSpace(c: char)
  {
    c == ' ' || 9 <= c as int <= 13 || 28 <= c as int <= 31
  }

  function LStrip(s: string): (r: string)
    ensures r == [] || !IsSpace(r[0])
    decreases |s|
  {
    if s != [] && IsSpace(s[0]) then LStrip(s[1..]) else s
  }

  function RStrip(s: string): (r: string)
    ensures r == [] || !IsSpace(r[|r| - 1])
    decreases |s|
  {
    if s != [] && IsSpace(s[|s| - 1]) then RStrip(s[..|s| - 1]) else s
  }

  /** `s.strip()`. */
  function Strip(s: string): string
  {
    RStrip(LStrip(s))
  }

  /** `s.lstrip(c)` for a one-character argument: all leading `c` removed. */
  function LStripChar(s: string, c: char): (r: string)
    ensures r == [] || r[0] != c
    decreases |s|
  {
    if s != [] && s[0] == c then LStripChar(s[1..], c) else s
  }

  /** `s[n:]` for a non-negative `n`. */
  function Drop(s: string, n: nat): string
  {
    if n <= |s| then s[n..] else ""
  }

  /** `s.splitlines()`, for text whose only line break is "\n": the pieces of
      the split on "\n", without the empty piece after a final newline. */
  function SplitLines(s: string): seq<string>
  {
    var pieces := Split(s, "\n");
    if pieces[|pieces| - 1] == "" then pieces[..|pieces| - 1] else pieces
  }

  function Digit(n: nat): char
    requires n < 10
  {
    "0123456789"[n]
  }

  /** `str(n)` for a natural number. */
  function NatToString(n: nat): (r: string)
    ensures |r| >= 1
    ensures n < 10 <==> |r| == 1
    decreases n
  {
    if n < 10 then [Digit(n)] else NatToString(n / 10) + [Digit(n % 10)]
  }

  // ---------------------------------------------------------------------
  // Properties of the operations above

  lemma FreeShift(s: string, d: string)
    requires s != []
    ensures forall k :: 0 <= k ==> (OccursAt(s, d, k + 1) <==> OccursAt(s[1..], d, k))
  {
    forall k | 0 <= k ensures OccursAt(s, d, k + 1) <==> OccursAt(s[1..], d, k) {
      if k + 1 + |d| <= |s| {
        var a, b := s[k + 1..k + 1 + |d|], s[1..][k..k + |d|];
        assert forall j :: 0 <= j < |d| ==> a[j] == b[j];
        assert a == b;
      }
    }
  }

  /** Joining the pieces of a split with the separator gives back the text. */
  lemma {:induction false} SplitJoin(s: string, d: string)
    requires |d| > 0
    ensures Join(Split(s, d), d) == s
    decreases |s|
  {
    match Find(s, d)
    case None =>
    case Some(i) =>
      var rest := Split(s[i + |d|..], d);
      SplitJoin(s[i + |d|..], d);
      assert Split(s, d) == [s[..i]] + rest;
      assert ([s[..i]] + rest)[1..] == rest;
      assert s == s[..i] + s[i..i + |d|] + s[i + |d|..];
  }

  /** No piece of a split contains the separator. */
  lemma {:induction false} SplitPiecesFree(s: string, d: string)
    requires |d| > 0
    ensures forall k :: 0 <= k < |Split(s, d)| ==> Free(Split(s, d)[k], d)
    decreases |s|
  {
    match Find(s, d)
    case None =>
    case Some(i) =>
      var rest := Split(s[i + |d|..], d);
      SplitPiecesFree(s[i + |d|..], d);
      assert Split(s, d) == [s[..i]] + rest;
      forall k ensures !OccursAt(s[..i], d, k) {
        if OccursAt(s[..i], d, k) {
          assert s[..i][k..k + |d|] == s[k..k + |d|];
          assert OccursAt(s, d, k);
        }
      }
  }

  /** Concat distributes over concatenation of the parts. */
  lemma {:induction false} ConcatSnoc(parts: seq<string>, x: string)
    ensures Concat(parts + [x]) == Concat(parts) + x
    decreases |parts|
  {
    if parts == [] {
      assert [] + [x] == [x];
    } else {
      assert (parts + [x])[1..] == parts[1..] + [x];
      ConcatSnoc(parts[1..], x);
    }
  }

  lemma {:induction false} ConcatAppend(a: seq<string>, b: seq<string>)
    ensures Concat(a + b) == Concat(a) + Concat(b)
    decreases |a|
  {
    if a == [] {
      assert [] + b == b;
    } else {
      assert (a + b)[1..] == a[1..] + b;
      ConcatAppend(a[1..], b);
    }
  }

  /** Deleting from a prefix that holds no occurrence keeps that prefix. */
  lemma {:induction false} RemoveAllPrefix(s: string, d: string, i: nat)
    requires |d| > 0 && i <= |s|
    requires forall k :: 0 <= k < i ==> !OccursAt(s, d, k)
    ensures RemoveAll(s, d) == s[..i] + RemoveAll(s[i..], d)
    decreases i
  {
    if i == 0 {
      assert s[0..] == s;
    } else if |s| < |d| {
      assert RemoveAll(s[i..], d) == s[i..];
      assert s[..i] + s[i..] == s;
    } else {
      assert !OccursAt(s, d, 0);
      assert s[0..|d|] == s[..|d|];
      FreeShift(s, d);
      RemoveAllPrefix(s[1..], d, i - 1);
      assert s[1..][..i - 1] == s[1..i];
      assert s[1..][i - 1..] == s[i..];
      var tail := RemoveAll(s[i..], d);
      assert RemoveAll(s, d) == [s[0]] + RemoveAll(s[1..], d);
      assert RemoveAll(s[1..], d) == s[1..i] + tail;
      assert [s[0]] + (s[1..i] + tail) == ([s[0]] + s[1..i]) + tail;
      assert [s[0]] + s[1..i] == s[..i];
    }
  }

  /** Concatenating the pieces of a split deletes every separator: the split
      models literal deletion, not pattern matching. */
  lemma {:induction false} ConcatSplit(s: string, d: string)
    requires |d| > 0
    ensures Concat(Split(s, d)) == RemoveAll(s, d)
    decreases |s|
  {
    match Find(s, d)
    case None =>
      RemoveAllPrefix(s, d, |s|);
      assert s[..|s|] == s;
      assert s[|s|..] == "";
    case Some(i) =>
      var rest := Split(s[i + |d|..], d);
      ConcatSplit(s[i + |d|..], d);
      assert Split(s, d) == [s[..i]] + rest;
      assert ([s[..i]] + rest)[1..] == rest;
      RemoveAllPrefix(s, d, i);
      var t := s[i..];
      assert t[..|d|] == d;
      assert t[|d|..] == s[i + |d|..];
  }

  /** Two adjacent occurrences are an occurrence of the concatenation. */
  lemma OccursConcat(s: string, a: string, b: string, i: nat)
    requires OccursAt(s, a, i) && OccursAt(s, b, i + |a|)
    ensures OccursAt(s, a + b, i)
  {
    assert s[i..i + |a| + |b|] == s[i..i + |a|] + s[i + |a|..i + |a| + |b|];
  }

  /** Adjacent slices concatenate. */
  lemma SliceSplit(s: string, i: nat, j: nat, k: nat)
    requires i <= j <= k <= |s|
    ensures s[i..k] == s[i..j] + s[j..k]
  {
  }

  /** When the separator occurs at index `o`, splitting once succeeds, cuts
      at or before `o`, and the text is `before + d + after`. */
  lemma SplitOnceAt(s: string, d: string, o: int)
    requires OccursAt(s, d, o)
    ensures SplitOnce(s, d).Some?
    ensures var (before, after) := SplitOnce(s, d).value;
            s == before + d + after && |before| <= o
  {
    var i := Find(s, d).value;
    assert s == s[..i] + s[i..i + |d|] + s[i + |d|..];
  }

  /** Stripping twice strips nothing more. */
  lemma StripIdempotent(s: string)
    ensures Strip(Strip(s)) == Strip(s)
  {
    var t := Strip(s);
    LStripHeadNotSpace(LStrip(s));
    if t != [] {
      assert LStrip(t) == t;
    }
  }

  lemma {:induction false} LStripHeadNotSpace(s: string)
    requires s == [] || !IsSpace(s[0])
    ensures RStrip(s) == [] || !IsSpace(RStrip(s)[0])
    decreases |s|
  {
    if s != [] && IsSpace(s[|s| - 1]) {
      var init := s[..|s| - 1];
      if init != [] { assert init[0] == s[0]; }
      LStripHeadNotSpace(init);
    }
  }

  /** Stripping cannot create an occurrence. */
  lemma {:induction false} StripKeepsFree(s: string, d: string)
    requires Free(s, d)
    ensures Free(Strip(s), d)
  {
    LStripKeepsFree(s, d);
    RStripKeepsFree(LStrip(s), d);
  }

  lemma {:induction false} LStripKeepsFree(s: string, d: string)
    requires Free(s, d)
    ensures Free(LStrip(s), d)
    decreases |s|
  {
    if s != [] && IsSpace(s[0]) {
      FreeShift(s, d);
      assert forall k :: !OccursAt(s[1..], d, k) by {
        forall k ensures !OccursAt(s[1..], d, k) {
          if k >= 0 { assert !OccursAt(s, d, k + 1); }
        }
      }
      LStripKeepsFree(s[1..], d);
    }
  }

  lemma {:induction false} RStripKeepsFree(s: string, d: string)
    requires Free(s, d)
    ensures Free(RStrip(s), d)
    decreases |s|
  {
    if s != [] && IsSpace(s[|s| - 1]) {
      var init := s[..|s| - 1];
      forall k | 0 <= k <= |init| ensures !OccursAt(init, d, k) {
        assert !OccursAt(s, d, k);
        if k + |d| <= |init| {
          assert init[k..k + |d|] == s[k..k + |d|];
        }
      }
      RStripKeepsFree(init, d);
    }
  }

  /** An occurrence with none before it is what `find` returns. */
  lemma FindIs(s: string, d: string, i: nat)
    requires OccursAt(s, d, i)
    requires forall k :: 0 <= k < i ==> !OccursAt(s, d, k)
    ensures Find(s, d) == Some(i)
  {
  }

  /** No occurrence of `d` in `x + d` starts inside `x`: the separator
      after `x` is the first one found. */
  predicate Separated(x: string, d: string)
  {
    forall k :: 0 <= k < |x| ==> !OccursAt(x + d, d, k)
  }

  lemma SeparatedFree(x: string, d: string)
    requires |d| > 0 && Separated(x, d)
    ensures Free(x, d)
  {
    forall k | 0 <= k <= |x| ensures !OccursAt(x, d, k) {
      if k + |d| <= |x| {
        assert (x + d)[k..k + |d|] == x[k..k + |d|];
        assert !OccursAt(x + d, d, k);
      }
    }
  }

  /** A separated piece followed by the separator: the first occurrence
      is the one right after the piece. */
  lemma SeparatedFirst(x: string, d: string, rest: string)
    requires |d| > 0 && Separated(x, d)
    ensures Find(x + d + rest, d) == Some(|x|)
  {
    var s := x + d + rest;
    forall k | 0 <= k < |x| ensures !OccursAt(s, d, k) {
      assert !OccursAt(x + d, d, k);
      if k + |d| <= |s| {
        assert s[k..k + |d|] == (x + d)[k..k + |d|];
      }
    }
    assert s[|x|..|x| + |d|] == d;
    FindIs(s, d, |x|);
  }

  lemma SplitAfterSeparated(x: string, d: string, rest: string)
    requires |d| > 0 && Separated(x, d)
    ensures Split(x + d + rest, d) == [x] + Split(rest, d)
  {
    var s := x + d + rest;
    SeparatedFirst(x, d, rest);
    assert s[..|x|] == x;
    assert s[|x| + |d|..] == rest;
  }

  /** Splitting a join gives the pieces back, when no separator
      occurrence starts inside a piece. */
  lemma {:induction false} SplitOfJoin(xs: seq<string>, d: string)
    requires |d| > 0 && |xs| >= 1
    requires forall i :: 0 <= i < |xs| ==> Separated(xs[i], d)
    ensures Split(Join(xs, d), d) == xs
    decreases |xs|
  {
    var x := xs[0];
    if |xs| == 1 {
      SeparatedFree(x, d);
      assert Split(x, d) == [x];
    } else {
      var rest := Join(xs[1..], d);
      assert Join(xs, d) == x + d + rest;
      SplitAfterSeparated(x, d, rest);
      SplitOfJoin(xs[1..], d);
      assert xs == [x] + xs[1..];
    }
  }

  /** Every piece of a split on a one-character separator is free of that
      character. */
  lemma SplitCharFree(s: string, c: char)
    ensures forall k :: 0 <= k < |Split(s, [c])| ==> c !in Split(s, [c])[k]
  {
    SplitPiecesFree(s, [c]);
    forall k | 0 <= k < |Split(s, [c])| ensures c !in Split(s, [c])[k] {
      var piece := Split(s, [c])[k];
      forall j | 0 <= j < |piece| ensures piece[j] != c {
        assert !OccursAt(piece, [c], j);
        assert piece[j..j + 1] == [piece[j]];
      }
    }
  }

  /** Joining pieces that lack a character, with a separator that lacks
      it, gives a string that lacks it. */
  lemma {:induction false} JoinLacks(parts: seq<string>, sep: string, c: char)
    requires c !in sep
    requires forall i :: 0 <= i < |parts| ==> c !in parts[i]
    ensures c !in Join(parts, sep)
    decreases |parts|
  {
    if |parts| > 1 {
      JoinLacks(parts[1..], sep, c);
    }
  }

  /** `t` appears in `s` as a contiguous slice. */
  predicate Infix(t: string, s: string)
  {
    exists i :: 0 <= i <= |s| && OccursAt(s, t, i)
  }

  lemma InfixTrans(u: string, t: string, s: string, i: nat, j: nat)
    requires OccursAt(s, t, i) && OccursAt(t, u, j)
    ensures OccursAt(s, u, i + j)
  {
    forall m | 0 <= m < |u| ensures s[i + j + m] == u[m] {
      assert s[i..i + |t|][j + m] == t[j + m];
      assert t[j..j + |u|][m] == u[m];
    }
    assert s[i + j..i + j + |u|] == u;
  }

  lemma {:induction false} LStripSuffix(s: string)
    ensures OccursAt(s, LStrip(s), |s| - |LStrip(s)|)
    decreases |s|
  {
    if s != [] && IsSpace(s[0]) {
      LStripSuffix(s[1..]);
      InfixTrans(LStrip(s), s[1..], s, 1, |s| - 1 - |LStrip(s)|);
    } else {
      assert s[0..|s|] == s;
    }
  }

  lemma {:induction false} RStripPrefix(s: string)
    ensures OccursAt(s, RStrip(s), 0)
    decreases |s|
  {
    if s != [] && IsSpace(s[|s| - 1]) {
      RStripPrefix(s[..|s| - 1]);
      InfixTrans(RStrip(s), s[..|s| - 1], s, 0, 0);
    } else {
      assert s[0..|s|] == s;
    }
  }

  /** `s.strip()` is a slice of `s`, found at offset `o`. */
  lemma StripAt(s: string) returns (o: nat)
    ensures OccursAt(s, Strip(s), o)
  {
    LStripSuffix(s);
    RStripPrefix(LStrip(s));
    InfixTrans(Strip(s), LStrip(s), s, |s| - |LStrip(s)|, 0);
    o := |s| - |LStrip(s)|;
  }

  lemma OccursInTail(s: string, c: nat, t: string, j: nat)
    requires c <= |s| && OccursAt(s[c..], t, j)
    ensures OccursAt(s, t, c + j)
  {
    assert s[c..][j..j + |t|] == s[c + j..c + j + |t|];
  }

  /** The first piece of a split is a prefix of the split string. */
  lemma SplitFirst(s: string, d: string)
    requires |d| > 0
    ensures StartsWith(s, Split(s, d)[0])
  {
    match Find(s, d)
    case None =>
      assert s[..|s|] == s;
    case Some(i) =>
      assert Split(s, d)[0] == s[..i];
  }

  /** Every piece of a split is a slice of the split string, found at
      offset `o`. */
  lemma {:induction false} SplitPieceAt(s: string, d: string, k: nat) returns (o: nat)
    requires |d| > 0 && k < |Split(s, d)|
    ensures OccursAt(s, Split(s, d)[k], o)
    decreases |s|
  {
    if Find(s, d).None? {
      o := 0;
      assert s[0..|s|] == s;
    } else if k == 0 {
      o := 0;
    } else {
      var i := SplitTail(s, d, k);
      var j := SplitPieceAt(s[i + |d|..], d, k - 1);
      OccursInTail(s, i + |d|, Split(s, d)[k], j);
      o := i + |d| + j;
    }
  }

  /** A later piece of a split is a piece of the split of what follows the
      first separator, found at `i`. */
  lemma SplitTail(s: string, d: string, k: nat) returns (i: nat)
    requires |d| > 0 && Find(s, d).Some? && 0 < k < |Split(s, d)|
    ensures i + |d| <= |s| && |s[i + |d|..]| < |s|
    ensures k - 1 < |Split(s[i + |d|..], d)|
    ensures Split(s, d)[k] == Split(s[i + |d|..], d)[k - 1]
  {
    i := Find(s, d).value;
  }

  /** `s.lstrip(c)` removes a run of `c` and keeps the rest. */
  lemma {:induction false} LStripCharParts(s: string, c: char)
    ensures |LStripChar(s, c)| <= |s|
    ensures s == seq(|s| - |LStripChar(s, c)|, _ => c) + LStripChar(s, c)
    decreases |s|
  {
    if s != [] && s[0] == c {
      LStripCharParts(s[1..], c);
      var r := LStripChar(s, c);
      assert s == [c] + s[1..];
      assert seq(|s| - |r|, _ => c) == [c] + seq(|s| - 1 - |r|, _ => c);
    } else {
      assert seq(0, _ => c) == [];
    }
  }

  /** A slice of a string that lacks a character lacks it too. */
  lemma LacksSlice(s: string, t: string, o: int, c: char)
    requires OccursAt(s, t, o) && c !in s
    ensures c !in t
  {
    forall j | 0 <= j < |t| ensures t[j] != c {
      assert t[j] == s[o..o + |t|][j] == s[o + j];
    }
  }

  /** `str(n)` is made of decimal digits. */
  lemma {:induction false} NatToStringDigits(n: nat)
    ensures forall j :: 0 <= j < |NatToString(n)| ==> '0' <= NatToString(n)[j] <= '9'
    decreases n
  {
    if n >= 10 {
      NatToStringDigits(n / 10);
    }
  }

  /** A piece without newlines stays whole when joined with "\n". */
  lemma NewlineSeparated(x: string)
    requires '\n' !in x
    ensures Separated(x, "\n")
  {
    forall k | 0 <= k < |x| ensures !OccursAt(x + "\n", "\n", k) {
      assert (x + "\n")[k..k + 1][0] == x[k];
    }
  }

  /** Splitting newline-free lines joined with "\n" gives the lines back. */
  lemma LinesOfJoin(xs: seq<string>)
    requires |xs| >= 1
    requires forall i :: 0 <= i < |xs| ==> '\n' !in xs[i]
    ensures Split(Join(xs, "\n"), "\n") == xs
  {
    forall i | 0 <= i < |xs| ensures Separated(xs[i], "\n") {
      NewlineSeparated(xs[i]);
    }
    SplitOfJoin(xs, "\n");
  }

  /** Text ending in a non-space character keeps that character, and so
      stays non-empty, under `strip`. */
  lemma {:induction false} StripKeepsLast(s: string)
    requires s != [] && !IsSpace(s[|s| - 1])
    ensures Strip(s) != [] && Strip(s)[|Strip(s)| - 1] == s[|s| - 1]
    decreases |s|
  {
    if IsSpace(s[0]) {
      StripKeepsLast(s[1..]);
    }
  }

  /** Text that starts and ends with a non-space character is its own strip. */
  lemma StripNoSpaceEnds(s: string)
    requires s != [] && !IsSpace(s[0]) && !IsSpace(s[|s| - 1])
    ensures Strip(s) == s
  {
  }

  /** A non-empty string split once on itself leaves nothing on either side. */
  lemma SplitOnceSelf(s: string)
    requires s != []
    ensures SplitOnce(s, s) == Some(([], []))
  {
    assert s[..|s|] == s;
    assert Find(s, s) == Some(0);
  }
}
