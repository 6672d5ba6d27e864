/** Ordinal string operations of .NET's System.String used by both wrappers,
    and the separator-free concatenation that StringBuilder.Append performs. */
module Text {

  /** `m` occurs in `s` starting at index `i`. */
  predicate OccursAt(s: string, m: string, i: int) {
    0 <= i && i + |m| <= |s| && s[i..i + |m|] == m
  }

  /** String.Contains(m), ordinal comparison. */
  predicate Contains(s: string, m: string) {
    exists i | 0 <= i <= |s| - |m| :: OccursAt(s, m, i)
  }

  /** Searches for `m` from index `k` on: the first occurrence at or after `k`, or -1. */
  function IndexFrom(s: string, m: string, k: nat): (r: int)
    ensures r == -1 || (k <= r && OccursAt(s, m, r))
    ensures forall j :: k <= j && (r == -1 || j < r) ==> !OccursAt(s, m, j)
    decreases |s| - k
  {
    if k + |m| > |s| then -1
    else if s[k..k + |m|] == m then k
    else IndexFrom(s, m, k + 1)
  }

  /** String.IndexOf(m): the index of the first occurrence of `m`, or -1 when there is none. */
  function IndexOf(s: string, m: string): (r: int)
    ensures r == -1 <==> !Contains(s, m)
    ensures r != -1 ==> OccursAt(s, m, r) && forall j :: 0 <= j < r ==> !OccursAt(s, m, j)
  {
    IndexFrom(s, m, 0)
  }

  /** String.Replace(m, ""): deletes the occurrences of `m` that a left-to-right,
      non-overlapping scan finds. (.NET rejects an empty `m`.) */
  function ReplaceAll(s: string, m: string): (r: string)
    requires m != ""
    ensures |r| <= |s|
    decreases |s|
  {
    if |s| < |m| then s
    else if s[..|m|] == m then ReplaceAll(s[|m|..], m)
    else [s[0]] + ReplaceAll(s[1..], m)
  }

  /** `s` is `m` repeated zero or more times. */
  predicate Repeats(s: string, m: string)
    requires m != ""
    decreases |s|
  {
    s == "" || (|m| <= |s| && s[..|m|] == m && Repeats(s[|m|..], m))
  }

  /** The text of a StringBuilder after appending each of `pieces` in order. */
  function Concat(pieces: seq<string>): string {
    if pieces == [] then "" else Concat(pieces[..|pieces| - 1]) + pieces[|pieces| - 1]
  }

  /** Occurrences in `s[1..]` are the occurrences in `s` shifted by one. */
  lemma OccursShift(s: string, m: string, j: int)
    requires |s| > 0 && 0 <= j
    ensures OccursAt(s[1..], m, j) <==> OccursAt(s, m, j + 1)
  {
    if j + |m| <= |s| - 1 {
      assert s[1..][j..j + |m|] == s[j + 1..j + 1 + |m|];
    }
  }

  /** Replace leaves a string without occurrences unchanged. */
  lemma {:induction false} ReplaceAllAbsent(s: string, m: string)
    requires m != "" && !Contains(s, m)
    ensures ReplaceAll(s, m) == s
    decreases |s|
  {
    if |s| >= |m| {
      assert !OccursAt(s, m, 0);
      forall j | 0 <= j <= |s[1..]| - |m|
        ensures !OccursAt(s[1..], m, j)
      {
        OccursShift(s, m, j);
      }
      ReplaceAllAbsent(s[1..], m);
    }
  }

  /** Where `m` does not start the string, Replace keeps the first character. */
  lemma ReplaceAllKeepsHead(s: string, m: string)
    requires m != "" && |s| > 0 && !OccursAt(s, m, 0)
    ensures ReplaceAll(s, m) == [s[0]] + ReplaceAll(s[1..], m)
  {
  }

  /** Replace keeps everything before the first occurrence, drops that occurrence and
      carries on with the rest. */
  lemma {:induction false} ReplaceAllAtFirst(s: string, m: string, i: nat)
    requires m != "" && OccursAt(s, m, i)
    requires forall j :: 0 <= j < i ==> !OccursAt(s, m, j)
    ensures ReplaceAll(s, m) == s[..i] + ReplaceAll(s[i + |m|..], m)
    decreases i
  {
    if i == 0 {
      ReplaceAllAtStart(s, m);
    } else {
      var t := s[1..];
      assert ReplaceAll(t, m) == t[..i - 1] + ReplaceAll(t[i - 1 + |m|..], m) by {
        FirstOccurrenceShifts(s, m, i);
        ReplaceAllAtFirst(t, m, i - 1);
      }
      assert !OccursAt(s, m, 0);
      ReplaceAllPrependStep(s, t, m, i);
    }
  }

  /** Putting back a head character that does not start `m` puts it back in front of
      what Replace returns for the rest. */
  lemma ReplaceAllPrependStep(s: string, t: string, m: string, i: nat)
    requires m != "" && 0 < i && i + |m| <= |s| && !OccursAt(s, m, 0) && t == s[1..]
    requires ReplaceAll(t, m) == t[..i - 1] + ReplaceAll(t[i - 1 + |m|..], m)
    ensures ReplaceAll(s, m) == s[..i] + ReplaceAll(s[i + |m|..], m)
  {
    PrependHead(s, t, i, |m|);
    ReplaceAllKeepsHead(s, m);
    Regroup(s, t, i, |m|, ReplaceAll(s, m), ReplaceAll(t, m), ReplaceAll(t[i - 1 + |m|..], m));
  }

  /** The head, then a prefix of the tail, then the rest, is a prefix of the whole, then
      the rest. */
  lemma Regroup(s: string, t: string, i: nat, n: nat, whole: string, tail: string, rest: string)
    requires 0 < i && i + n <= |s| && t == s[1..]
    requires whole == [s[0]] + tail && tail == t[..i - 1] + rest
    ensures whole == s[..i] + rest
  {
    PrependHead(s, t, i, n);
    assert [s[0]] + (t[..i - 1] + rest) == ([s[0]] + t[..i - 1]) + rest;
  }

  /** The first occurrence at `i > 0` in `s` is the first occurrence at `i - 1` in `s[1..]`. */
  lemma FirstOccurrenceShifts(s: string, m: string, i: nat)
    requires 0 < i && OccursAt(s, m, i)
    requires forall j :: 0 <= j < i ==> !OccursAt(s, m, j)
    ensures OccursAt(s[1..], m, i - 1) && !OccursAt(s, m, 0)
    ensures forall j :: 0 <= j < i - 1 ==> !OccursAt(s[1..], m, j)
  {
    OccursShift(s, m, i - 1);
    forall j | 0 <= j < i - 1
      ensures !OccursAt(s[1..], m, j)
    {
      OccursShift(s, m, j);
    }
  }

  /** Where `m` starts the string, Replace drops it. */
  lemma ReplaceAllAtStart(s: string, m: string)
    requires m != "" && OccursAt(s, m, 0)
    ensures ReplaceAll(s, m) == s[..0] + ReplaceAll(s[|m|..], m)
  {
    assert s[..|m|] == m;
  }

  /** Slicing `s[1..]` and putting the head back gives the slices of `s`. */
  lemma PrependHead(s: string, t: string, i: nat, n: nat)
    requires 0 < i && i + n <= |s| && t == s[1..]
    ensures [s[0]] + t[..i - 1] == s[..i] && t[i - 1 + n..] == s[i + n..]
  {
  }

  /** Every occurrence Replace deletes shortens the string by |m|: a string that contains
      `m` loses at least |m| characters. */
  lemma {:induction false} ReplaceAllShrinks(s: string, m: string)
    requires m != "" && Contains(s, m)
    ensures |ReplaceAll(s, m)| <= |s| - |m|
  {
    var i := IndexOf(s, m);
    ReplaceAllAtFirst(s, m, i);
  }

  /** Replace yields the empty string exactly when the input is nothing but copies of `m`. */
  lemma {:induction false} ReplaceAllEmpty(s: string, m: string)
    requires m != ""
    ensures ReplaceAll(s, m) == "" <==> Repeats(s, m)
    decreases |s|
  {
    if |s| >= |m| && s[..|m|] == m {
      ReplaceAllEmpty(s[|m|..], m);
    }
  }

  /** An occurrence in a prefix is an occurrence in the whole string. */
  lemma OccursInPrefix(s: string, m: string, n: nat, j: int)
    requires n <= |s| && OccursAt(s[..n], m, j)
    ensures OccursAt(s, m, j)
  {
    assert s[..n][j..j + |m|] == s[j..j + |m|];
  }

  /** Appending one piece more extends the concatenation by exactly that piece. */
  lemma ConcatSnoc(pieces: seq<string>, p: string)
    ensures Concat(pieces + [p]) == Concat(pieces) + p
  {
    assert (pieces + [p])[..|pieces|] == pieces;
  }

  /** Two StringBuilder sessions back to back give the two texts back to back: the join
      does not depend on where the pieces are split. */
  lemma {:induction false} ConcatAppend(a: seq<string>, b: seq<string>)
    ensures Concat(a + b) == Concat(a) + Concat(b)
    decreases |b|
  {
    if b == [] {
      assert a + b == a;
    } else {
      var n := |b| - 1;
      assert a + b == (a + b[..n]) + [b[n]];
      ConcatSnoc(a + b[..n], b[n]);
      ConcatAppend(a, b[..n]);
      ConcatSnoc(b[..n], b[n]);
      assert b[..n] + [b[n]] == b;
    }
  }
}
