/** An Option type used by the string and parser modules. */
module Wrappers {
  datatype Option<T> = None | Some(value: T)
}

/**
 * The part of Go's `strings` package that the INFO parser relies on:
 * `HasPrefix`, `Index` and `Split` with a non-empty separator, and `Join`
 * as the inverse of `Split`.
 */
module GoStrings {
  import opened Wrappers

  /** `sep` occurs in `s` starting at position `i`. */
  predicate OccursAt(s: string, sep: string, i: nat) {
    i + |sep| <= |s| && s[i..i + |sep|] == sep
  }

  /** `sep` occurs somewhere in `s` (Go's `strings.Contains`). */
  ghost predicate Contains(s: string, sep: string) {
    exists i: nat :: OccursAt(s, sep, i)
  }

  /** Go's `strings.HasPrefix`. */
  predicate HasPrefix(s: string, prefix: string) {
    |prefix| <= |s| && s[..|prefix|] == prefix
  }

  /** Number of occurrences of the character `c` in `s`. */
  function Count(s: string, c: char): nat {
    if s == [] then 0 else (if s[0] == c then 1 else 0) + Count(s[1..], c)
  }

  /**
   * A separator is border-free when no proper suffix of it is also a
   * prefix, so two of its occurrences can never overlap. Every
   * one-character separator is border-free, and so is "\r\n".
   */
  predicate BorderFree(sep: string) {
    forall d :: 0 < d < |sep| ==> sep[d..] != sep[..|sep| - d]
  }

  /** The leftmost occurrence of `sep` in `s` at or after position `from`. */
  function IndexFrom(s: string, sep: string, from: nat): (r: Option<nat>)
    requires |sep| > 0
    ensures r.Some? ==> from <= r.value && OccursAt(s, sep, r.value)
    ensures r.Some? ==> forall j: nat :: from <= j < r.value ==> !OccursAt(s, sep, j)
    ensures r.None? ==> forall j: nat :: from <= j ==> !OccursAt(s, sep, j)
    decreases |s| - from
  {
    if from + |sep| > |s| then None
    else if OccursAt(s, sep, from) then Some(from)
    else IndexFrom(s, sep, from + 1)
  }

  /** Go's `strings.Index`: the position of the leftmost occurrence of `sep`. */
  function Index(s: string, sep: string): (r: Option<nat>)
    requires |sep| > 0
    ensures r.Some? ==> OccursAt(s, sep, r.value)
    ensures r.Some? ==> forall j: nat :: j < r.value ==> !OccursAt(s, sep, j)
    ensures r.None? <==> !Contains(s, sep)
  {
    IndexFrom(s, sep, 0)
  }

  /** Go's `strings.Join`. */
  function Join(parts: seq<string>, sep: string): string {
    if |parts| == 0 then ""
    else if |parts| == 1 then parts[0]
    else parts[0] + sep + Join(parts[1..], sep)
  }

  /**
   * Go's `strings.Split` for a non-empty separator: the pieces between the
   * leftmost non-overlapping occurrences of `sep`. `n` occurrences give
   * `n + 1` pieces, so the empty string splits into `[""]`.
   */
  function Split(s: string, sep: string): (r: seq<string>)
    requires |sep| > 0
    ensures |r| >= 1
    decreases |s|
  {
    match Index(s, sep)
    case None => [s]
    case Some(i) => [s[..i]] + Split(s[i + |sep|..], sep)
  }

  /**
   * `Join` undoes `Split`, and no piece of a split contains the separator:
   * the pieces are exactly the text between the occurrences.
   */
  lemma {:induction false} SplitJoin(s: string, sep: string)
    requires |sep| > 0
    ensures Join(Split(s, sep), sep) == s
    ensures forall k :: 0 <= k < |Split(s, sep)| ==> !Contains(Split(s, sep)[k], sep)
    decreases |s|
  {
    match Index(s, sep)
    case None =>
    case Some(i) =>
      var before, after := s[..i], s[i + |sep|..];
      PrefixBeforeFirstOccurrence(s, sep, i);
      assert s == before + sep + after;
      SplitJoin(after, sep);
      var rest := Split(after, sep);
      assert Split(s, sep) == [before] + rest;
      assert ([before] + rest)[1..] == rest;
      forall k | 0 <= k < |Split(s, sep)|
        ensures !Contains(Split(s, sep)[k], sep)
      {
        if k > 0 {
          assert Split(s, sep)[k] == rest[k - 1];
        }
      }
  }

  /** The text before the leftmost occurrence of `sep` does not contain it. */
  lemma PrefixBeforeFirstOccurrence(s: string, sep: string, i: nat)
    requires |sep| > 0 && i <= |s|
    requires forall j: nat :: j < i ==> !OccursAt(s, sep, j)
    ensures !Contains(s[..i], sep)
  {
    forall j: nat | OccursAt(s[..i], sep, j)
      ensures false
    {
      assert s[..i][j..j + |sep|] == s[j..j + |sep|];
      assert OccursAt(s, sep, j);
    }
  }

  /** A one-character separator occurs exactly where that character does. */
  lemma ContainsChar(s: string, c: char)
    ensures Contains(s, [c]) <==> c in s
  {
    if c in s {
      var i :| 0 <= i < |s| && s[i] == c;
      assert OccursAt(s, [c], i);
    }
    if Contains(s, [c]) {
      var i: nat :| OccursAt(s, [c], i);
      assert s[i] == s[i..i + 1][0];
    }
  }

  lemma {:induction false} CountConcat(a: string, b: string, c: char)
    ensures Count(a + b, c) == Count(a, c) + Count(b, c)
  {
    if a == [] {
      assert a + b == b;
    } else {
      assert (a + b)[1..] == a[1..] + b;
      CountConcat(a[1..], b, c);
    }
  }

  lemma {:induction false} CountAbsent(s: string, c: char)
    ensures c !in s <==> Count(s, c) == 0
  {
    if s != [] {
      CountAbsent(s[1..], c);
      assert s == [s[0]] + s[1..];
    }
  }

  /** Splitting on one character gives one more piece than it has occurrences. */
  lemma {:induction false} SplitCharCount(s: string, c: char)
    ensures |Split(s, [c])| == Count(s, c) + 1
    decreases |s|
  {
    match Index(s, [c])
    case None =>
      ContainsChar(s, c);
      CountAbsent(s, c);
    case Some(i) =>
      var before, after := s[..i], s[i + 1..];
      assert Split(s, [c]) == [before] + Split(after, [c]);
      assert s == before + [c] + after;
      PrefixBeforeFirstOccurrence(s, [c], i);
      ContainsChar(before, c);
      CountAbsent(before, c);
      CountConcat(before, [c], c);
      CountConcat(before + [c], after, c);
      SplitCharCount(after, c);
  }

  /** Joining two non-empty piece lists puts one separator between them. */
  lemma {:induction false} JoinAppend(xs: seq<string>, ys: seq<string>, sep: string)
    requires |xs| >= 1 && |ys| >= 1
    ensures Join(xs + ys, sep) == Join(xs, sep) + sep + Join(ys, sep)
    decreases |xs|
  {
    if |xs| == 1 {
      assert (xs + ys)[1..] == ys;
    } else {
      assert (xs + ys)[1..] == xs[1..] + ys;
      JoinAppend(xs[1..], ys, sep);
    }
  }

  /**
   * For a border-free separator, `Split` is the only way to cut `s` into
   * separator-free pieces that join back to `s`.
   */
  lemma {:induction false} SplitUnique(s: string, sep: string, parts: seq<string>)
    requires |sep| > 0 && BorderFree(sep)
    requires |parts| >= 1
    requires forall k :: 0 <= k < |parts| ==> !Contains(parts[k], sep)
    requires Join(parts, sep) == s
    ensures Split(s, sep) == parts
    decreases |parts|
  {
    var p := parts[0];
    if |parts| == 1 {
      assert s == p;
      assert Index(s, sep).None?;
    } else {
      var rest := Join(parts[1..], sep);
      assert s == p + sep + rest;
      var n := |p|;
      assert s[n..n + |sep|] == sep;
      forall j: nat | j < n && OccursAt(s, sep, j)
        ensures false
      {
        if j + |sep| <= n {
          assert p[j..j + |sep|] == s[j..j + |sep|];
          assert OccursAt(p, sep, j);
        } else {
          OverlapIsBorder(s, sep, j, n);
          assert false;
        }
      }
      match Index(s, sep)
      case None =>
        assert OccursAt(s, sep, n);
      case Some(i) =>
        assert !(i < n);
        if i > n {
          assert OccursAt(s, sep, n);
        }
        assert s[..n] == p && s[n + |sep|..] == rest;
        SplitUnique(rest, sep, parts[1..]);
        assert Split(s, sep) == [p] + parts[1..];
    }
  }

  /** Two overlapping occurrences of `sep` make a border of `sep`. */
  lemma OverlapIsBorder(s: string, sep: string, i: nat, j: nat)
    requires OccursAt(s, sep, i) && OccursAt(s, sep, j)
    requires i < j < i + |sep|
    ensures sep[j - i..] == sep[..|sep| - (j - i)]
  {
    assert sep[j - i..] == s[j..i + |sep|];
    assert s[j..i + |sep|] == sep[..|sep| - (j - i)];
  }

  /** Splitting a concatenation around one separator concatenates the splits. */
  lemma SplitAround(a: string, b: string, sep: string)
    requires |sep| > 0 && BorderFree(sep)
    ensures Split(a + sep + b, sep) == Split(a, sep) + Split(b, sep)
  {
    var xs, ys := Split(a, sep), Split(b, sep);
    SplitJoin(a, sep);
    SplitJoin(b, sep);
    JoinAppend(xs, ys, sep);
    SplitUnique(a + sep + b, sep, xs + ys);
  }

  /** Text that does not contain the separator is a single piece. */
  lemma SplitWithoutSeparator(s: string, sep: string)
    requires |sep| > 0 && !Contains(s, sep)
    ensures Split(s, sep) == [s]
  {
  }
}
