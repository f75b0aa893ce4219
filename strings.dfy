/** Option and Result wrappers for the model's error paths. */
module Wrappers {
  datatype Option<+T> = None | Some(value: T)

  datatype Result<+T, +E> = Success(value: T) | Failure(error: E)
}

/**
 * The handful of .NET string operations the publish-settings code relies on,
 * over `string = seq<char>`. Case-insensitive comparison is ordinal and
 * restricted to ASCII letters, which is what `StringComparison.OrdinalIgnoreCase`
 * does on the ASCII range.
 */
module Strings {

  /** ASCII lower-casing of one character; every other character is kept. */
  function Lower(c: char): char {
    if 'A' <= c <= 'Z' then (c as int + 32) as char else c
  }

  /** The case-folded form of a string: the canonical key of an ordinal-ignore-case comparer. */
  function Fold(s: string): string {
    seq(|s|, i requires 0 <= i < |s| => Lower(s[i]))
  }

  /** `string.Equals(a, b, StringComparison.OrdinalIgnoreCase)`. */
  predicate EqualsIgnoreCase(a: string, b: string) {
    Fold(a) == Fold(b)
  }

  /** `s.StartsWith(p, StringComparison.OrdinalIgnoreCase)`. */
  predicate StartsWithIgnoreCase(s: string, p: string) {
    |p| <= |s| && EqualsIgnoreCase(s[..|p|], p)
  }

  /** `s.EndsWith(p, StringComparison.OrdinalIgnoreCase)`. */
  predicate EndsWithIgnoreCase(s: string, p: string) {
    |p| <= |s| && EqualsIgnoreCase(s[|s| - |p|..], p)
  }

  /** Two strings of equal length that differ, ignoring case, at one position are not equal ignoring case. */
  lemma DifferAt(a: string, b: string, i: nat)
    requires |a| == |b| && i < |a| && Lower(a[i]) != Lower(b[i])
    ensures !EqualsIgnoreCase(a, b)
  {
    assert Fold(a)[i] != Fold(b)[i];
  }

  /** A string whose last character differs, ignoring case, from the last of `p` does not end with `p`. */
  lemma LastDiffers(s: string, p: string)
    requires |s| > 0 && |p| > 0 && Lower(s[|s| - 1]) != Lower(p[|p| - 1])
    ensures !EndsWithIgnoreCase(s, p)
  {
    if |p| <= |s| {
      DifferAt(s[|s| - |p|..], p, |p| - 1);
    }
  }

  /** Where `s` ends with `p` ignoring case, each of those last characters folds to the matching one of `p`. */
  lemma EndsWithAt(s: string, p: string, i: nat)
    requires EndsWithIgnoreCase(s, p) && |s| - |p| <= i < |s|
    ensures Lower(s[i]) == Lower(p[i - (|s| - |p|)])
  {
    var k := i - (|s| - |p|);
    assert Fold(s[|s| - |p|..])[k] == Fold(p)[k];
  }

  /** `s.IndexOf(c)`: the position of the first `c`, or -1 when there is none. */
  function IndexOf(s: string, c: char): (r: int)
    ensures -1 <= r < |s|
    ensures 0 <= r ==> s[r] == c
    ensures forall i :: 0 <= i < |s| && (r == -1 || i < r) ==> s[i] != c
  {
    if s == [] then -1
    else if s[0] == c then 0
    else
      var k := IndexOf(s[1..], c);
      if k == -1 then -1 else 1 + k
  }

  /** The first `c` of a concatenation is the first of the left part, or else the first of the right part. */
  lemma {:induction false} IndexOfAppend(a: string, b: string, c: char)
    ensures IndexOf(a + b, c)
         == if IndexOf(a, c) != -1 then IndexOf(a, c)
            else if IndexOf(b, c) != -1 then |a| + IndexOf(b, c)
            else -1
  {
    if a == [] {
      assert a + b == b;
    } else {
      assert (a + b)[0] == a[0];
      assert (a + b)[1..] == a[1..] + b;
      IndexOfAppend(a[1..], b, c);
    }
  }

  /** The first `c` of `s` is the first `c` of any prefix of `s` that still contains it. */
  lemma IndexOfPrefix(s: string, c: char, n: nat)
    requires n <= |s|
    ensures IndexOf(s[..n], c) == (if 0 <= IndexOf(s, c) < n then IndexOf(s, c) else -1)
  {
    var k := IndexOf(s, c);
    if 0 <= k < n {
      assert s[..n][k] == c;
    }
  }

  /** `s.Insert(i, t)`. */
  function Insert(s: string, i: nat, t: string): (r: string)
    requires i <= |s|
    ensures |r| == |s| + |t| && r[..i] == s[..i] && r[i + |t|..] == s[i..]
  {
    s[..i] + t + s[i..]
  }

  /** `s.Split(new char[] { sep })`: the pieces between the separators, never fewer than one. */
  function Split(s: string, sep: char): (parts: seq<string>)
    ensures |parts| >= 1
    decreases |s|
  {
    var k := IndexOf(s, sep);
    if k == -1 then [s] else [s[..k]] + Split(s[k + 1..], sep)
  }

  /** There is more than one piece exactly when the separator occurs; the first piece is the text before it. */
  lemma SplitFirst(s: string, sep: char)
    ensures |Split(s, sep)| == 1 <==> IndexOf(s, sep) == -1
    ensures Split(s, sep)[0] == if IndexOf(s, sep) == -1 then s else s[..IndexOf(s, sep)]
  {
  }

  /** `string.Join(sep, parts)`. */
  function Join(parts: seq<string>, sep: char): string
    requires |parts| >= 1
  {
    if |parts| == 1 then parts[0] else parts[0] + [sep] + Join(parts[1..], sep)
  }

  lemma JoinCons(head: string, tail: seq<string>, sep: char)
    requires |tail| >= 1
    ensures Join([head] + tail, sep) == head + [sep] + Join(tail, sep)
  {
    assert ([head] + tail)[1..] == tail;
  }

  /** Splitting on a character and joining the pieces back with it gives the string back. */
  lemma {:induction false} JoinSplit(s: string, sep: char)
    ensures Join(Split(s, sep), sep) == s
    decreases |s|
  {
    var k := IndexOf(s, sep);
    if k != -1 {
      var rest := s[k + 1..];
      JoinSplit(rest, sep);
      JoinCons(s[..k], Split(rest, sep), sep);
      assert s == s[..k] + [sep] + rest;
    }
  }

  lemma JoinReplaceHead(parts: seq<string>, sep: char, first: string)
    requires |parts| >= 1
    ensures Join(parts[0 := first], sep) == first + Join(parts, sep)[|parts[0]|..]
  {
    if |parts| > 1 {
      assert parts[0 := first][1..] == parts[1..];
      var joined := Join(parts, sep);
      assert joined == parts[0] + ([sep] + Join(parts[1..], sep));
      assert joined[|parts[0]|..] == [sep] + Join(parts[1..], sep);
    }
  }

  /** Replacing the first piece before joining replaces the text before the first separator. */
  lemma JoinReplaceFirst(s: string, sep: char, first: string)
    requires IndexOf(s, sep) != -1
    ensures Join(Split(s, sep)[0 := first], sep) == first + s[IndexOf(s, sep)..]
  {
    SplitFirst(s, sep);
    JoinSplit(s, sep);
    JoinReplaceHead(Split(s, sep), sep, first);
  }
}
