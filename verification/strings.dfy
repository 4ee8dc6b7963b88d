/**
 * String helpers shared by the parser, the serialiser and the validator:
 * ASCII upper-casing (the model of `str.upper`), splitting on one separator
 * character (the model of `str.split(sep)`), joining (the model of
 * `sep.join(parts)`), substring and prefix tests.
 */
module Strings {

  /** ASCII upper-casing of one character: a-z move to A-Z, all else is kept. */
  function UpperChar(c: char): char {
    if 'a' <= c <= 'z' then (c as int - 32) as char else c
  }

  function Upper(s: string): string {
    seq(|s|, i requires 0 <= i < |s| => UpperChar(s[i]))
  }

  lemma {:induction false} UpperConcat(a: string, b: string)
    ensures Upper(a + b) == Upper(a) + Upper(b)
  {
  }

  lemma {:induction false} UpperIdempotent(s: string)
    ensures Upper(Upper(s)) == Upper(s)
  {
  }

  /** Upper-casing never creates or removes a character that is not a letter. */
  lemma {:induction false} UpperKeepsNonLetter(s: string, c: char)
    requires !('a' <= c <= 'z') && !('A' <= c <= 'Z')
    ensures c in Upper(s) <==> c in s
  {
    if c in s {
      var i :| 0 <= i < |s| && s[i] == c;
      assert Upper(s)[i] == c;
    }
    if c in Upper(s) {
      var i :| 0 <= i < |Upper(s)| && Upper(s)[i] == c;
      assert s[i] == c;
    }
  }

  /** Number of occurrences of `c` in `s`. */
  function Occurrences(s: string, c: char): nat {
    if s == [] then 0 else (if s[0] == c then 1 else 0) + Occurrences(s[1..], c)
  }

  /**
   * `s.split(sep)` for a one-character separator: the maximal separator-free
   * pieces between separators, empty pieces included.
   */
  function Split(s: string, sep: char): (parts: seq<string>)
    ensures |parts| == Occurrences(s, sep) + 1
    ensures forall i :: 0 <= i < |parts| ==> sep !in parts[i]
  {
    if s == [] then [[]]
    else
      var rest := Split(s[1..], sep);
      if s[0] == sep then [[]] + rest
      else [[s[0]] + rest[0]] + rest[1..]
  }

  /** `sep.join(parts)`. */
  function Join(parts: seq<string>, sep: char): string {
    if |parts| == 0 then []
    else if |parts| == 1 then parts[0]
    else parts[0] + [sep] + Join(parts[1..], sep)
  }

  lemma {:induction false} JoinCons(head: string, rest: seq<string>, sep: char)
    requires rest != []
    ensures Join([head] + rest, sep) == head + [sep] + Join(rest, sep)
  {
    assert ([head] + rest)[1..] == rest;
  }

  lemma {:induction false} SplitNoSeparator(s: string, sep: char)
    requires sep !in s
    ensures Split(s, sep) == [s]
  {
    if s != [] {
      assert sep !in s[1..] by {
        forall i | 0 <= i < |s[1..]| ensures s[1..][i] != sep {
          assert s[1..][i] == s[i + 1];
        }
      }
      SplitNoSeparator(s[1..], sep);
      assert s[0] != sep;
      assert [s[0]] + s[1..] == s;
    }
  }

  /** Splitting distributes over one separator. */
  lemma {:induction false} SplitConcat(a: string, b: string, sep: char)
    ensures Split(a + [sep] + b, sep) == Split(a, sep) + Split(b, sep)
  {
    var s := a + [sep] + b;
    if a == [] {
      assert s[1..] == b;
    } else {
      assert s[1..] == a[1..] + [sep] + b;
      SplitConcat(a[1..], b, sep);
    }
  }

  /** Joining the pieces of a split gives the original string back. */
  lemma {:induction false} JoinSplit(s: string, sep: char)
    ensures Join(Split(s, sep), sep) == s
  {
    if s != [] {
      var rest := Split(s[1..], sep);
      JoinSplit(s[1..], sep);
      if s[0] == sep {
        assert ([[]] + rest)[1..] == rest;
      } else if |rest| >= 2 {
        var parts := [[s[0]] + rest[0]] + rest[1..];
        assert parts[1..] == rest[1..];
        assert Join(rest, sep) == rest[0] + [sep] + Join(rest[1..], sep);
      }
    }
  }

  /** Splitting a join of separator-free pieces gives the pieces back. */
  lemma {:induction false} SplitJoin(parts: seq<string>, sep: char)
    requires |parts| >= 1
    requires forall i :: 0 <= i < |parts| ==> sep !in parts[i]
    ensures Split(Join(parts, sep), sep) == parts
  {
    if |parts| == 1 {
      SplitNoSeparator(parts[0], sep);
    } else {
      SplitJoin(parts[1..], sep);
      SplitConcat(parts[0], Join(parts[1..], sep), sep);
      SplitNoSeparator(parts[0], sep);
    }
  }

  /** Python's `p in s` for strings: `p` occurs as a contiguous substring. */
  predicate Contains(s: string, p: string) {
    exists k :: 0 <= k <= |s| - |p| && OccursAt(s, p, k)
  }

  /** `p` occurs in `s` starting at index `k`. */
  predicate OccursAt(s: string, p: string, k: int)
    requires 0 <= k <= |s| - |p|
  {
    s[k..k + |p|] == p
  }

  /** Every position an occurrence of `p` covers holds a character of `p`. */
  lemma {:induction false} OccurrenceCovers(s: string, p: string, k: int, i: int)
    requires 0 <= k <= |s| - |p| && OccursAt(s, p, k)
    requires k <= i < k + |p|
    ensures s[i] in p
  {
    assert p[i - k] == s[i];
  }

  /**
   * A pattern without the separator occurs in `a + [sep] + b` exactly when it
   * occurs in `a` or in `b`: no occurrence can straddle the separator.
   */
  lemma {:induction false} ContainsAcrossSeparator(a: string, b: string, sep: char, p: string)
    requires sep !in p
    ensures Contains(a + [sep] + b, p) <==> Contains(a, p) || Contains(b, p)
  {
    var s := a + [sep] + b;
    if Contains(s, p) {
      var k :| 0 <= k <= |s| - |p| && OccursAt(s, p, k);
      OccurrenceBesideSeparator(a, b, sep, p, k);
    }
    if Contains(a, p) {
      ContainsExtend([], a, [sep] + b, p);
      assert [] + a + ([sep] + b) == s;
    }
    if Contains(b, p) {
      ContainsExtend(a + [sep], b, [], p);
      assert a + [sep] + b + [] == s;
    }
  }

  /** An occurrence of a separator-free pattern lies wholly on one side of the separator. */
  lemma {:induction false} OccurrenceBesideSeparator(a: string, b: string, sep: char, p: string, k: int)
    requires sep !in p
    requires 0 <= k <= |a + [sep] + b| - |p| && OccursAt(a + [sep] + b, p, k)
    ensures Contains(a, p) || Contains(b, p)
  {
    var s := a + [sep] + b;
    if k <= |a| < k + |p| {
      OccurrenceCovers(s, p, k, |a|);
      assert false;
    }
    if k + |p| <= |a| {
      assert a[k..k + |p|] == s[k..k + |p|];
      assert OccursAt(a, p, k);
    } else {
      var j := k - |a| - 1;
      assert b[j..j + |p|] == s[k..k + |p|];
      assert OccursAt(b, p, j);
    }
  }

  /** Text around an occurrence keeps it. */
  lemma {:induction false} ContainsExtend(a: string, s: string, b: string, p: string)
    requires Contains(s, p)
    ensures Contains(a + s + b, p)
  {
    var k :| 0 <= k <= |s| - |p| && OccursAt(s, p, k);
    var t := a + s + b;
    assert t[|a| + k..|a| + k + |p|] == s[k..k + |p|];
    assert OccursAt(t, p, |a| + k);
  }

  /** An occurrence of an occurrence is an occurrence. */
  lemma {:induction false} ContainsTransitive(s: string, t: string, p: string)
    requires Contains(s, t) && Contains(t, p)
    ensures Contains(s, p)
  {
    var k :| 0 <= k <= |s| - |t| && OccursAt(s, t, k);
    assert s == s[..k] + t + s[k + |t|..];
    ContainsExtend(s[..k], t, s[k + |t|..], p);
  }

  /** A joined text contains each of its pieces. */
  lemma {:induction false} JoinContains(parts: seq<string>, i: nat, sep: char)
    requires i < |parts|
    ensures Contains(Join(parts, sep), parts[i])
  {
    if |parts| == 1 {
      ContainsSpliced([], parts[0], []);
      assert [] + parts[0] + [] == parts[0];
    } else if i == 0 {
      ContainsSpliced([], parts[0], [sep] + Join(parts[1..], sep));
      assert [] + parts[0] + ([sep] + Join(parts[1..], sep)) == Join(parts, sep);
    } else {
      JoinContains(parts[1..], i - 1, sep);
      ContainsExtend(parts[0] + [sep], Join(parts[1..], sep), [], parts[i]);
      assert parts[0] + [sep] + Join(parts[1..], sep) + [] == Join(parts, sep);
    }
  }

  lemma {:induction false} ConcatAssoc<T>(a: seq<T>, b: seq<T>, c: seq<T>)
    ensures a + (b + c) == a + b + c
  {
  }

  /** Python's `s.startswith(p)`. */
  predicate StartsWith(s: string, p: string) {
    |p| <= |s| && s[..|p|] == p
  }

  /** A string contains whatever is spliced into it, and starts with its own prefix. */
  lemma {:induction false} ContainsSpliced(a: string, p: string, b: string)
    ensures Contains(a + p + b, p)
    ensures StartsWith(a + p + b, a)
  {
    var s := a + p + b;
    assert s[|a|..|a| + |p|] == p;
    assert OccursAt(s, p, |a|);
    assert s[..|a|] == a;
  }

  /** The longest prefix of `s` that does not contain `c`. */
  function TakeUntil(s: string, c: char): (r: string)
    ensures |r| <= |s| && r == s[..|r|]
    ensures c !in r
    ensures |r| < |s| ==> s[|r|] == c
  {
    if s == [] || s[0] == c then [] else [s[0]] + TakeUntil(s[1..], c)
  }

  /** Reading up to a delimiter stops exactly at the first delimiter. */
  lemma {:induction false} TakeUntilDelimited(a: string, b: string, c: char)
    requires c !in a
    requires |b| > 0 && b[0] == c
    ensures TakeUntil(a + b, c) == a
  {
    var s := a + b;
    var r := TakeUntil(s, c);
    assert r == s[..|a|] == a;
  }
}
