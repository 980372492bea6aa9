/** String helpers standing in for the Python built-ins the script relies on:
    the `in` operator on strings, `os.path.join`, string ordering (used by
    `sorted`) and the text a sequence of `write` calls leaves in a file. */
module Strings {

  /** `pattern` occurs in `s` starting at index `k`. */
  predicate OccursAt(pattern: string, s: string, k: nat) {
    k + |pattern| <= |s| && s[k..k + |pattern|] == pattern
  }

  /** Python's `pattern in s` on strings: a literal, contiguous occurrence. */
  predicate IsSubstring(pattern: string, s: string) {
    exists k: nat | k <= |s| :: OccursAt(pattern, s, k)
  }

  /** An occurrence inside a prefix of a string is an occurrence in the string. */
  lemma SubstringOfPrefix(pattern: string, s: string, t: string)
    requires s <= t
    requires IsSubstring(pattern, s)
    ensures IsSubstring(pattern, t)
  {
    var k: nat :| k <= |s| && OccursAt(pattern, s, k);
    assert t[k..k + |pattern|] == s[k..k + |pattern|];
    assert OccursAt(pattern, t, k);
  }

  /** A pattern holding a character the string lacks does not occur in it. */
  lemma CharMissing(pattern: string, s: string, i: nat)
    requires i < |pattern| && pattern[i] !in s
    ensures !IsSubstring(pattern, s)
  {
    forall k: nat | k <= |s| ensures !OccursAt(pattern, s, k) {
      if k + |pattern| <= |s| {
        assert s[k..k + |pattern|][i] == s[k + i];
      }
    }
  }

  /** A pattern whose first character starts no long enough suffix of the
      string does not occur in it. */
  lemma FirstCharMissing(pattern: string, s: string)
    requires pattern != []
    requires forall k | 0 <= k && k + |pattern| <= |s| :: s[k] != pattern[0]
    ensures !IsSubstring(pattern, s)
  {
    forall k: nat | k <= |s| ensures !OccursAt(pattern, s, k) {
      if k + |pattern| <= |s| {
        assert s[k..k + |pattern|][0] == s[k];
      }
    }
  }

  /** `os.path.join(dir, name)` with the POSIX separator: a name that starts with
      the separator replaces `dir`; otherwise the separator is inserted unless
      `dir` is empty or already ends with one. */
  function Join(dir: string, name: string): string {
    if |name| > 0 && name[0] == '/' then name
    else if dir == [] || dir[|dir| - 1] == '/' then dir + name
    else dir + "/" + name
  }

  /** A joined path ends with the name, inserts at most one separator, and,
      unless the name is absolute, starts with the directory. */
  lemma JoinShape(dir: string, name: string)
    ensures var r := Join(dir, name);
      && ((|name| == 0 || name[0] != '/') ==> dir <= r)
      && |name| <= |r| && r[|r| - |name|..] == name
      && |r| <= |dir| + 1 + |name|
  {
  }

  /** Python's `a <= b` on `str`: lexicographic by code point, a proper prefix
      sorting first. */
  predicate StrLe(a: string, b: string)
    decreases |a|
  {
    |a| == 0 || (|b| > 0 && (a[0] < b[0] || (a[0] == b[0] && StrLe(a[1..], b[1..]))))
  }

  lemma {:induction false} StrLeReflexive(a: string)
    ensures StrLe(a, a)
    decreases |a|
  {
    if |a| > 0 {
      StrLeReflexive(a[1..]);
    }
  }

  lemma {:induction false} StrLeTotal(a: string, b: string)
    ensures StrLe(a, b) || StrLe(b, a)
    decreases |a|
  {
    if |a| > 0 && |b| > 0 && a[0] == b[0] {
      StrLeTotal(a[1..], b[1..]);
    }
  }

  lemma {:induction false} StrLeTransitive(a: string, b: string, c: string)
    requires StrLe(a, b) && StrLe(b, c)
    ensures StrLe(a, c)
    decreases |a|
  {
    if |a| > 0 && a[0] == b[0] && b[0] == c[0] {
      StrLeTransitive(a[1..], b[1..], c[1..]);
    }
  }

  lemma {:induction false} StrLeAntisymmetric(a: string, b: string)
    requires StrLe(a, b) && StrLe(b, a)
    ensures a == b
    decreases |a|
  {
    if |a| > 0 {
      StrLeAntisymmetric(a[1..], b[1..]);
      assert a == [a[0]] + a[1..];
      assert b == [b[0]] + b[1..];
    }
  }

  /** The text that a sequence of `write` calls leaves in a file. */
  function Concat(chunks: seq<string>): string {
    if chunks == [] then [] else chunks[0] + Concat(chunks[1..])
  }

  lemma {:induction false} ConcatAppend(a: seq<string>, b: seq<string>)
    ensures Concat(a + b) == Concat(a) + Concat(b)
  {
    if a == [] {
      assert a + b == b;
    } else {
      assert (a + b)[1..] == a[1..] + b;
      ConcatAppend(a[1..], b);
    }
  }

  lemma AppendAssociative<T>(a: seq<T>, b: seq<T>, c: seq<T>)
    ensures a + b + c == a + (b + c)
  {
  }

  /** Index of the first line break of `s`, or `|s|` when there is none. */
  function LineEnd(s: string): (k: nat)
    ensures k <= |s|
    ensures forall i | 0 <= i < k :: s[i] != '\n'
    ensures k < |s| ==> s[k] == '\n'
  {
    if s == [] || s[0] == '\n' then 0 else 1 + LineEnd(s[1..])
  }

  /** The first line break of `s + t` is the one that starts `t` when `s`
      has none. */
  lemma {:induction false} LineEndAt(s: string, t: string)
    requires '\n' !in s
    requires |t| > 0 && t[0] == '\n'
    ensures LineEnd(s + t) == |s|
  {
    if s != [] {
      assert (s + t)[1..] == s[1..] + t;
      LineEndAt(s[1..], t);
    }
  }
}
