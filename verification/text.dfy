/**
 * Character classes and string helpers shared by the matcher.
 *
 * The character classes are the ASCII readings of the .NET regular
 * expression classes `\s`, `\d` and `\w`, and `LowerChar` is ASCII
 * lower-casing; the .NET classes also admit Unicode characters, which
 * this model does not.
 */
module Text {

  /** `\s`: space, tab, line feed, vertical tab, form feed, carriage return. */
  predicate IsSpace(c: char) {
    c == ' ' || c == '\t' || c == '\n' || c == '\U{000B}' || c == '\U{000C}' || c == '\r'
  }

  /** `\d` */
  predicate IsDigit(c: char) {
    '0' <= c <= '9'
  }

  /** `\w`: letters, digits and the underscore. */
  predicate IsWord(c: char) {
    IsDigit(c) || ('a' <= c <= 'z') || ('A' <= c <= 'Z') || c == '_'
  }

  function LowerChar(c: char): (r: char)
    ensures IsWord(r) == IsWord(c) && IsDigit(r) == IsDigit(c)
    ensures !('A' <= r <= 'Z')
    ensures !('A' <= c <= 'Z') ==> r == c
  {
    if 'A' <= c <= 'Z' then (c as int + 32) as char else c
  }

  /** Applies `f` to every character. */
  function MapChars(f: char -> char, s: string): (r: string)
    ensures |r| == |s|
    ensures forall i :: 0 <= i < |s| ==> r[i] == f(s[i])
  {
    if s == [] then [] else [f(s[0])] + MapChars(f, s[1..])
  }

  /** `string.ToLower`, read as ASCII lower-casing. */
  function ToLower(s: string): (r: string)
    ensures |r| == |s|
    ensures forall i :: 0 <= i < |s| ==> r[i] == LowerChar(s[i])
  {
    MapChars(LowerChar, s)
  }

  /** Ordinal `string.Contains`: `pat` occurs in `text` at some position. */
  predicate Contains(text: string, pat: string) {
    exists i :: 0 <= i <= |text| - |pat| && OccursAt(text, pat, i)
  }

  /** `pat` occurs in `text` starting at index `i`. */
  predicate OccursAt(text: string, pat: string, i: int) {
    0 <= i && i + |pat| <= |text| && text[i..i + |pat|] == pat
  }

  /** A pattern holding a character that never occurs in `text` is never found. */
  lemma {:induction false} NotContainsAbsentChar(text: string, pat: string, k: nat)
    requires k < |pat|
    requires forall i :: 0 <= i < |text| ==> text[i] != pat[k]
    ensures !Contains(text, pat)
  {
    forall i | 0 <= i
      ensures !OccursAt(text, pat, i)
    {
      if i + |pat| <= |text| {
        assert text[i..i + |pat|][k] == text[i + k];
      }
    }
  }

  /** `string.IsNullOrWhiteSpace` for a non-null string. */
  predicate IsNullOrWhiteSpace(s: string) {
    forall i :: 0 <= i < |s| ==> IsSpace(s[i])
  }

  /** The elements of `s`, each kept at its first occurrence (LINQ `Distinct`). */
  function Distinct<T(==,!new)>(s: seq<T>): (r: seq<T>)
    ensures forall x :: x in r <==> x in s
    ensures |r| <= |s|
  {
    if s == [] then []
    else
      var d := Distinct(s[..|s| - 1]);
      if s[|s| - 1] in d then d else d + [s[|s| - 1]]
  }

  lemma {:induction false} DistinctNoDuplicates<T(!new)>(s: seq<T>)
    ensures NoDuplicates(Distinct(s))
  {
    if s != [] {
      DistinctNoDuplicates(s[..|s| - 1]);
    }
  }

  predicate NoDuplicates<T(==)>(s: seq<T>) {
    forall i, j :: 0 <= i < j < |s| ==> s[i] != s[j]
  }

  lemma {:induction false} DistinctOfDistinct<T(!new)>(s: seq<T>)
    requires NoDuplicates(s)
    ensures Distinct(s) == s
  {
    if s != [] {
      var p := s[..|s| - 1];
      assert NoDuplicates(p);
      DistinctOfDistinct(p);
      assert s[|s| - 1] !in p;
      assert p + [s[|s| - 1]] == s;
    }
  }

  /** LINQ `Take(n)`. */
  function Take<T>(s: seq<T>, n: nat): (r: seq<T>)
    ensures |r| <= n && |r| <= |s|
    ensures |s| <= n ==> r == s
    ensures r == s[..|r|]
  {
    if |s| <= n then s else s[..n]
  }

  /** `sub` can be obtained from `s` by deleting elements. */
  predicate IsSubsequence<T(==)>(sub: seq<T>, s: seq<T>)
    decreases |s|
  {
    if sub == [] then true
    else if s == [] then false
    else
      || (sub[|sub| - 1] == s[|s| - 1] && IsSubsequence(sub[..|sub| - 1], s[..|s| - 1]))
      || IsSubsequence(sub, s[..|s| - 1])
  }

  /** Dropping the last element of a subsequence leaves a subsequence. */
  lemma {:induction false} SubsequenceDropLast<T>(sub: seq<T>, s: seq<T>)
    requires sub != [] && IsSubsequence(sub, s)
    ensures IsSubsequence(sub[..|sub| - 1], s)
    decreases |s|
  {
    var front := sub[..|sub| - 1];
    if front != [] {
      var rest := s[..|s| - 1];
      if sub[|sub| - 1] == s[|s| - 1] && IsSubsequence(front, rest) {
      } else {
        SubsequenceDropLast(sub, rest);
      }
    }
  }

  /** A subsequence of a subsequence is a subsequence. */
  lemma {:induction false} SubsequenceTransitive<T>(a: seq<T>, b: seq<T>, c: seq<T>)
    requires IsSubsequence(a, b) && IsSubsequence(b, c)
    ensures IsSubsequence(a, c)
    decreases |c|
  {
    if a != [] {
      var c' := c[..|c| - 1];
      if b[|b| - 1] == c[|c| - 1] && IsSubsequence(b[..|b| - 1], c') {
        var b' := b[..|b| - 1];
        if a[|a| - 1] == b[|b| - 1] && IsSubsequence(a[..|a| - 1], b') {
          SubsequenceTransitive(a[..|a| - 1], b', c');
        } else {
          SubsequenceTransitive(a, b', c');
        }
      } else {
        SubsequenceTransitive(a, b, c');
      }
    }
  }

  /** Every prefix of a subsequence is a subsequence. */
  lemma {:induction false} SubsequencePrefix<T>(sub: seq<T>, s: seq<T>, n: nat)
    requires n <= |sub| && IsSubsequence(sub, s)
    ensures IsSubsequence(sub[..n], s)
    decreases |sub| - n
  {
    if n < |sub| {
      SubsequenceDropLast(sub, s);
      assert sub[..|sub| - 1][..n] == sub[..n];
      SubsequencePrefix(sub[..|sub| - 1], s, n);
    } else {
      assert sub[..n] == sub;
    }
  }

  /** Occurrences found in a suffix are occurrences in the whole text. */
  lemma ContainsInSuffix(text: string, m: nat, pat: string)
    requires m <= |text| && Contains(text[m..], pat)
    ensures Contains(text, pat)
  {
    var i :| 0 <= i <= |text[m..]| - |pat| && OccursAt(text[m..], pat, i);
    assert text[m + i..m + i + |pat|] == text[m..][i..i + |pat|];
    assert OccursAt(text, pat, m + i);
  }

  /** How many of `items` occur in `pool` (LINQ `Count(x => pool.Contains(x))` on a list). */
  function CountIn(items: seq<string>, pool: seq<string>): (m: nat)
    ensures m <= |items|
    ensures m == |items| <==> forall x :: x in items ==> x in pool
    ensures m == 0 <==> forall x :: x in items ==> x !in pool
  {
    if items == [] then 0
    else
      var last := items[|items| - 1];
      var front := items[..|items| - 1];
      assert forall x :: x in items <==> x in front || x == last;
      CountIn(front, pool) + (if last in pool then 1 else 0)
  }

  /** How many of `items` are substrings of `text` (LINQ `Count(x => text.Contains(x))`). */
  function CountContained(items: seq<string>, text: string): (m: nat)
    ensures m <= |items|
    ensures m == |items| <==> forall x :: x in items ==> Contains(text, x)
    ensures m == 0 <==> forall x :: x in items ==> !Contains(text, x)
  {
    if items == [] then 0
    else
      var last := items[|items| - 1];
      var front := items[..|items| - 1];
      assert forall x :: x in items <==> x in front || x == last;
      CountContained(front, text) + (if Contains(text, last) then 1 else 0)
  }

  /** `string.Join(sep, items)` */
  function Join(sep: string, items: seq<string>): (r: string)
    ensures items == [] ==> r == []
    ensures |items| == 1 ==> r == items[0]
  {
    if items == [] then []
    else if |items| == 1 then items[0]
    else items[0] + sep + Join(sep, items[1..])
  }

  /** Decimal rendering of an integer, as string interpolation prints it. */
  function IntToString(n: int): (r: string)
    ensures r != []
    ensures 0 <= n ==> forall i :: 0 <= i < |r| ==> IsDigit(r[i])
    ensures n < 0 ==> r[0] == '-'
  {
    if n < 0 then "-" + NatToString(-n) else NatToString(n)
  }

  function NatToString(n: nat): (r: string)
    ensures r != []
    ensures forall i :: 0 <= i < |r| ==> IsDigit(r[i])
    ensures DigitsValue(r) == n
  {
    if n < 10 then [('0' as int + n) as char]
    else
      var r := NatToString(n / 10) + [('0' as int + n % 10) as char];
      assert r[..|r| - 1] == NatToString(n / 10);
      r
  }

  /** The value of a string of decimal digits, most significant first. */
  function DigitsValue(d: string): (v: nat)
    requires forall i :: 0 <= i < |d| ==> IsDigit(d[i])
  {
    if d == [] then 0
    else
      assert IsDigit(d[|d| - 1]);
      DigitsValue(d[..|d| - 1]) * 10 + (d[|d| - 1] as int - '0' as int)
  }
}
