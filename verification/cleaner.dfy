/**
 * The resume text cleaner: three regular-expression rewrites and a trim,
 * each modelled as a function over characters.
 */
module Cleaner {
  import opened Text

  /** Length of the whitespace run at the front of `s`. */
  function SpaceRun(s: string): (n: nat)
    ensures n <= |s|
    ensures forall i :: 0 <= i < n ==> IsSpace(s[i])
    ensures n < |s| ==> !IsSpace(s[n])
  {
    if s != [] && IsSpace(s[0]) then 1 + SpaceRun(s[1..]) else 0
  }

  /** Length of the whitespace run at the back of `s`. */
  function TrailingSpaceRun(s: string): (n: nat)
    ensures n <= |s|
    ensures forall i :: |s| - n <= i < |s| ==> IsSpace(s[i])
    ensures n < |s| ==> !IsSpace(s[|s| - 1 - n])
  {
    if s != [] && IsSpace(s[|s| - 1]) then 1 + TrailingSpaceRun(s[..|s| - 1]) else 0
  }

  /** Length of the maximal run of digits at the front of `s`. */
  function DigitRun(s: string): (n: nat)
    ensures n <= |s|
    ensures forall i :: 0 <= i < n ==> IsDigit(s[i])
    ensures n < |s| ==> !IsDigit(s[n])
    ensures s != [] && IsDigit(s[0]) ==> n > 0
  {
    if s != [] && IsDigit(s[0]) then 1 + DigitRun(s[1..]) else 0
  }

  /** The characters of `s` other than whitespace, in order. */
  function NonSpace(s: string): string {
    if s == [] then []
    else if IsSpace(s[0]) then NonSpace(s[1..])
    else [s[0]] + NonSpace(s[1..])
  }

  /** Every whitespace character of `s` is the plain space. */
  predicate OnlyPlainSpaces(s: string) {
    forall i :: 0 <= i < |s| && IsSpace(s[i]) ==> s[i] == ' '
  }

  /** The characters no rewrite of the cleaner touches: letters, '_', '.', '@' and '-'. */
  predicate Survives(c: char) {
    ('a' <= c <= 'z') || ('A' <= c <= 'Z') || c == '_' || c == '.' || c == '@' || c == '-'
  }

  /** The characters of `s` that satisfy `Survives`, in order. */
  function Survivors(s: string): string {
    if s == [] then [] else (if Survives(s[0]) then [s[0]] else []) + Survivors(s[1..])
  }

  lemma {:induction false} SurvivorsAppend(a: string, b: string)
    ensures Survivors(a + b) == Survivors(a) + Survivors(b)
    decreases |a|
  {
    if a == [] {
      assert a + b == b;
    } else {
      var h := if Survives(a[0]) then [a[0]] else [];
      assert (a + b)[0] == a[0] && (a + b)[1..] == a[1..] + b;
      assert Survivors(a + b) == h + Survivors(a[1..] + b);
      SurvivorsAppend(a[1..], b);
      AppendAssoc(h, Survivors(a[1..]), Survivors(b));
    }
  }

  lemma {:induction false} NoSurvivors(s: string)
    requires forall i :: 0 <= i < |s| ==> !Survives(s[i])
    ensures Survivors(s) == []
    decreases |s|
  {
    if s != [] {
      NoSurvivors(s[1..]);
    }
  }

  /** `s` without its leading whitespace; keeps the non-whitespace characters. */
  function DropSpaces(s: string): (r: string)
    ensures |r| <= |s|
    ensures r == [] || !IsSpace(r[0])
    ensures NonSpace(r) == NonSpace(s)
  {
    if s != [] && IsSpace(s[0]) then DropSpaces(s[1..]) else s
  }

  /** What DropSpaces leaves is a suffix of the text, after whitespace only. */
  lemma {:induction false} DropSpacesSuffix(s: string)
    ensures DropSpaces(s) == s[|s| - |DropSpaces(s)|..]
    ensures forall i :: 0 <= i < |s| - |DropSpaces(s)| ==> IsSpace(s[i])
    decreases |s|
  {
    if s != [] && IsSpace(s[0]) {
      DropSpacesSuffix(s[1..]);
      var r := DropSpaces(s[1..]);
      assert s[1..][|s| - 1 - |r|..] == s[|s| - |r|..];
      assert forall i :: 1 <= i < |s| - |r| ==> s[i] == s[1..][i - 1];
    }
  }

  /** Whitespace in front of a text that has a non-space character is dropped within that text. */
  lemma {:induction false} DropSpacesAppend(a: string, b: string)
    requires DropSpaces(a) != []
    ensures DropSpaces(a + b) == DropSpaces(a) + b
    decreases |a|
  {
    assert (a + b)[0] == a[0];
    if IsSpace(a[0]) {
      assert DropSpaces(a) == DropSpaces(a[1..]);
      assert (a + b)[1..] == a[1..] + b;
      DropSpacesAppend(a[1..], b);
    } else {
      assert DropSpaces(a) == a;
    }
  }

  lemma {:induction false} DropSpacesOfRun(sp: string, b: string)
    requires forall i :: 0 <= i < |sp| ==> IsSpace(sp[i])
    requires b == [] || !IsSpace(b[0])
    ensures DropSpaces(sp + b) == b
    decreases |sp|
  {
    if sp == [] {
      assert sp + b == b;
    } else {
      assert (sp + b)[1..] == sp[1..] + b;
      DropSpacesOfRun(sp[1..], b);
    }
  }

  /**
   * Rewrite 1, `\s+` to one space: every maximal whitespace run becomes a
   * single ' ', and the other characters are kept in order.
   */
  function CollapseWhitespace(s: string): (r: string)
    decreases |s|
    ensures |r| <= |s|
    ensures s != [] ==> r != [] && (IsSpace(r[0]) <==> IsSpace(s[0]))
    ensures OnlyPlainSpaces(r)
    ensures forall i :: 0 < i < |r| && IsSpace(r[i]) ==> !IsSpace(r[i - 1])
    ensures NonSpace(r) == NonSpace(s)
  {
    if s == [] then []
    else if IsSpace(s[0]) then
      var rest := CollapseWhitespace(DropSpaces(s[1..]));
      assert NonSpace(rest) == NonSpace(s);
      [' '] + rest
    else
      var rest := CollapseWhitespace(s[1..]);
      assert NonSpace([s[0]] + rest) == [s[0]] + NonSpace(rest);
      [s[0]] + rest
  }

  /** The whitespace-free characters carry all survivors. */
  lemma {:induction false} SurvivorsOfNonSpace(s: string)
    ensures Survivors(NonSpace(s)) == Survivors(s)
    decreases |s|
  {
    if s != [] {
      SurvivorsOfNonSpace(s[1..]);
      if !IsSpace(s[0]) {
        assert ([s[0]] + NonSpace(s[1..]))[1..] == NonSpace(s[1..]);
      }
    }
  }

  /** Collapsing whitespace keeps every letter, '_', '.', '@' and '-', in order. */
  lemma CollapseKeepsSurvivors(s: string)
    ensures Survivors(CollapseWhitespace(s)) == Survivors(s)
  {
    SurvivorsOfNonSpace(s);
    SurvivorsOfNonSpace(CollapseWhitespace(s));
  }

  /** Collapsing works run by run: a text that ends in a non-space character collapses on its own. */
  lemma {:induction false} CollapseSplit(a: string, b: string)
    requires a == [] || !IsSpace(a[|a| - 1])
    ensures CollapseWhitespace(a + b) == CollapseWhitespace(a) + CollapseWhitespace(b)
    decreases |a|
  {
    if a == [] {
      assert a + b == b;
    } else if IsSpace(a[0]) {
      var a' := DropSpaces(a[1..]);
      DropSpacesSuffix(a[1..]);
      assert a[1..][|a| - 2] == a[|a| - 1];
      assert a' != [];
      assert a'[|a'| - 1] == a[|a| - 1];
      assert (a + b)[1..] == a[1..] + b;
      DropSpacesAppend(a[1..], b);
      CollapseSplit(a', b);
    } else {
      assert (a + b)[1..] == a[1..] + b;
      CollapseSplit(a[1..], b);
    }
  }

  /** A whitespace run in front of a non-space character becomes one space. */
  lemma CollapseRun(sp: string, b: string)
    requires sp != [] && forall i :: 0 <= i < |sp| ==> IsSpace(sp[i])
    requires b == [] || !IsSpace(b[0])
    ensures CollapseWhitespace(sp + b) == " " + CollapseWhitespace(b)
  {
    assert (sp + b)[1..] == sp[1..] + b;
    DropSpacesOfRun(sp[1..], b);
  }

  /** Text without whitespace is left as it is. */
  lemma {:induction false} CollapseKeepsWord(w: string)
    requires forall i :: 0 <= i < |w| ==> !IsSpace(w[i])
    ensures CollapseWhitespace(w) == w
    decreases |w|
  {
    if w != [] {
      CollapseKeepsWord(w[1..]);
    }
  }

  /** A whitespace run between two non-space characters becomes exactly one space. */
  lemma CollapseBetweenWords(a: string, sp: string, b: string)
    requires a == [] || !IsSpace(a[|a| - 1])
    requires sp != [] && forall i :: 0 <= i < |sp| ==> IsSpace(sp[i])
    requires b == [] || !IsSpace(b[0])
    ensures CollapseWhitespace(a + (sp + b)) == CollapseWhitespace(a) + ([' '] + CollapseWhitespace(b))
  {
    CollapseSplit(a, sp + b);
    CollapseRun(sp, b);
  }

  /**
   * What rewrite 2 leaves of the maximal digit run at the front of `s`: one
   * space when a non-word character or the end follows the run, the run
   * itself otherwise.
   */
  function NumberChunk(s: string): (r: string)
    requires s != [] && IsDigit(s[0])
    ensures 0 < |r| <= DigitRun(s)
    ensures r == " " <==> DigitRun(s) == |s| || !IsWord(s[DigitRun(s)])
    ensures r != " " ==> r == s[..DigitRun(s)]
  {
    var n := DigitRun(s);
    if n == |s| || !IsWord(s[n]) then " " else s[..n]
  }

  /**
   * Rewrite 2, `\b\d+\b` to one space, on the rest `s` of a text whose
   * previous character was a word character iff `prevWord`. A match starts
   * at a digit not preceded by a word character and, because `\d+` is
   * greedy and a digit is itself a word character, it covers the whole
   * maximal digit run and succeeds only if a non-word character or the end
   * follows it. Matches are found in the original text, so each decision
   * looks at the input and not at earlier replacements.
   */
  function StripFrom(s: string, prevWord: bool): (r: string)
    decreases |s|
    ensures |r| <= |s|
    ensures OnlyPlainSpaces(s) ==> OnlyPlainSpaces(r)
    ensures s != [] && !IsDigit(s[0]) ==> r != [] && r[0] == s[0]
  {
    if s == [] then []
    else if IsDigit(s[0]) && !prevWord then
      var c := NumberChunk(s);
      assert forall i :: 0 <= i < |c| ==> !IsSpace(c[i]) || c[i] == ' ';
      c + StripFrom(s[DigitRun(s)..], true)
    else
      [s[0]] + StripFrom(s[1..], IsWord(s[0]))
  }

  /** Number stripping removes digits only: every letter, '_', '.', '@' and '-' is kept, in order. */
  lemma {:induction false} StripKeepsSurvivors(s: string, prevWord: bool)
    ensures Survivors(StripFrom(s, prevWord)) == Survivors(s)
    decreases |s|, 1
  {
    if s == [] {
    } else if IsDigit(s[0]) && !prevWord {
      StripKeepsSurvivorsAtNumber(s);
    } else {
      var rest := StripFrom(s[1..], IsWord(s[0]));
      StripKeepsSurvivors(s[1..], IsWord(s[0]));
      assert ([s[0]] + rest)[1..] == rest;
    }
  }

  lemma {:induction false} StripKeepsSurvivorsAtNumber(s: string)
    requires s != [] && IsDigit(s[0])
    ensures Survivors(StripFrom(s, false)) == Survivors(s)
    decreases |s|, 0
  {
    var n := DigitRun(s);
    var c := NumberChunk(s);
    var rest := StripFrom(s[n..], true);
    assert StripFrom(s, false) == c + rest;
    StripKeepsSurvivors(s[n..], true);
    assert forall i :: 0 <= i < |c| ==> !Survives(c[i]);
    assert forall i :: 0 <= i < n ==> !Survives(s[..n][i]);
    NoSurvivors(c);
    NoSurvivors(s[..n]);
    SurvivorsAppend(c, rest);
    SurvivorsAppend(s[..n], s[n..]);
    TwoParts(s, n);
  }

  lemma TwoParts(z: string, k: nat)
    requires k <= |z|
    ensures z == z[..k] + z[k..]
  {
  }

  lemma ConsAppend(x: string, y: string)
    requires x != []
    ensures [x[0]] + (x[1..] + y) == x + y
  {
  }

  /** A character that starts no match is copied, and sets the context for the next one. */
  lemma StripStep(s: string, prevWord: bool)
    requires s != [] && (prevWord || !IsDigit(s[0]))
    ensures StripFrom(s, prevWord) == [s[0]] + StripFrom(s[1..], IsWord(s[0]))
  {
  }

  /** A digit run right after a word character is copied as it is. */
  lemma {:induction false} StripKeepsRunAfterWord(d: string, b: string)
    requires forall i :: 0 <= i < |d| ==> IsDigit(d[i])
    ensures StripFrom(d + b, true) == d + StripFrom(b, true)
    decreases |d|
  {
    if d == [] {
      assert d + b == b;
    } else {
      var s := d + b;
      assert s[0] == d[0] && IsWord(d[0]);
      assert s[1..] == d[1..] + b;
      StripStep(s, true);
      StripKeepsRunAfterWord(d[1..], b);
      ConsAppend(d, StripFrom(b, true));
    }
  }

  /**
   * A maximal digit run is kept as it is when a word character stands on
   * either side of it, and replaced by one space otherwise.
   */
  lemma StripDigitRun(d: string, b: string, prevWord: bool)
    requires d != [] && forall i :: 0 <= i < |d| ==> IsDigit(d[i])
    requires b == [] || !IsDigit(b[0])
    ensures prevWord || (b != [] && IsWord(b[0])) ==> StripFrom(d + b, prevWord) == d + StripFrom(b, true)
    ensures !prevWord && (b == [] || !IsWord(b[0])) ==> StripFrom(d + b, prevWord) == " " + StripFrom(b, false)
  {
    if prevWord {
      StripKeepsRunAfterWord(d, b);
    } else {
      var s := d + b;
      DigitRunOfDigitsThen(d, b);
      assert s[..|d|] == d && s[|d|..] == b;
      assert b != [] ==> s[|d|] == b[0];
      assert StripFrom(b, true) == StripFrom(b, false);
    }
  }

  /** Rewrite 2 on a whole text. */
  function StripNumbers(s: string): string {
    StripFrom(s, false)
  }

  /** The characters rewrite 3 keeps: word characters, whitespace, '.', '@' and '-'. */
  predicate Kept(c: char) {
    IsWord(c) || IsSpace(c) || c == '.' || c == '@' || c == '-'
  }

  function Scrub(c: char): (r: char)
    ensures Kept(r)
    ensures Kept(c) ==> r == c
    ensures !Kept(c) ==> r == ' '
  {
    if Kept(c) then c else ' '
  }

  /** Rewrite 3, `[^\w\s\.@-]` to one space, character by character. */
  function ReplaceDisallowed(s: string): (r: string)
    ensures |r| == |s|
    ensures forall i :: 0 <= i < |s| ==> r[i] == Scrub(s[i])
  {
    MapChars(Scrub, s)
  }

  /** Rewrite 3 keeps every letter, '_', '.', '@' and '-' in place. */
  lemma {:induction false} ScrubKeepsSurvivors(s: string)
    ensures Survivors(ReplaceDisallowed(s)) == Survivors(s)
    decreases |s|
  {
    if s != [] {
      assert ReplaceDisallowed(s)[1..] == ReplaceDisallowed(s[1..]);
      ScrubKeepsSurvivors(s[1..]);
    }
  }

  /** `string.Trim`: drops leading and trailing whitespace. */
  function Trim(s: string): (r: string)
    ensures |r| <= |s|
    ensures r == [] || (!IsSpace(r[0]) && !IsSpace(r[|r| - 1]))
    ensures SpaceRun(s) + |r| <= |s| && r == s[SpaceRun(s)..SpaceRun(s) + |r|]
    ensures forall i :: SpaceRun(s) + |r| <= i < |s| ==> IsSpace(s[i])
  {
    var t := s[SpaceRun(s)..];
    t[..|t| - TrailingSpaceRun(t)]
  }

  /** Trimming removes whitespace only. */
  lemma TrimKeepsSurvivors(s: string)
    ensures Survivors(Trim(s)) == Survivors(s)
  {
    var lead, tail := TrimSplit(s);
    assert forall i :: 0 <= i < |lead| ==> !Survives(lead[i]);
    assert forall i :: 0 <= i < |tail| ==> !Survives(tail[i]);
    NoSurvivors(lead);
    NoSurvivors(tail);
    SurvivorsAppend(lead, Trim(s) + tail);
    SurvivorsAppend(Trim(s), tail);
  }

  /** The characters a cleaned resume can hold. */
  predicate CleanChar(c: char) {
    IsWord(c) || c == ' ' || c == '.' || c == '@' || c == '-'
  }

  /**
   * CleanResumeText. The .NET strings here are never null; an empty one is
   * returned as it is.
   */
  function CleanResumeText(s: string): (r: string)
    ensures s == [] ==> r == s
    ensures |r| <= |s|
    ensures forall i :: 0 <= i < |r| ==> CleanChar(r[i])
    ensures r == [] || (r[0] != ' ' && r[|r| - 1] != ' ')
  {
    if s == [] then s
    else
      var x := StripNumbers(CollapseWhitespace(s));
      var z := ReplaceDisallowed(x);
      assert forall i :: 0 <= i < |z| ==> CleanChar(z[i]);
      Trim(z)
  }

  /** A cleaned text is whitespace-only exactly when it is empty. */
  lemma CleanedBlankIffEmpty(s: string)
    ensures IsNullOrWhiteSpace(CleanResumeText(s)) <==> CleanResumeText(s) == []
  {
  }

  // ---------------------------------------------------------------------
  // Number stripping: a surviving digit run always touches a word character

  lemma AppendAssoc(a: string, b: string, c: string)
    ensures a + (b + c) == (a + b) + c
  {
  }

  lemma {:induction false} DigitRunOfDigitsThen(a: string, b: string)
    requires forall i :: 0 <= i < |a| ==> IsDigit(a[i])
    requires b == [] || !IsDigit(b[0])
    ensures DigitRun(a + b) == |a|
    decreases |a|
  {
    if a != [] {
      assert (a + b)[1..] == a[1..] + b;
      DigitRunOfDigitsThen(a[1..], b);
    } else {
      assert a + b == b;
    }
  }

  /** Stripping twice is stripping once. */
  lemma {:induction false} StripIdempotent(s: string, p: bool)
    ensures StripFrom(StripFrom(s, p), p) == StripFrom(s, p)
    decreases |s|, 1
  {
    if s == [] {
    } else if IsDigit(s[0]) && !p {
      StripIdempotentAtNumber(s, p);
    } else {
      var t := StripFrom(s[1..], IsWord(s[0]));
      StripIdempotent(s[1..], IsWord(s[0]));
      assert ([s[0]] + t)[1..] == t;
    }
  }

  lemma {:induction false} StripIdempotentAtNumber(s: string, p: bool)
    requires s != [] && IsDigit(s[0]) && !p
    ensures StripFrom(StripFrom(s, p), p) == StripFrom(s, p)
    decreases |s|, 0
  {
    var n := DigitRun(s);
    var c := NumberChunk(s);
    var t := StripFrom(s[n..], true);
    StripIdempotent(s[n..], true);
    var r := c + t;
    assert StripFrom(s, p) == r;
    if c == " " {
      assert r[1..] == t;
      assert t == [] || !IsDigit(t[0]);
      assert StripFrom(r, p) == [' '] + StripFrom(t, false);
    } else {
      assert t[0] == s[n];
      DigitRunOfDigitsThen(c, t);
      assert r[..n] == c && r[n..] == t;
      assert NumberChunk(r) == c;
    }
  }

  /** `f` maps digits to digits, word characters to word characters and nothing else to either. */
  ghost predicate KeepsClasses(f: char -> char) {
    forall c :: IsDigit(f(c)) == IsDigit(c) && IsWord(f(c)) == IsWord(c)
  }

  lemma {:induction false} DigitRunMapped(f: char -> char, s: string)
    requires KeepsClasses(f)
    ensures DigitRun(MapChars(f, s)) == DigitRun(s)
    decreases |s|
  {
    if s != [] {
      assert MapChars(f, s)[1..] == MapChars(f, s[1..]);
      DigitRunMapped(f, s[1..]);
    }
  }

  lemma MapAppend(f: char -> char, a: string, b: string)
    ensures MapChars(f, a + b) == MapChars(f, a) + MapChars(f, b)
  {
  }

  /** Stripping commutes with a character map that keeps the character classes and the space. */
  lemma {:induction false} StripMapped(f: char -> char, s: string, p: bool)
    requires KeepsClasses(f) && f(' ') == ' '
    ensures StripFrom(MapChars(f, s), p) == MapChars(f, StripFrom(s, p))
    decreases |s|, 1
  {
    if s != [] {
      if IsDigit(s[0]) && !p {
        StripMappedAtNumber(f, s, p);
      } else {
        var m := MapChars(f, s);
        assert m[1..] == MapChars(f, s[1..]);
        StripMapped(f, s[1..], IsWord(s[0]));
        var rest := StripFrom(s[1..], IsWord(s[0]));
        MapAppend(f, [s[0]], rest);
      }
    }
  }

  lemma {:induction false} StripMappedAtNumber(f: char -> char, s: string, p: bool)
    requires KeepsClasses(f) && f(' ') == ' '
    requires s != [] && IsDigit(s[0]) && !p
    ensures StripFrom(MapChars(f, s), p) == MapChars(f, StripFrom(s, p))
    decreases |s|, 0
  {
    var m := MapChars(f, s);
    var n := DigitRun(s);
    DigitRunMapped(f, s);
    assert m[n..] == MapChars(f, s[n..]);
    StripMapped(f, s[n..], true);
    var rest := StripFrom(s[n..], true);
    var c := NumberChunk(s);
    if c == " " {
      assert NumberChunk(m) == " ";
      assert MapChars(f, c) == " ";
    } else {
      assert NumberChunk(m) == m[..n] == MapChars(f, c);
    }
    MapAppend(f, c, rest);
  }

  /** A text is split in two before a non-word character: the halves strip separately. */
  lemma {:induction false} StripSplit(a: string, b: string, p: bool)
    requires b == [] || !IsWord(b[0])
    ensures StripFrom(a + b, p) == StripFrom(a, p) + StripFrom(b, false)
    decreases |a|, 1
  {
    if a == [] {
      assert a + b == b;
    } else if IsDigit(a[0]) && !p {
      StripSplitAtNumber(a, b, p);
    } else {
      var ab := a + b;
      assert ab[1..] == a[1..] + b;
      StripSplit(a[1..], b, IsWord(a[0]));
      AppendAssoc([a[0]], StripFrom(a[1..], IsWord(a[0])), StripFrom(b, false));
    }
  }

  lemma {:induction false} StripSplitAtNumber(a: string, b: string, p: bool)
    requires b == [] || !IsWord(b[0])
    requires a != [] && IsDigit(a[0]) && !p
    ensures StripFrom(a + b, p) == StripFrom(a, p) + StripFrom(b, false)
    decreases |a|, 0
  {
    var ab := a + b;
    var n := DigitRun(a);
    DigitRunOfDigitsThen(a[..n], a[n..] + b);
    assert ab == a[..n] + (a[n..] + b);
    assert ab[n..] == a[n..] + b;
    StripSplit(a[n..], b, true);
    assert NumberChunk(ab) == NumberChunk(a) by {
      if n < |a| {
        assert ab[n] == a[n] && ab[..n] == a[..n];
      }
    }
    AppendAssoc(NumberChunk(a), StripFrom(a[n..], true), StripFrom(b, false));
  }

  /** Leading whitespace is copied through and leaves the context at "no word before". */
  lemma {:induction false} StripAfterSpaces(sp: string, w: string)
    requires forall i :: 0 <= i < |sp| ==> IsSpace(sp[i])
    ensures StripFrom(sp + w, false) == sp + StripFrom(w, false)
    decreases |sp|
  {
    if sp == [] {
      assert sp + w == w;
    } else {
      var rest := sp[1..] + w;
      assert (sp + w)[1..] == rest;
      assert StripFrom(sp + w, false) == [sp[0]] + StripFrom(rest, false);
      StripAfterSpaces(sp[1..], w);
      AppendAssoc([sp[0]], sp[1..], StripFrom(w, false));
      assert [sp[0]] + sp[1..] == sp;
    }
  }

  lemma {:induction false} StripSpaces(sp: string, p: bool)
    requires forall i :: 0 <= i < |sp| ==> IsSpace(sp[i])
    ensures StripFrom(sp, p) == sp
    decreases |sp|
  {
    if sp != [] {
      StripSpaces(sp[1..], false);
      assert [sp[0]] + sp[1..] == sp;
    }
  }

  /** Whitespace around a text does not change whether stripping leaves the text alone. */
  lemma StrippedInsideSpaces(lead: string, core: string, tail: string)
    requires forall i :: 0 <= i < |lead| ==> IsSpace(lead[i])
    requires forall i :: 0 <= i < |tail| ==> IsSpace(tail[i])
    requires StripNumbers(lead + (core + tail)) == lead + (core + tail)
    ensures StripNumbers(core) == core
  {
    StripAfterSpaces(lead, core + tail);
    StripSplit(core, tail, false);
    StripSpaces(tail, false);
    var sc := StripFrom(core, false);
    assert lead + (sc + tail) == lead + (core + tail);
    assert (lead + (sc + tail))[|lead|..] == sc + tail;
    assert (lead + (core + tail))[|lead|..] == core + tail;
    assert sc + tail == core + tail;
    assert (sc + tail)[..|sc|] == sc;
    assert (core + tail)[..|core|] == core;
  }

  /** Trimming keeps a text that stripping leaves alone a text that stripping leaves alone. */
  lemma TrimKeepsStripped(z: string)
    requires StripNumbers(z) == z
    ensures StripNumbers(Trim(z)) == Trim(z)
  {
    var lead, tail := TrimSplit(z);
    StrippedInsideSpaces(lead, Trim(z), tail);
  }

  /**
   * What survives cleaning: every letter, '_', '.', '@' and '-' of the
   * input, in order, and nothing else of those; the rewrites only replace
   * whitespace, digits and other characters.
   */
  lemma CleanKeepsSurvivors(s: string)
    ensures Survivors(CleanResumeText(s)) == Survivors(s)
  {
    if s != [] {
      var y := CollapseWhitespace(s);
      var x := StripNumbers(y);
      CollapseKeepsSurvivors(s);
      StripKeepsSurvivors(y, false);
      ScrubKeepsSurvivors(x);
      TrimKeepsSurvivors(ReplaceDisallowed(x));
    }
  }

  /** A text is its trimmed core with whitespace on either side. */
  lemma TrimSplit(z: string) returns (lead: string, tail: string)
    ensures z == lead + (Trim(z) + tail)
    ensures forall i :: 0 <= i < |lead| ==> IsSpace(lead[i])
    ensures forall i :: 0 <= i < |tail| ==> IsSpace(tail[i])
  {
    var k := SpaceRun(z);
    var core := Trim(z);
    lead, tail := z[..k], z[k + |core|..];
    assert core == z[k..k + |core|];
    assert forall i :: 0 <= i < |lead| ==> lead[i] == z[i];
    assert forall i :: 0 <= i < |tail| ==> tail[i] == z[k + |core| + i];
    ThreeParts(z, k, k + |core|);
  }

  lemma ThreeParts(z: string, k: nat, m: nat)
    requires k <= m <= |z|
    ensures z == z[..k] + (z[k..m] + z[m..])
  {
  }

  /** Cleaning removes every standalone number: stripping the cleaned text changes nothing. */
  lemma CleanIsStripped(s: string)
    ensures StripNumbers(CleanResumeText(s)) == CleanResumeText(s)
  {
    if s != [] {
      var y := CollapseWhitespace(s);
      var x := StripNumbers(y);
      var z := ReplaceDisallowed(x);
      StripMapped(Scrub, x, false);
      StripIdempotent(y, false);
      TrimKeepsStripped(z);
    }
  }

  /**
   * The shape `\b\d+\b` matches at `i`: a maximal run of digits with a
   * non-word character or an end of the text on each side.
   */
  predicate StandaloneNumberAt(s: string, i: int) {
    && 0 <= i < |s| && IsDigit(s[i])
    && (i == 0 || !IsWord(s[i - 1]))
    && (i + DigitRun(s[i..]) == |s| || !IsWord(s[i + DigitRun(s[i..])]))
  }

  /** In a text that stripping leaves alone, no number stands alone. */
  lemma {:induction false} StrippedHasNoStandalone(s: string, p: bool, i: int)
    requires StripFrom(s, p) == s
    requires 0 <= i < |s| && IsDigit(s[i])
    requires i == 0 ==> !p
    requires i > 0 ==> !IsWord(s[i - 1])
    ensures i + DigitRun(s[i..]) < |s| && IsWord(s[i + DigitRun(s[i..])])
    decreases |s|, 1
  {
    if IsDigit(s[0]) && !p {
      StrippedHasNoStandaloneAtNumber(s, p, i);
    } else {
      var rest := StripFrom(s[1..], IsWord(s[0]));
      assert [s[0]] + rest == s;
      assert rest == s[1..];
      assert s[1..][i - 1..] == s[i..];
      StrippedHasNoStandalone(s[1..], IsWord(s[0]), i - 1);
    }
  }

  lemma {:induction false} StrippedHasNoStandaloneAtNumber(s: string, p: bool, i: int)
    requires StripFrom(s, p) == s
    requires 0 <= i < |s| && IsDigit(s[i])
    requires i > 0 ==> !IsWord(s[i - 1])
    requires s != [] && IsDigit(s[0]) && !p
    ensures i + DigitRun(s[i..]) < |s| && IsWord(s[i + DigitRun(s[i..])])
    decreases |s|, 0
  {
    var n := DigitRun(s);
    var c := NumberChunk(s);
    var rest := StripFrom(s[n..], true);
    assert c + rest == s;
    if c == " " {
      assert false;
    }
    assert c == s[..n];
    assert rest == s[n..];
    if i == 0 {
      assert s[i..] == s;
    } else if i >= n {
      assert i != n;
      assert s[n..][i - n..] == s[i..];
      StrippedHasNoStandalone(s[n..], true, i - n);
    }
  }

  /** No maximal digit run of a cleaned resume, lower-cased or not, has non-word characters or ends on both sides. */
  lemma CleanedHasNoStandaloneNumber(s: string, i: int)
    ensures !StandaloneNumberAt(CleanResumeText(s), i)
    ensures !StandaloneNumberAt(ToLower(CleanResumeText(s)), i)
  {
    CleanIsStripped(s);
    StrippedNoStandaloneEitherCase(CleanResumeText(s), i);
  }

  lemma StrippedNoStandaloneEitherCase(c: string, i: int)
    requires StripNumbers(c) == c
    ensures !StandaloneNumberAt(c, i)
    ensures !StandaloneNumberAt(ToLower(c), i)
  {
    LowerKeepsStripped(c);
    if StandaloneNumberAt(c, i) {
      StrippedHasNoStandalone(c, false, i);
    }
    if StandaloneNumberAt(ToLower(c), i) {
      StrippedHasNoStandalone(ToLower(c), false, i);
    }
  }

  /** Lower-casing keeps a stripped text stripped. */
  lemma LowerKeepsStripped(c: string)
    requires StripNumbers(c) == c
    ensures StripNumbers(ToLower(c)) == ToLower(c)
  {
    StripMapped(LowerChar, c, false);
  }

  /** "c#" and "c++" can never occur in a cleaned, lower-cased resume: '#' and '+' do not survive. */
  lemma CleanedLacksSharpAndPlus(s: string)
    ensures !Contains(ToLower(CleanResumeText(s)), "c#")
    ensures !Contains(ToLower(CleanResumeText(s)), "c++")
  {
    var t := ToLower(CleanResumeText(s));
    assert forall i :: 0 <= i < |t| ==> t[i] != '#' && t[i] != '+';
    NotContainsAbsentChar(t, "c#", 1);
    NotContainsAbsentChar(t, "c++", 1);
  }
}
