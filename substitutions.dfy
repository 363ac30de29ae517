/** What the substitutions of `pre_process` do to runs of characters, proved
    against run-by-run reference definitions, and what they keep out of
    their output. */
module Substitutions {
  import opened Text
  import opened Patterns

  // ---------------------------------------------------------------------
  // The scan in general

  /** Where the pattern does not match, the scan copies one character. */
  lemma SubFromSkip(p: Pattern, s: string, i: nat)
    requires i < |s| && MatchLen(p, s, i) == 0
    ensures SubFrom(p, s, i) == [s[i]] + SubFrom(p, s, i + 1)
  {
    assert Emit(p, s, i) == [s[i]] && Resume(p, s, i) == i + 1;
  }

  /** Where it matches, the scan emits the replacement and resumes after
      the match. */
  lemma SubFromTake(p: Pattern, s: string, i: nat)
    requires i < |s| && MatchLen(p, s, i) > 0
    ensures SubFrom(p, s, i) == Replacement(p) + SubFrom(p, s, i + MatchLen(p, s, i))
  {
    var k := Resume(p, s, i);
    assert SubFrom(p, s, i) == Emit(p, s, i) + SubFrom(p, s, k);
    assert k == i + MatchLen(p, s, i);
  }

  lemma ConsSlice(s: string, i: nat, e: nat, x: string)
    requires i < e <= |s|
    ensures [s[i]] + (s[i + 1..e] + x) == s[i..e] + x
  {
    assert s[i..e] == [s[i]] + s[i + 1..e];
  }

  /** Where the pattern matches at no position from i up to e, the scan
      copies s[i..e]. */
  lemma {:induction false} SubFromCopies(p: Pattern, s: string, i: nat, e: nat)
    requires i <= e <= |s|
    requires forall j {:trigger MatchLen(p, s, j)} :: i <= j < e ==> MatchLen(p, s, j) == 0
    ensures SubFrom(p, s, i) == s[i..e] + SubFrom(p, s, e)
    decreases e - i
  {
    if i < e {
      SubFromSkip(p, s, i);
      SubFromCopies(p, s, i + 1, e);
      ConsSlice(s, i, e, SubFrom(p, s, e));
    }
  }

  /** Where the pattern matches nowhere, `re.sub` returns its input. */
  lemma SubFromUnchanged(p: Pattern, s: string, i: nat)
    requires i <= |s|
    requires forall j :: i <= j < |s| ==> MatchLen(p, s, j) == 0
    ensures SubFrom(p, s, i) == s[i..]
  {
    SubFromCopies(p, s, i, |s|);
  }

  /** A substitution whose replacement has no character of `cls` leaves
      none in its output, provided the pattern matches at every position
      that holds one; with a class the input lacks, this says that the
      substitution never inserts a character of that class. */
  lemma {:induction false} SubFromAvoids(p: Pattern, s: string, i: nat, cls: CharClass)
    requires i <= |s|
    requires forall k :: 0 <= k < |Replacement(p)| ==> !InClass(Replacement(p)[k], cls)
    requires forall j {:trigger MatchLen(p, s, j)} :: i <= j < |s| && InClass(s[j], cls) ==> MatchLen(p, s, j) > 0
    ensures forall k :: 0 <= k < |SubFrom(p, s, i)| ==> !InClass(SubFrom(p, s, i)[k], cls)
    decreases |s| - i
  {
    if i < |s| {
      var e := Emit(p, s, i);
      var k := Resume(p, s, i);
      assert SubFrom(p, s, i) == e + SubFrom(p, s, k);
      SubFromAvoids(p, s, k, cls);
      assert forall m :: 0 <= m < |e| ==> !InClass(e[m], cls);
    }
  }

  /** No substitution of `pre_process` inserts a character that is neither
      in its input nor in its replacement. */
  lemma SubKeepsOut(p: Pattern, s: string, c: char)
    requires c !in s && c !in Replacement(p)
    ensures c !in Sub(p, s)
  {
    SubFromAvoids(p, s, 0, Same(c));
  }

  // ---------------------------------------------------------------------
  // \s{2,} and [@$%^!~/[\]\-\`]{2,}: runs of a class

  /** Reference: every maximal run of two or more `cls` characters replaced
      by `repl`, a lone one and every other character kept. */
  function CollapseRuns(s: string, i: nat, cls: CharClass, repl: string): string
    requires i <= |s|
    decreases |s| - i
  {
    if i == |s| then []
    else if !InClass(s[i], cls) then [s[i]] + CollapseRuns(s, i + 1, cls, repl)
    else
      var e := Span(s, i, cls);
      (if e - i >= 2 then repl else s[i..e]) + CollapseRuns(s, e, cls, repl)
  }

  /** One step of the reference: a lone character is kept, a run of two or
      more replaced as a whole. */
  lemma CollapseRunsStep(s: string, i: nat, cls: CharClass, repl: string)
    requires i < |s|
    ensures var e := Span(s, i, cls);
            CollapseRuns(s, i, cls, repl) ==
              if InClass(s[i], cls) && e - i >= 2 then repl + CollapseRuns(s, e, cls, repl)
              else [s[i]] + CollapseRuns(s, i + 1, cls, repl)
  {
    var e := Span(s, i, cls);
    if InClass(s[i], cls) && e - i < 2 {
      assert s[i..e] == [s[i]];
    }
  }

  predicate IsRunPattern(p: Pattern, cls: CharClass) {
    (p == Spaces && cls == Whitespace) || (p == SpecialRun && cls == Special)
  }

  lemma RunPatternMatch(p: Pattern, cls: CharClass, s: string, i: nat)
    requires IsRunPattern(p, cls)
    requires i < |s|
    ensures MatchLen(p, s, i) == RunMatch(s, i, cls, 2)
    ensures Replacement(p) == if p == Spaces then " " else "<REGEX>"
  {
  }

  /** One step of the scan with a run pattern: a run of two or more is
      replaced as a whole, any other character copied. */
  lemma RunPatternStep(p: Pattern, cls: CharClass, s: string, i: nat)
    requires IsRunPattern(p, cls)
    requires i < |s|
    ensures var e := Span(s, i, cls);
            SubFrom(p, s, i) ==
              if InClass(s[i], cls) && e - i >= 2 then Replacement(p) + SubFrom(p, s, e)
              else [s[i]] + SubFrom(p, s, i + 1)
  {
    var e := Span(s, i, cls);
    RunPatternMatch(p, cls, s, i);
    if InClass(s[i], cls) && e - i >= 2 {
      assert MatchLen(p, s, i) == e - i;
      SubFromTake(p, s, i);
    } else {
      assert MatchLen(p, s, i) == 0;
      SubFromSkip(p, s, i);
    }
  }

  lemma {:induction false} RunPatternCollapses(p: Pattern, cls: CharClass, s: string, i: nat)
    requires IsRunPattern(p, cls)
    requires i <= |s|
    ensures SubFrom(p, s, i) == CollapseRuns(s, i, cls, Replacement(p))
    decreases |s| - i
  {
    if i < |s| {
      var e := Span(s, i, cls);
      RunPatternStep(p, cls, s, i);
      CollapseRunsStep(s, i, cls, Replacement(p));
      if !InClass(s[i], cls) || e - i < 2 {
        RunPatternCollapses(p, cls, s, i + 1);
      } else {
        RunPatternCollapses(p, cls, s, e);
      }
    }
  }

  /** Line 84: every run of two or more whitespace characters becomes one
      space; a lone whitespace character (a single tab, say) stays as it is. */
  lemma CollapseSpaces(s: string)
    ensures Sub(Spaces, s) == CollapseRuns(s, 0, Whitespace, " ")
  {
    RunPatternCollapses(Spaces, Whitespace, s, 0);
  }

  predicate NoAdjacentPair(r: string, cls: CharClass) {
    forall k :: 0 <= k < |r| - 1 ==> !(InClass(r[k], cls) && InClass(r[k + 1], cls))
  }

  predicate StartsOutside(r: string, cls: CharClass) {
    r == [] || !InClass(r[0], cls)
  }

  lemma NoAdjacentPairAppend(a: string, b: string, cls: CharClass)
    requires NoAdjacentPair(a, cls) && NoAdjacentPair(b, cls)
    requires a == [] || !InClass(a[|a| - 1], cls) || StartsOutside(b, cls)
    ensures NoAdjacentPair(a + b, cls)
  {
    var r := a + b;
    forall k | 0 <= k < |r| - 1
      ensures !(InClass(r[k], cls) && InClass(r[k + 1], cls))
    {
      if k + 1 < |a| {
        assert r[k] == a[k] && r[k + 1] == a[k + 1];
      } else if k >= |a| {
        assert r[k] == b[k - |a|] && r[k + 1] == b[k + 1 - |a|];
      }
    }
  }

  /** After `\s{2,}` → " " no two whitespace characters are adjacent, and
      after the `<REGEX>` substitution no two special characters are. */
  lemma {:induction false} RunPatternLeavesNoPair(p: Pattern, cls: CharClass, s: string, i: nat)
    requires IsRunPattern(p, cls)
    requires i <= |s|
    ensures NoAdjacentPair(SubFrom(p, s, i), cls)
    ensures i == |s| || !InClass(s[i], cls) ==> StartsOutside(SubFrom(p, s, i), cls)
    decreases |s| - i
  {
    if i < |s| {
      var e := Span(s, i, cls);
      RunPatternStep(p, cls, s, i);
      if !InClass(s[i], cls) || e - i < 2 {
        RunPatternLeavesNoPair(p, cls, s, i + 1);
        ConsNoPair(s[i], SubFrom(p, s, i + 1), cls);
      } else {
        RunPatternLeavesNoPair(p, cls, s, e);
        ReplacementNoPair(p, cls, SubFrom(p, s, e));
      }
    }
  }

  /** A character put in front keeps a string free of pairs when it is
      outside the class or the string starts outside it. */
  lemma ConsNoPair(c: char, r: string, cls: CharClass)
    requires NoAdjacentPair(r, cls)
    requires !InClass(c, cls) || StartsOutside(r, cls)
    ensures NoAdjacentPair([c] + r, cls)
    ensures !InClass(c, cls) ==> StartsOutside([c] + r, cls)
  {
    NoAdjacentPairAppend([c], r, cls);
  }

  /** The replacement of a run pattern, put in front of a string that
      starts outside the class, leaves no pair. */
  lemma ReplacementNoPair(p: Pattern, cls: CharClass, r: string)
    requires IsRunPattern(p, cls)
    requires NoAdjacentPair(r, cls) && StartsOutside(r, cls)
    ensures NoAdjacentPair(Replacement(p) + r, cls)
  {
    var repl := if p == Spaces then " " else "<REGEX>";
    assert Replacement(p) == repl;
    NoAdjacentPairAppend(repl, r, cls);
  }

  /** A string with no two adjacent whitespace characters passes the
      whitespace step unchanged. */
  lemma SpacesKeepSingles(s: string)
    requires NoAdjacentPair(s, Whitespace)
    ensures Sub(Spaces, s) == s
  {
    forall j | 0 <= j < |s|
      ensures MatchLen(Spaces, s, j) == 0
    {
      assert j + 1 < |s| ==> !(InClass(s[j], Whitespace) && InClass(s[j + 1], Whitespace));
    }
    SubFromUnchanged(Spaces, s, 0);
  }

  /** The characters of s that are not in `cls`, in order. */
  function Outside(s: string, cls: CharClass): (r: string)
    ensures |r| <= |s|
    ensures forall k :: 0 <= k < |r| ==> !InClass(r[k], cls)
  {
    if s == [] then []
    else (if InClass(s[0], cls) then [] else [s[0]]) + Outside(s[1..], cls)
  }

  lemma {:induction false} OutsideAppend(a: string, b: string, cls: CharClass)
    ensures Outside(a + b, cls) == Outside(a, cls) + Outside(b, cls)
  {
    if a == [] {
      assert a + b == b;
    } else {
      HeadOfAppend(a, b);
      OutsideAppend(a[1..], b, cls);
      OutsideCons(a + b, cls);
      OutsideCons(a, cls);
      var head := if InClass(a[0], cls) then [] else [a[0]];
      AppendAssoc(head, Outside(a[1..], cls), Outside(b, cls));
    }
  }

  lemma OutsideCons(s: string, cls: CharClass)
    requires s != []
    ensures Outside(s, cls) == (if InClass(s[0], cls) then [] else [s[0]]) + Outside(s[1..], cls)
  {
  }

  lemma {:induction false} OutsideOfRun(s: string, i: nat, j: nat, cls: CharClass)
    requires i <= j <= |s|
    requires forall k :: i <= k < j ==> InClass(s[k], cls)
    ensures Outside(s[i..j], cls) == []
    decreases j - i
  {
    if i < j {
      assert s[i..j][1..] == s[i + 1..j];
      OutsideOfRun(s, i + 1, j, cls);
    }
  }

  /** The whitespace step changes only whitespace: every other character
      survives, in order. */
  lemma {:induction false} SpacesKeepText(s: string, i: nat)
    requires i <= |s|
    ensures Outside(SubFrom(Spaces, s, i), Whitespace) == Outside(s[i..], Whitespace)
    decreases |s| - i
  {
    if i < |s| {
      var e := Span(s, i, Whitespace);
      RunPatternStep(Spaces, Whitespace, s, i);
      if !InClass(s[i], Whitespace) || e - i < 2 {
        SpacesKeepText(s, i + 1);
        OutsideKeepsChar(s, i, SubFrom(Spaces, s, i + 1), Whitespace);
      } else {
        SpacesKeepText(s, e);
        OutsideSpaceForRun(s, i, e, SubFrom(Spaces, s, e));
      }
    }
  }

  /** Copying s[i] keeps the characters of s[i..] outside `cls`. */
  lemma OutsideKeepsChar(s: string, i: nat, rest: string, cls: CharClass)
    requires i < |s|
    requires Outside(rest, cls) == Outside(s[i + 1..], cls)
    ensures Outside([s[i]] + rest, cls) == Outside(s[i..], cls)
  {
    assert s[i..i + 1] == [s[i]];
    OutsidePieces([s[i]], rest, s, i, i + 1, cls);
  }

  /** Replacing a whitespace run s[i..e] by one space keeps the characters
      of s[i..] outside whitespace. */
  lemma OutsideSpaceForRun(s: string, i: nat, e: nat, rest: string)
    requires i <= e <= |s|
    requires forall k {:trigger InClass(s[k], Whitespace)} :: i <= k < e ==> InClass(s[k], Whitespace)
    requires Outside(rest, Whitespace) == Outside(s[e..], Whitespace)
    ensures Outside(Replacement(Spaces) + rest, Whitespace) == Outside(s[i..], Whitespace)
  {
    assert Replacement(Spaces) == " ";
    OutsideOfRun(s, i, e, Whitespace);
    assert Outside(" ", Whitespace) == [];
    OutsidePieces(" ", rest, s, i, e, Whitespace);
  }

  /** Replacing s[i..j] by a piece with the same characters outside `cls`
      keeps the characters of s[i..] outside `cls`. */
  lemma OutsidePieces(piece: string, rest: string, s: string, i: nat, j: nat, cls: CharClass)
    requires i <= j <= |s|
    requires Outside(piece, cls) == Outside(s[i..j], cls)
    requires Outside(rest, cls) == Outside(s[j..], cls)
    ensures Outside(piece + rest, cls) == Outside(s[i..], cls)
  {
    calc {
      Outside(piece + rest, cls);
      { OutsideAppend(piece, rest, cls); }
      Outside(piece, cls) + Outside(rest, cls);
      Outside(s[i..j], cls) + Outside(s[j..], cls);
      { OutsideAppend(s[i..j], s[j..], cls); }
      Outside(s[i..j] + s[j..], cls);
      { assert s[i..j] + s[j..] == s[i..]; }
      Outside(s[i..], cls);
    }
  }

  // ---------------------------------------------------------------------
  // (.)\1{2,}: runs of one character

  /** Reference: every maximal run of three or more copies of one character
      (other than a newline) replaced by `<REPETITIVE>`, shorter runs kept. */
  function CollapseRepeats(s: string, i: nat): string
    requires i <= |s|
    decreases |s| - i
  {
    if i == |s| then []
    else
      var e := Span(s, i, Same(s[i]));
      (if e - i >= 3 && s[i] != '\n' then "<REPETITIVE>" else s[i..e]) + CollapseRepeats(s, e)
  }

  /** A run the pattern does not take is copied character by character. */
  lemma ShortRunCopied(s: string, i: nat, e: nat, c: char)
    requires i < e <= |s|
    requires s[i] == c && e == Span(s, i, Same(c))
    requires c == '\n' || e - i < 3
    ensures SubFrom(Repetition, s, i) == s[i..e] + SubFrom(Repetition, s, e)
  {
    forall j | i <= j < e
      ensures MatchLen(Repetition, s, j) == 0
    {
      SpanFrom(s, i, j, Same(c));
    }
    SubFromCopies(Repetition, s, i, e);
  }

  lemma {:induction false} RepetitionCollapses(s: string, i: nat)
    requires i <= |s|
    ensures SubFrom(Repetition, s, i) == CollapseRepeats(s, i)
    decreases |s| - i
  {
    if i < |s| {
      RepetitionStep(s, i);
      RepetitionCollapses(s, Span(s, i, Same(s[i])));
    }
  }

  /** One run of the scan with `(.)\1{2,}`: the run is replaced as a whole
      or copied. */
  lemma RepetitionStep(s: string, i: nat)
    requires i < |s|
    ensures var e := Span(s, i, Same(s[i]));
            SubFrom(Repetition, s, i) ==
              (if e - i >= 3 && s[i] != '\n' then "<REPETITIVE>" else s[i..e]) + SubFrom(Repetition, s, e)
  {
    var e := Span(s, i, Same(s[i]));
    if e - i >= 3 && s[i] != '\n' {
      assert MatchLen(Repetition, s, i) == e - i;
      SubFromTake(Repetition, s, i);
    } else {
      ShortRunCopied(s, i, e, s[i]);
    }
  }

  /** Line 94: each maximal run of three or more identical characters
      becomes exactly `<REPETITIVE>`; runs of one or two are unchanged. */
  lemma CollapseRepetitions(s: string)
    ensures Sub(Repetition, s) == CollapseRepeats(s, 0)
  {
    RepetitionCollapses(s, 0);
  }

  // ---------------------------------------------------------------------
  // [@$%^!~/[\]\-\`]{2,} then [@$%^!~/[\]\-\`]

  /** Reference for the single-character substitution: each special
      character becomes `<SPECIAL>`. */
  function EachSpecial(s: string): (r: string)
    ensures forall k :: 0 <= k < |r| ==> !IsSpecial(r[k])
  {
    if s == [] then []
    else (if IsSpecial(s[0]) then "<SPECIAL>" else [s[0]]) + EachSpecial(s[1..])
  }

  lemma {:induction false} EachSpecialAppend(a: string, b: string)
    ensures EachSpecial(a + b) == EachSpecial(a) + EachSpecial(b)
  {
    if a == [] {
      assert a + b == b;
    } else {
      var head := if IsSpecial(a[0]) then "<SPECIAL>" else [a[0]];
      assert (a + b)[0] == a[0];
      assert (a + b)[1..] == a[1..] + b;
      EachSpecialAppend(a[1..], b);
      calc {
        EachSpecial(a + b);
        head + EachSpecial(a[1..] + b);
        head + (EachSpecial(a[1..]) + EachSpecial(b));
        (head + EachSpecial(a[1..])) + EachSpecial(b);
      }
    }
  }

  lemma {:induction false} SpecialCharIsEachSpecial(s: string, i: nat)
    requires i <= |s|
    ensures SubFrom(SpecialChar, s, i) == EachSpecial(s[i..])
    decreases |s| - i
  {
    if i < |s| {
      SpecialCharIsEachSpecial(s, i + 1);
      assert s[i..][1..] == s[i + 1..];
    }
  }

  /** Reference for lines 97-99 together: a maximal run of two or more
      special characters becomes one `<REGEX>`, an isolated one `<SPECIAL>`. */
  function MarkSpecials(s: string, i: nat): string
    requires i <= |s|
    decreases |s| - i
  {
    if i == |s| then []
    else if !IsSpecial(s[i]) then [s[i]] + MarkSpecials(s, i + 1)
    else
      var e := Span(s, i, Special);
      (if e - i >= 2 then "<REGEX>" else "<SPECIAL>") + MarkSpecials(s, e)
  }

  lemma {:induction false} EachSpecialOfCollapsed(s: string, i: nat)
    requires i <= |s|
    ensures EachSpecial(CollapseRuns(s, i, Special, "<REGEX>")) == MarkSpecials(s, i)
    decreases |s| - i
  {
    if i < |s| {
      var e := Span(s, i, Special);
      if !IsSpecial(s[i]) {
        EachSpecialCons(s[i], CollapseRuns(s, i + 1, Special, "<REGEX>"));
        EachSpecialOfCollapsed(s, i + 1);
      } else if e - i >= 2 {
        EachSpecialAppend("<REGEX>", CollapseRuns(s, e, Special, "<REGEX>"));
        NoSpecialInRegex();
        EachSpecialOfCollapsed(s, e);
      } else {
        assert s[i..e] == [s[i]];
        EachSpecialCons(s[i], CollapseRuns(s, e, Special, "<REGEX>"));
        EachSpecialOfCollapsed(s, e);
      }
    }
  }

  lemma EachSpecialCons(c: char, rest: string)
    ensures EachSpecial([c] + rest) == (if IsSpecial(c) then "<SPECIAL>" else [c]) + EachSpecial(rest)
  {
    assert ([c] + rest)[1..] == rest;
  }

  lemma {:induction false} EachSpecialUnchanged(s: string)
    requires forall k :: 0 <= k < |s| ==> !IsSpecial(s[k])
    ensures EachSpecial(s) == s
  {
    if s != [] {
      EachSpecialUnchanged(s[1..]);
    }
  }

  lemma NoSpecialInRegex()
    ensures EachSpecial("<REGEX>") == "<REGEX>"
  {
    EachSpecialUnchanged("<REGEX>");
  }

  /** Lines 97-99: after both substitutions every maximal run of two or more
      special characters is one `<REGEX>`, every isolated one a `<SPECIAL>`,
      and no special character is left. */
  lemma SpecialsReplaced(s: string)
    ensures Sub(SpecialChar, Sub(SpecialRun, s)) == MarkSpecials(s, 0)
    ensures forall k :: 0 <= k < |Sub(SpecialChar, Sub(SpecialRun, s))| ==>
              !IsSpecial(Sub(SpecialChar, Sub(SpecialRun, s))[k])
  {
    var t := Sub(SpecialRun, s);
    RunPatternCollapses(SpecialRun, Special, s, 0);
    SpecialCharIsEachSpecial(t, 0);
    assert t[0..] == t;
    EachSpecialOfCollapsed(s, 0);
  }
}
