/** The regular-expression substitutions of `AutoEncoder.pre_process`
    (utils/scripts/prediction.py), over ASCII.

    `re.sub(pattern, repl, s)` scans s from the left: at the current position
    it asks for the leftmost-first match of the pattern; a match is replaced
    and the scan resumes at its end, otherwise the character is copied and the
    scan moves on by one. Look-arounds and `\b` always look at the original s,
    never at replacements already made. `MatchLen(p, s, i)` gives the length of
    the match of pattern p at position i of s (0 when there is none; none of
    these patterns matches the empty string) and `SubFrom` is the scan. Each
    match function works out, for its pattern, which alternative Python's
    backtracking matcher settles on. */
module Patterns {
  import opened Text

  /** The class `[@$%^!~/[\]\-\`]` of the last two substitutions. */
  predicate IsSpecial(c: char) {
    c == '@' || c == '$' || c == '%' || c == '^' || c == '!' || c == '~' || c == '/'
    || c == '[' || c == ']' || c == '-' || c == '`'
  }

  /** The class `[@$%^!~/[\]\\` ]` around a `<SINGLE>` character. */
  predicate IsSingleContext(c: char) {
    c == '@' || c == '$' || c == '%' || c == '^' || c == '!' || c == '~' || c == '/'
    || c == '[' || c == ']' || c == '\\' || c == '`' || c == ' '
  }

  datatype CharClass =
    | Digit | Word | Letter | EmailLocal | EmailDomain | Whitespace | Special
    | Same(c: char)

  predicate InClass(c: char, cls: CharClass) {
    match cls
    case Digit => IsDigit(c)
    case Word => IsWord(c)
    case Letter => IsAsciiLetter(c)
    case EmailLocal => IsAsciiLetter(c) || IsDigit(c) || c in "._%+-"
    case EmailDomain => IsAsciiLetter(c) || IsDigit(c) || c == '.' || c == '-'
    case Whitespace => IsSpace(c)
    case Special => IsSpecial(c)
    case Same(d) => c == d
  }

  /** End of the longest run of `cls` characters that starts at i. */
  function Span(s: string, i: nat, cls: CharClass): (j: nat)
    requires i <= |s|
    ensures i <= j <= |s|
    ensures forall k {:trigger InClass(s[k], cls)} :: i <= k < j ==> InClass(s[k], cls)
    ensures j > i ==> InClass(s[i], cls) && InClass(s[j - 1], cls)
    ensures j == |s| || !InClass(s[j], cls)
    ensures i < |s| && InClass(s[i], cls) ==> j > i
    decreases |s| - i
  {
    if i < |s| && InClass(s[i], cls) then Span(s, i + 1, cls) else i
  }

  /** A run seen from any of its positions ends where it ends from its start. */
  lemma {:induction false} SpanFrom(s: string, i: nat, j: nat, cls: CharClass)
    requires i <= |s| && i <= j <= Span(s, i, cls)
    ensures Span(s, j, cls) == Span(s, i, cls)
    decreases j - i
  {
    if i < j {
      SpanFrom(s, i + 1, j, cls);
    }
  }

  /** `\b` at position i: a word character on exactly one side. */
  predicate Boundary(s: string, i: nat)
    requires i <= |s|
  {
    (i > 0 && IsWord(s[i - 1])) != (i < |s| && IsWord(s[i]))
  }

  /** The fourteen substitutions, in the order `pre_process` applies them. */
  datatype Pattern =
    | Spaces        // \s{2,}
    | Email         // [a-zA-Z0-9._%+-]+@[a-zA-Z0-9.-]+\.[a-zA-Z]{2,}
    | Dotted        // \b\w+(?:\.\w+)+\b
    | Time          // (\d+:)+\d+
    | Date          // \d{4}-\d{2}-\d{2}
    | WordSeries    // \b(\w+)(?:,\1)+\b
    | DigitSeries   // \b\d+(?:,\d+)+\b
    | CharCall      // \bchar\(\d+(?:\+\d+)*\)
    | SeriesChain   // <SERIES>(?:\+<SERIES>)+
    | Number        // \b\d+(?:\.\d+)?\b
    | Repetition    // (.)\1{2,}
    | Single        // (?<=[@$%^!~/[\]\\` ])(?!a)\w(?=[@$%^!~/[\]\\` ])
    | SpecialRun    // [@$%^!~/[\]\-\`]{2,}
    | SpecialChar   // [@$%^!~/[\]\-\`]

  function Replacement(p: Pattern): string {
    match p
    case Spaces => " "
    case Email => "<EMAIL>"
    case Dotted => "<SUB>"
    case Time => "<TIME>"
    case Date => "<DATE>"
    case WordSeries => "<SERIES>"
    case DigitSeries => "<SERIES>"
    case CharCall => "<SERIES>"
    case SeriesChain => "<SERIES>"
    case Number => "<NUMBER>"
    case Repetition => "<REPETITIVE>"
    case Single => "<SINGLE>"
    case SpecialRun => "<REGEX>"
    case SpecialChar => "<SPECIAL>"
  }

  /** A run of at least `min` characters of `cls`, taken whole (greedy). */
  function RunMatch(s: string, i: nat, cls: CharClass, min: nat): (n: nat)
    requires i < |s|
    ensures i + n <= |s|
    ensures n > 0 <==> Span(s, i, cls) - i >= min && min > 0
    ensures n > 0 ==> n == Span(s, i, cls) - i
  {
    var e := Span(s, i, cls);
    if min > 0 && e - i >= min then e - i else 0
  }

  /** A '.' followed by two ASCII letters: where `\.[a-zA-Z]{2,}` can start. */
  predicate QualifyingDot(s: string, m: nat) {
    m + 2 < |s| && s[m] == '.' && IsAsciiLetter(s[m + 1]) && IsAsciiLetter(s[m + 2])
  }

  /** The largest k with lo < k < hi, s[k] == '.' and two letters after it,
      or lo when there is none: where `[a-zA-Z0-9.-]+` gives back just
      enough for `\.[a-zA-Z]{2,}` to match. */
  function LastTopLevelDot(s: string, lo: nat, hi: nat): (k: nat)
    requires lo <= hi <= |s|
    ensures lo <= k && (k == lo || k < hi)
    ensures k != lo ==> QualifyingDot(s, k)
    ensures forall m :: k < m < hi && lo < m ==> !QualifyingDot(s, m)
    decreases hi
  {
    if hi <= lo + 1 then lo
    else if s[hi - 1] == '.' && hi + 1 < |s| && IsAsciiLetter(s[hi]) && IsAsciiLetter(s[hi + 1]) then hi - 1
    else LastTopLevelDot(s, lo, hi - 1)
  }

  /** `[a-zA-Z0-9._%+-]+` can only stop right before the '@' (the '@' is
      not in its class), so the local part is the whole run from i. */
  function MatchEmail(s: string, i: nat): (n: nat)
    requires i < |s|
    ensures i + n <= |s|
    ensures n > 0 ==> InClass(s[i], EmailLocal) && IsAsciiLetter(s[i + n - 1])
  {
    var at := Span(s, i, EmailLocal);
    if at == i || at == |s| || s[at] != '@' then 0
    else
      var dot := LastTopLevelDot(s, at + 1, Span(s, at + 1, EmailDomain));
      if dot == at + 1 then 0 else Span(s, dot + 1, Letter) - i
  }

  /** A character `(?:\.\w+)*` can consume. */
  predicate DottedAt(s: string, m: nat) {
    m < |s| && (InClass(s[m], Word) || s[m] == '.')
  }

  /** s[j..k] is a sequence of whole groups, each `sep` followed by at
      least one `cls` character: it starts with `sep`, and every `sep` in it
      has a `cls` character after it inside s[j..k]. */
  predicate GroupsFrom(s: string, j: nat, k: nat, sep: char, cls: CharClass)
    requires j <= k <= |s|
  {
    (k > j ==> s[j] == sep)
    && forall m :: j <= m < k && SepAt(s, m, sep) ==> m + 1 < k && InClass(s[m + 1], cls)
  }

  predicate SepAt(s: string, m: nat, sep: char) {
    m < |s| && s[m] == sep
  }

  /** End of the greedy `(?:\.\w+)*` that follows position j. */
  function DottedEnd(s: string, j: nat): (k: nat)
    requires j <= |s|
    ensures j <= k <= |s|
    ensures k > j ==> IsWord(s[k - 1]) && (k == |s| || !IsWord(s[k]))
    ensures forall m :: j <= m < k ==> DottedAt(s, m)
    ensures GroupsFrom(s, j, k, '.', Word)
    ensures !(k + 1 < |s| && s[k] == '.' && IsWord(s[k + 1]))
    decreases |s| - j
  {
    if j + 1 < |s| && s[j] == '.' && IsWord(s[j + 1]) then DottedEnd(s, Span(s, j + 1, Word)) else j
  }

  /** Every `\w+` here is a whole run of word characters, so the closing
      `\b` always holds and no backtracking happens. */
  function MatchDotted(s: string, i: nat): (n: nat)
    requires i < |s|
    ensures i + n <= |s|
    ensures n > 0 ==> IsWord(s[i]) && IsWord(s[i + n - 1]) && '.' in s[i..i + n]
  {
    if !(IsWord(s[i]) && Boundary(s, i)) then 0
    else
      var e := Span(s, i, Word);
      var f := DottedEnd(s, e);
      if f == e then 0 else assert s[i..i + (f - i)][e - i] == s[e]; f - i
  }

  /** After a group `\d+:` ending at j - 1 (its colon at `colon`): the end of
      `(\d+:)*\d+`, giving back the last group when no digit follows it. */
  function TimeEnd(s: string, j: nat, colon: nat): (k: nat)
    requires colon < j <= |s|
    ensures colon <= k <= |s|
    ensures k == colon <==> j == |s| || !IsDigit(s[j])
    ensures k != colon ==>
              j < k && IsDigit(s[k - 1]) && (k == |s| || !IsDigit(s[k]))
              && !(k + 1 < |s| && s[k] == ':' && IsDigit(s[k + 1]))
    ensures k != colon ==> DigitGroups(s, j, k)
    decreases |s| - j
  {
    var d := Span(s, j, Digit);
    if d == j then colon
    else if d < |s| && s[d] == ':' then
      var k := TimeEnd(s, d + 1, d);
      if k == d then DigitGroupsOfRun(s, j, d); k else DigitGroupsJoin(s, j, d, k); k
    else
      DigitGroupsOfRun(s, j, d); d
  }

  lemma DigitGroupsOfRun(s: string, j: nat, d: nat)
    requires j <= |s| && d == Span(s, j, Digit)
    ensures DigitGroups(s, j, d)
  {
    forall m | j <= m < d ensures DigitOrJoinAt(s, m, d) {
      assert InClass(s[m], Digit);
    }
  }

  /** A digit run, a ':', then digit groups make digit groups. */
  lemma DigitGroupsJoin(s: string, j: nat, d: nat, k: nat)
    requires j < d && d + 1 < k <= |s| && d == Span(s, j, Digit)
    requires s[d] == ':' && IsDigit(s[d + 1]) && DigitGroups(s, d + 1, k)
    ensures DigitGroups(s, j, k)
  {
    forall m | j <= m < k ensures DigitOrJoinAt(s, m, k) {
      if m < d {
        assert InClass(s[m], Digit);
      } else if m > d {
        assert DigitOrJoinAt(s, m, k);
      }
    }
  }

  /** s[j..k] holds only digits and colons, each colon followed by a digit
      inside s[j..k]: digit groups joined by ':'. */
  predicate DigitGroups(s: string, j: nat, k: nat)
    requires j <= k <= |s|
  {
    forall m :: j <= m < k ==> DigitOrJoinAt(s, m, k)
  }

  predicate DigitOrJoinAt(s: string, m: nat, k: nat)
    requires m < k <= |s|
  {
    IsDigit(s[m]) || (s[m] == ':' && m + 1 < k && IsDigit(s[m + 1]))
  }

  function MatchTime(s: string, i: nat): (n: nat)
    requires i < |s|
    ensures i + n <= |s|
    ensures n > 0 ==> IsDigit(s[i]) && ':' in s[i..i + n]
  {
    if !IsDigit(s[i]) then 0
    else
      var d := Span(s, i, Digit);
      if d == |s| || s[d] != ':' || d + 1 == |s| || !IsDigit(s[d + 1]) then 0
      else
        var k := TimeEnd(s, d + 1, d);
        assert s[i..k][d - i] == ':';
        k - i
  }

  function MatchDate(s: string, i: nat): (n: nat)
    requires i < |s|
    ensures i + n <= |s|
    ensures n > 0 ==> n == 10 && s[i + 4] == '-' && s[i + 7] == '-'
  {
    if i + 10 <= |s|
       && IsDigit(s[i]) && IsDigit(s[i + 1]) && IsDigit(s[i + 2]) && IsDigit(s[i + 3])
       && s[i + 4] == '-' && IsDigit(s[i + 5]) && IsDigit(s[i + 6])
       && s[i + 7] == '-' && IsDigit(s[i + 8]) && IsDigit(s[i + 9])
    then 10 else 0
  }

  /** End of the next repetition at j: `,w` for a word series, `,\d+` for a
      digit series; j when there is none. */
  function NextItem(s: string, j: nat, w: string, digits: bool): (k: nat)
    requires j <= |s|
    requires |w| > 0
    ensures k == j || j + 1 < k <= |s|
    ensures k > j ==> s[j] == ','
    ensures digits ==>
              (k > j <==> j + 1 < |s| && s[j] == ',' && IsDigit(s[j + 1]))
              && (k > j ==> k == Span(s, j + 1, Digit))
    ensures !digits ==>
              (k > j <==> j + 1 + |w| <= |s| && s[j] == ',' && s[j + 1..j + 1 + |w|] == w)
              && (k > j ==> k == j + 1 + |w|)
  {
    if j < |s| && s[j] == ',' then
      if digits then
        if j + 1 < |s| && IsDigit(s[j + 1]) then Span(s, j + 1, Digit) else j
      else if j + 1 + |w| <= |s| && s[j + 1..j + 1 + |w|] == w then j + 1 + |w|
      else j
    else j
  }

  /** A repetition found at j ends in a word character. */
  lemma ItemEndsInWord(s: string, j: nat, w: string, digits: bool)
    requires j <= |s|
    requires |w| > 0 && forall m :: 0 <= m < |w| ==> IsWord(w[m])
    requires NextItem(s, j, w, digits) > j
    ensures IsWord(s[NextItem(s, j, w, digits) - 1])
  {
    if !digits {
      assert s[j + 1..j + 1 + |w|][|w| - 1] == w[|w| - 1];
    }
  }

  /** A run of digits or of word characters holds only word characters. */
  lemma RunIsWord(s: string, i: nat, cls: CharClass, w: string)
    requires i <= |s| && (cls == Digit || cls == Word)
    requires w == s[i..Span(s, i, cls)]
    ensures forall m :: 0 <= m < |w| ==> IsWord(w[m])
  {
    forall m | 0 <= m < |w| ensures IsWord(w[m]) {
      assert w[m] == s[i + m] && InClass(s[i + m], cls);
    }
  }

  /** After one or more repetitions ending at j (`prev` is where one fewer
      ends): take every further repetition (greedy), then require `\b`; when
      `\b` fails, give back the last repetition, after which a ',' follows
      and `\b` holds. */
  function SeriesEnd(s: string, j: nat, w: string, digits: bool, prev: nat): (k: nat)
    requires prev <= j <= |s|
    requires |w| > 0 && forall m :: 0 <= m < |w| ==> IsWord(w[m])
    requires prev < j ==> IsWord(s[j - 1])
    ensures prev <= k <= |s|
    ensures k == prev || (j <= k && Boundary(s, k))
    decreases |s| - j
  {
    var n := NextItem(s, j, w, digits);
    if n > j then
      ItemEndsInWord(s, j, w, digits);
      SeriesEnd(s, n, w, digits, j)
    else if Boundary(s, j) then j
    else prev
  }

  /** `\b(\w+)(?:,\1)+\b` when `digits` is false, `\b\d+(?:,\d+)+\b` when it
      is true. A shorter first item would be followed by a word character
      instead of ',', so the first item is the whole run from i. */
  function MatchSeries(s: string, i: nat, digits: bool): (n: nat)
    requires i < |s|
    ensures i + n <= |s|
    ensures n > 0 ==> ',' in s[i..i + n]
  {
    var cls := if digits then Digit else Word;
    if !(InClass(s[i], cls) && Boundary(s, i)) then 0
    else
      var e := Span(s, i, cls);
      RunIsWord(s, i, cls, s[i..e]);
      SeriesAfter(s, i, e, s[i..e], digits)
  }

  /** The series whose first item w is s[i..e]: at least one repetition,
      then `\b`. */
  function SeriesAfter(s: string, i: nat, e: nat, w: string, digits: bool): (n: nat)
    requires i < e <= |s| && w == s[i..e]
    requires forall m :: 0 <= m < |w| ==> IsWord(w[m])
    ensures i + n <= |s|
    ensures n > 0 ==> ',' in s[i..i + n]
  {
    var first := NextItem(s, e, w, digits);
    if first == e then 0
    else
      ItemEndsInWord(s, e, w, digits);
      var k := SeriesEnd(s, first, w, digits, i);
      if k == i then 0 else assert k >= first && s[i..k][e - i] == ','; k - i
  }

  /** A character `(?:\+\d+)*` can consume. */
  predicate PlusDigitAt(s: string, m: nat) {
    m < |s| && (InClass(s[m], Digit) || s[m] == '+')
  }

  /** End of the greedy `(?:\+\d+)*` that follows position j. */
  function PlusDigitsEnd(s: string, j: nat): (k: nat)
    requires j <= |s|
    ensures j <= k <= |s|
    ensures k > j ==> IsDigit(s[k - 1]) && (k == |s| || !IsDigit(s[k]))
    ensures forall m :: j <= m < k ==> PlusDigitAt(s, m)
    ensures GroupsFrom(s, j, k, '+', Digit)
    ensures !(k + 1 < |s| && s[k] == '+' && IsDigit(s[k + 1]))
    decreases |s| - j
  {
    if j + 1 < |s| && s[j] == '+' && IsDigit(s[j + 1]) then PlusDigitsEnd(s, Span(s, j + 1, Digit)) else j
  }

  function MatchCharCall(s: string, i: nat): (n: nat)
    requires i < |s|
    ensures i + n <= |s|
    ensures n > 0 ==> n >= 7 && s[i..i + 5] == "char(" && s[i + n - 1] == ')'
  {
    if !(i + 5 <= |s| && s[i..i + 5] == "char(" && Boundary(s, i)) then 0
    else
      var d := Span(s, i + 5, Digit);
      if d == i + 5 then 0
      else
        var e := PlusDigitsEnd(s, d);
        if e < |s| && s[e] == ')' then e + 1 - i else 0
  }

  /** A `+<SERIES>` starts at m. */
  predicate ChainBlockAt(s: string, m: nat) {
    m + 9 <= |s| && s[m..m + 9] == "+<SERIES>"
  }

  /** End of the greedy `(?:\+<SERIES>)*` that follows position j. */
  function ChainEnd(s: string, j: nat): (k: nat)
    requires j <= |s|
    ensures j <= k <= |s|
    ensures (k - j) % 9 == 0
    ensures forall m :: j <= m < k && (m - j) % 9 == 0 ==> m + 9 <= k && ChainBlockAt(s, m)
    ensures !(k + 9 <= |s| && s[k..k + 9] == "+<SERIES>")
    decreases |s| - j
  {
    if j + 9 <= |s| && s[j..j + 9] == "+<SERIES>" then ChainEnd(s, j + 9) else j
  }

  function MatchSeriesChain(s: string, i: nat): (n: nat)
    requires i < |s|
    ensures i + n <= |s|
    ensures n > 0 ==> n >= 17 && s[i..i + 8] == "<SERIES>"
  {
    if i + 8 <= |s| && s[i..i + 8] == "<SERIES>" then
      var e := ChainEnd(s, i + 8);
      if e > i + 8 then (assert e >= i + 17; e - i) else 0
    else 0
  }

  /** `\b\d+(?:\.\d+)?\b`: when the closing `\b` fails after the fraction,
      the fraction is given back (a '.' then follows, so `\b` holds); when it
      fails after the integer part, there is no match. */
  function MatchNumber(s: string, i: nat): (n: nat)
    requires i < |s|
    ensures i + n <= |s|
    ensures n > 0 ==> IsDigit(s[i]) && IsDigit(s[i + n - 1]) && Boundary(s, i + n)
  {
    if !(IsDigit(s[i]) && Boundary(s, i)) then 0
    else
      var e := Span(s, i, Digit);
      if e + 1 < |s| && s[e] == '.' && IsDigit(s[e + 1]) then
        var f := Span(s, e + 1, Digit);
        if Boundary(s, f) then f - i else e - i
      else if Boundary(s, e) then e - i
      else 0
  }

  /** `(.)\1{2,}`: `.` matches anything but a newline. */
  function MatchRepetition(s: string, i: nat): (n: nat)
    requires i < |s|
    ensures i + n <= |s|
    ensures n > 0 <==> s[i] != '\n' && Span(s, i, Same(s[i])) - i >= 3
    ensures n > 0 ==> n == Span(s, i, Same(s[i])) - i
  {
    if s[i] == '\n' then 0 else RunMatch(s, i, Same(s[i]), 3)
  }

  function MatchSingle(s: string, i: nat): (n: nat)
    requires i < |s|
    ensures i + n <= |s|
    ensures n > 0 ==> n == 1 && IsWord(s[i]) && s[i] != 'a'
  {
    if 0 < i && i + 1 < |s| && IsSingleContext(s[i - 1]) && s[i] != 'a' && IsWord(s[i])
       && IsSingleContext(s[i + 1])
    then 1 else 0
  }

  /** Length of the match of p at position i of s; 0 when there is none. */
  function MatchLen(p: Pattern, s: string, i: nat): (n: nat)
    requires i < |s|
    ensures i + n <= |s|
  {
    match p
    case Spaces => RunMatch(s, i, Whitespace, 2)
    case Email => MatchEmail(s, i)
    case Dotted => MatchDotted(s, i)
    case Time => MatchTime(s, i)
    case Date => MatchDate(s, i)
    case WordSeries => MatchSeries(s, i, false)
    case DigitSeries => MatchSeries(s, i, true)
    case CharCall => MatchCharCall(s, i)
    case SeriesChain => MatchSeriesChain(s, i)
    case Number => MatchNumber(s, i)
    case Repetition => MatchRepetition(s, i)
    case Single => MatchSingle(s, i)
    case SpecialRun => RunMatch(s, i, Special, 2)
    case SpecialChar => if IsSpecial(s[i]) then 1 else 0
  }

  /** What the scan emits at position i: the replacement when the pattern
      matches there, the character itself otherwise. */
  function Emit(p: Pattern, s: string, i: nat): (r: string)
    requires i < |s|
    ensures MatchLen(p, s, i) == 0 ==> r == [s[i]]
    ensures MatchLen(p, s, i) > 0 ==> r == Replacement(p)
  {
    if MatchLen(p, s, i) == 0 then [s[i]] else Replacement(p)
  }

  /** Where the scan resumes after position i. */
  function Resume(p: Pattern, s: string, i: nat): (k: nat)
    requires i < |s|
    ensures i < k <= |s|
    ensures k == if MatchLen(p, s, i) == 0 then i + 1 else i + MatchLen(p, s, i)
  {
    var n := MatchLen(p, s, i);
    if n == 0 then i + 1 else i + n
  }

  /** The output of `re.sub` for the part of s from position i on. */
  function SubFrom(p: Pattern, s: string, i: nat): string
    requires i <= |s|
    decreases |s| - i
  {
    if i == |s| then [] else Emit(p, s, i) + SubFrom(p, s, Resume(p, s, i))
  }

  /** `re.sub(p, Replacement(p), s)`. */
  function Sub(p: Pattern, s: string): string {
    SubFrom(p, s, 0)
  }
}
