/** The benchmark converter (utils/scripts/txt_to_json_ForTest.py): turns
    the lines of the cleaned benchmark file into `{content, type, label}`
    records. A type header is a line starting with `--`; the line after it
    is read as the label line; the lines after that, up to the next header,
    are the contents of that section. */
module BenchmarkConverter {
  import opened Text

  /** One entry of `test_data`; `kind` is the JSON field "type". */
  datatype Record = Record(content: string, kind: string, labelDigit: nat)

  /** Why `int(lines[at][9])` raises: the label line `at` (an index into the
      cleaned lines) is shorter than 10 characters (IndexError), or its
      character at index 9 is not a digit (ValueError). */
  datatype Error = LabelIndexError(at: nat) | LabelValueError(at: nat)

  datatype Result<T> = Ok(value: T) | Err(error: Error)

  /** Records produced before the rest of the input is processed; an error
      in the rest aborts the script, and nothing is written. */
  function Prepend(xs: seq<Record>, r: Result<seq<Record>>): Result<seq<Record>> {
    if r.Err? then r else Ok(xs + r.value)
  }

  lemma PrependAppend(xs: seq<Record>, ys: seq<Record>, r: Result<seq<Record>>)
    ensures Prepend(xs, Prepend(ys, r)) == Prepend(xs + ys, r)
  {
    if r.Ok? {
      assert xs + (ys + r.value) == (xs + ys) + r.value;
    }
  }

  // ---------------------------------------------------------------------
  // Line 43: the cleaned lines

  /** A line as it reaches the parser: non-empty, with no whitespace at
      either end. */
  predicate Trimmed(line: string) {
    line != [] && !IsSpace(line[0]) && !IsSpace(line[|line| - 1])
  }

  predicate AllTrimmed(lines: seq<string>) {
    forall k :: 0 <= k < |lines| ==> Trimmed(lines[k])
  }

  /** `[line.strip() for line in f if line.strip()]`. */
  function CleanLines(raw: seq<string>): (lines: seq<string>)
    ensures |lines| <= |raw|
    ensures AllTrimmed(lines)
  {
    if raw == [] then []
    else
      var t := Strip(raw[0]);
      (if t == [] then [] else [t]) + CleanLines(raw[1..])
  }

  lemma CleanLinesCons(raw: seq<string>)
    requires raw != []
    ensures CleanLines(raw) == (if Strip(raw[0]) == [] then [] else [Strip(raw[0])]) + CleanLines(raw[1..])
  {
  }

  /** The parser sees the stripped lines of the file in file order: cleaning
      distributes over concatenation (and `CleanLinesCons` gives one line). */
  lemma {:induction false} CleanLinesAppend(a: seq<string>, b: seq<string>)
    ensures CleanLines(a + b) == CleanLines(a) + CleanLines(b)
  {
    if a == [] {
      assert a + b == b;
    } else {
      HeadOfAppend(a, b);
      CleanLinesAppend(a[1..], b);
      CleanLinesCons(a + b);
      CleanLinesCons(a);
      var head := if Strip(a[0]) == [] then [] else [Strip(a[0])];
      AppendAssoc(head, CleanLines(a[1..]), CleanLines(b));
    }
  }

  /** Every line with some non-whitespace character reaches the parser,
      stripped, in the order of the file. */
  lemma {:induction false} CleanLinesKeeps(raw: seq<string>, k: nat)
    requires k < |raw| && Strip(raw[k]) != []
    ensures Strip(raw[k]) in CleanLines(raw)
  {
    CleanLinesCons(raw);
    if k > 0 {
      assert raw[k] == raw[1..][k - 1];
      CleanLinesKeeps(raw[1..], k - 1);
    }
  }

  /** Only lines that are empty or all whitespace are dropped. */
  lemma {:induction false} CleanLinesEmpty(raw: seq<string>)
    ensures CleanLines(raw) == [] <==> forall k :: 0 <= k < |raw| ==> Strip(raw[k]) == []
  {
    if raw != [] {
      CleanLinesCons(raw);
      CleanLinesEmpty(raw[1..]);
      assert forall k :: 1 <= k < |raw| ==> raw[k] == raw[1..][k - 1];
    }
  }

  /** Cleaning lines that are already clean changes nothing, so cleaning
      twice is cleaning once. */
  lemma {:induction false} CleanLinesTrimmed(lines: seq<string>)
    requires AllTrimmed(lines)
    ensures CleanLines(lines) == lines
  {
    if lines != [] {
      CleanLinesCons(lines);
      StripKeepsTrimmed(lines[0]);
      CleanLinesTrimmed(lines[1..]);
    }
  }

  // ---------------------------------------------------------------------
  // Lines 51-52: type headers and their titles

  predicate IsHeader(line: string) {
    StartsWith(line, "--")
  }

  /** No two consecutive dashes. */
  predicate NoDashPair(s: string) {
    forall k :: 0 <= k < |s| - 1 ==> !(s[k] == '-' && s[k + 1] == '-')
  }

  /** `str.replace("--", "")`: occurrences found left to right, without
      overlap, and removed. */
  function RemoveDashPairs(s: string): (r: string)
    ensures |r| <= |s|
    ensures r != [] && r[0] == '-' ==> s != [] && s[0] == '-'
  {
    if |s| >= 2 && s[0] == '-' && s[1] == '-' then RemoveDashPairs(s[2..])
    else if s == [] then []
    else [s[0]] + RemoveDashPairs(s[1..])
  }

  /** Removing the pairs leaves no pair: a dash is kept only when the
      character after it is not a dash, and that character is kept too. */
  lemma {:induction false} RemoveDashPairsLeavesNone(s: string)
    ensures NoDashPair(RemoveDashPairs(s))
    ensures |RemoveDashPairs(s)| < |s| ==> exists k :: 0 <= k < |s| - 1 && s[k] == '-' && s[k + 1] == '-'
    decreases |s|
  {
    if |s| >= 2 && s[0] == '-' && s[1] == '-' {
      RemoveDashPairsLeavesNone(s[2..]);
    } else if s != [] {
      RemoveDashPairsLeavesNone(s[1..]);
      var r := RemoveDashPairs(s);
      var rest := RemoveDashPairs(s[1..]);
      assert r == [s[0]] + rest;
      if s[0] == '-' && rest != [] {
        assert rest[0] != '-';
      }
      if |r| < |s| {
        var k :| 0 <= k < |s[1..]| - 1 && s[1..][k] == '-' && s[1..][k + 1] == '-';
        assert s[k + 1] == '-' && s[k + 2] == '-';
      }
    }
  }

  /** A leading `--` is removed and nothing else: the rest is processed on
      its own. */
  lemma RemoveDashPairsPair(t: string)
    ensures RemoveDashPairs("--" + t) == RemoveDashPairs(t)
  {
    assert ("--" + t)[2..] == t;
  }

  /** A string without a pair of dashes is left as it is. */
  lemma {:induction false} RemoveDashPairsAbsent(s: string)
    requires NoDashPair(s)
    ensures RemoveDashPairs(s) == s
    decreases |s|
  {
    if s != [] {
      assert !(|s| >= 2 && s[0] == '-' && s[1] == '-');
      RemoveDashPairsAbsent(s[1..]);
    }
  }

  /** `line.replace("--", "").strip()`. */
  function Title(line: string): (t: string)
    ensures |t| <= |line|
  {
    Strip(RemoveDashPairs(line))
  }

  /** A title holds no `--`, is trimmed, and is a fixed point of `Title`. */
  lemma TitleMeaning(line: string)
    ensures NoDashPair(Title(line))
    ensures Title(line) == [] || Trimmed(Title(line))
    ensures Title(Title(line)) == Title(line)
  {
    var r := RemoveDashPairs(line);
    RemoveDashPairsLeavesNone(line);
    var t := Title(line);
    var a := LeadingSpaces(r);
    assert t == r[a..a + |t|];
    forall k | 0 <= k < |t| - 1 ensures !(t[k] == '-' && t[k + 1] == '-') {
      assert t[k] == r[a + k] && t[k + 1] == r[a + k + 1];
    }
    RemoveDashPairsAbsent(t);
    StripKeepsTrimmed(t);
  }

  /** A prefix without a pair of dashes that does not end in a dash is
      kept, and the rest is processed on its own. */
  lemma {:induction false} RemoveDashPairsAppend(s: string, t: string)
    requires NoDashPair(s) && (s == [] || s[|s| - 1] != '-')
    ensures RemoveDashPairs(s + t) == s + RemoveDashPairs(t)
    decreases |s|
  {
    if s == [] {
      assert s + t == t;
    } else {
      var st := s + t;
      assert st[0] == s[0] && st[1..] == s[1..] + t;
      if s[0] == '-' {
        assert |s| >= 2 && st[1] == s[1] && s[1] != '-';
      }
      RemoveDashPairsKeeps(st);
      NoDashPairTail(s);
      RemoveDashPairsAppend(s[1..], t);
      ConsTail(s, RemoveDashPairs(t));
    }
  }

  /** Where no pair starts, the first character is kept. */
  lemma RemoveDashPairsKeeps(s: string)
    requires s != [] && !(|s| >= 2 && s[0] == '-' && s[1] == '-')
    ensures RemoveDashPairs(s) == [s[0]] + RemoveDashPairs(s[1..])
  {
  }

  /** A string without pairs that ends in no dash keeps both properties
      when its first character is dropped. */
  lemma NoDashPairTail(s: string)
    requires s != [] && NoDashPair(s) && s[|s| - 1] != '-'
    ensures NoDashPair(s[1..]) && (s[1..] == [] || s[1..][|s[1..]| - 1] != '-')
  {
    forall k | 0 <= k < |s[1..]| - 1 ensures !(s[1..][k] == '-' && s[1..][k + 1] == '-') {
      assert s[1..][k] == s[k + 1] && s[1..][k + 1] == s[k + 2];
    }
  }

  lemma ConsTail(s: string, x: string)
    requires s != []
    ensures [s[0]] + (s[1..] + x) == s + x
  {
    assert s == [s[0]] + s[1..];
  }

  lemma DashPairsOfHeaderExample()
    ensures RemoveDashPairs("-- SQL Injection --") == " SQL Injection "
  {
    var r := " SQL Injection ";
    assert "-- SQL Injection --"[2..] == r + "--";
    assert RemoveDashPairs("--") == [];
    assert NoDashPair(r);
    RemoveDashPairsAppend(r, "--");
    assert r + [] == r;
  }

  lemma StripHeaderExample()
    ensures Strip(" SQL Injection ") == "SQL Injection"
  {
    var r := " SQL Injection ";
    assert LeadingSpaces(r[1..]) == 0;
    assert LeadingSpaces(r) == 1;
    assert r[1..] == "SQL Injection ";
    assert TrailingSpaces("SQL Injection") == 0;
    assert "SQL Injection "[..13] == "SQL Injection";
    assert TrailingSpaces("SQL Injection ") == 1;
  }

  /** A header as the file's docstring writes it. */
  lemma HeaderTitleExample()
    ensures IsHeader("-- SQL Injection --")
    ensures Title("-- SQL Injection --") == "SQL Injection"
  {
    assert "-- SQL Injection --"[..2] == "--";
    DashPairsOfHeaderExample();
    StripHeaderExample();
  }

  // ---------------------------------------------------------------------
  // Lines 56-58: the label line

  /** `int(lines[at][9])`, with the line index `at` kept for the error. */
  function LabelOf(line: string, at: nat): (r: Result<nat>)
    ensures r.Ok? <==> |line| >= 10 && IsDigit(line[9])
    ensures r.Ok? ==> r.value <= 9 && (r.value + '0' as int) as char == line[9]
    ensures r.Err? ==> r.error == (if |line| < 10 then LabelIndexError(at) else LabelValueError(at))
  {
    if |line| < 10 then Err(LabelIndexError(at))
    else if !IsDigit(line[9]) then Err(LabelValueError(at))
    else Ok(line[9] as int - '0' as int)
  }

  /** The label line laid out as the docstring shows it, `-- Label [l] --`,
      has `[` at index 9 and is rejected; the digit must sit at index 9. */
  lemma LabelLayouts()
    ensures LabelOf("-- Label [1] --", 3) == Err(LabelValueError(3))
    ensures LabelOf("-- Label 1 --", 3) == Ok(1)
    ensures LabelOf("-- Label", 3) == Err(LabelIndexError(3))
  {
    assert "-- Label [1] --"[9] == '[';
    assert "-- Label 1 --"[9] == '1';
  }

  // ---------------------------------------------------------------------
  // Lines 46-73: the parsing loop

  /** Lines 62-68: the record a content line yields; a line that strips to
      nothing would yield none. */
  function ContentRecords(line: string, title: string, digit: nat): seq<Record> {
    var content := Strip(line);
    if content != [] then [Record(content, title, digit)] else []
  }

  /** What the outer loop produces from line i on: lines before a header are
      skipped; a header that is the last line stops; otherwise the next line
      is the label line and a section follows it. */
  function Parse(lines: seq<string>, i: nat): Result<seq<Record>>
    requires i <= |lines|
    decreases |lines| - i, 0
  {
    if i == |lines| then Ok([])
    else if !IsHeader(lines[i]) then Parse(lines, i + 1)
    else if i + 1 == |lines| then Ok([])
    else
      var digit := LabelOf(lines[i + 1], i + 1);
      if digit.Err? then Err(digit.error)
      else Section(lines, i + 2, Title(lines[i]), digit.value)
  }

  /** What the inner loop produces from content line j on, then the outer
      loop from the next header or the end. */
  function Section(lines: seq<string>, j: nat, title: string, digit: nat): Result<seq<Record>>
    requires j <= |lines|
    decreases |lines| - j, 1
  {
    if j == |lines| || IsHeader(lines[j]) then Parse(lines, j)
    else Prepend(ContentRecords(lines[j], title, digit), Section(lines, j + 1, title, digit))
  }

  /** The script: clean the lines, then run the loop of lines 46-73. An
      exception from `int(...)` ends it with nothing written. */
  method Convert(raw: seq<string>) returns (result: Result<seq<Record>>)
    ensures result == Parse(CleanLines(raw), 0)
  {
    var lines := CleanLines(raw);
    var testData: seq<Record> := [];
    var title: string := [];
    var digit: nat := 0;
    var i := 0;
    assert Parse(lines, 0) == Prepend(testData, Parse(lines, 0)) by {
      if Parse(lines, 0).Ok? {
        assert [] + Parse(lines, 0).value == Parse(lines, 0).value;
      }
    }
    while i < |lines|
      invariant i <= |lines|
      invariant Parse(lines, 0) == Prepend(testData, Parse(lines, i))
    {
      var line := lines[i];
      if IsHeader(line) {
        title := Title(line);
        i := i + 1;
        if i < |lines| {
          var l := LabelOf(lines[i], i);
          if l.Err? {
            assert Parse(lines, i - 1) == Err(l.error);
            return Err(l.error);
          }
          digit := l.value;
          i := i + 1;
          while i < |lines| && !IsHeader(lines[i])
            invariant i <= |lines|
            invariant Parse(lines, 0) == Prepend(testData, Section(lines, i, title, digit))
          {
            var content := Strip(lines[i]);
            PrependAppend(testData, ContentRecords(lines[i], title, digit), Section(lines, i + 1, title, digit));
            if content != [] {
              testData := testData + [Record(content, title, digit)];
            }
            i := i + 1;
          }
        } else {
          LastHeaderStops(lines, testData);
          break;
        }
      } else {
        i := i + 1;
      }
    }
    assert testData + [] == testData;
    result := Ok(testData);
  }

  // ---------------------------------------------------------------------
  // Properties of the parse

  /** Lines before the first header yield nothing and are skipped one by
      one. */
  lemma {:induction false} PreambleSkipped(lines: seq<string>, i: nat, j: nat)
    requires i <= j <= |lines|
    requires forall k :: i <= k < j ==> !IsHeader(lines[k])
    ensures Parse(lines, i) == Parse(lines, j)
    decreases j - i
  {
    if i < j {
      PreambleSkipped(lines, i + 1, j);
    }
  }

  /** The records of the content lines from j up to the section's end e, one
      per line, in order, each with the section's title and label. */
  function SectionRecords(lines: seq<string>, j: nat, e: nat, title: string, digit: nat): (rs: seq<Record>)
    requires j <= e <= |lines|
    ensures |rs| == e - j
    ensures forall k :: 0 <= k < e - j ==> rs[k] == Record(lines[j + k], title, digit)
  {
    seq(e - j, k requires 0 <= k < e - j => Record(lines[j + k], title, digit))
  }

  /** A content line that is already trimmed yields itself as the record. */
  lemma SectionCons(lines: seq<string>, j: nat, title: string, digit: nat)
    requires j < |lines| && Trimmed(lines[j]) && !IsHeader(lines[j])
    ensures Section(lines, j, title, digit) ==
              Prepend([Record(lines[j], title, digit)], Section(lines, j + 1, title, digit))
  {
    StripKeepsTrimmed(lines[j]);
  }

  lemma {:induction false} SectionUpTo(lines: seq<string>, j: nat, e: nat, title: string, digit: nat)
    requires AllTrimmed(lines)
    requires j <= e <= |lines|
    requires forall k :: j <= k < e ==> !IsHeader(lines[k])
    requires e == |lines| || IsHeader(lines[e])
    ensures Section(lines, j, title, digit) == Prepend(SectionRecords(lines, j, e, title, digit), Parse(lines, e))
    decreases e - j
  {
    if j == e {
      assert SectionRecords(lines, j, e, title, digit) == [];
      if Parse(lines, e).Ok? {
        assert [] + Parse(lines, e).value == Parse(lines, e).value;
      }
    } else {
      SectionUpTo(lines, j + 1, e, title, digit);
      SectionCons(lines, j, title, digit);
      SectionRecordsCons(lines, j, e, title, digit);
      PrependAppend([Record(lines[j], title, digit)], SectionRecords(lines, j + 1, e, title, digit), Parse(lines, e));
    }
  }

  /** The records from j on are the record of line j, then those from j + 1. */
  lemma SectionRecordsCons(lines: seq<string>, j: nat, e: nat, title: string, digit: nat)
    requires j < e <= |lines|
    ensures SectionRecords(lines, j, e, title, digit) ==
              [Record(lines[j], title, digit)] + SectionRecords(lines, j + 1, e, title, digit)
  {
  }

  /** A header at i, followed by a label line whose index 9 holds a digit,
      yields one record per content line up to the next header e (or the
      end), each with the header's title and that digit, in input order; the
      parse then continues at e. A header that is the last line ends the
      parse with nothing more; a bad label line makes the whole parse fail. */
  lemma HeaderSection(lines: seq<string>, i: nat, e: nat)
    requires AllTrimmed(lines)
    requires i + 2 <= e <= |lines| && IsHeader(lines[i])
    requires forall k :: i + 2 <= k < e ==> !IsHeader(lines[k])
    requires e == |lines| || IsHeader(lines[e])
    ensures var digit := LabelOf(lines[i + 1], i + 1);
            Parse(lines, i) ==
              if digit.Err? then Err(digit.error)
              else Prepend(SectionRecords(lines, i + 2, e, Title(lines[i]), digit.value), Parse(lines, e))
  {
    var digit := LabelOf(lines[i + 1], i + 1);
    if digit.Ok? {
      SectionUpTo(lines, i + 2, e, Title(lines[i]), digit.value);
    }
  }

  /** A header that is the last line: what came before is kept, nothing is
      added. */
  lemma LastHeaderStops(lines: seq<string>, testData: seq<Record>)
    requires lines != [] && IsHeader(lines[|lines| - 1])
    ensures Prepend(testData, Parse(lines, |lines| - 1)) == Ok(testData)
  {
    assert testData + [] == testData;
  }

  /** Every record the parse produces is one of the input lines (and so is
      not a header), and carries a title without `--` and a label in 0..9. */
  predicate WellFormed(lines: seq<string>, r: Record) {
    r.content in lines && Trimmed(r.content) && !IsHeader(r.content)
    && NoDashPair(r.kind) && r.labelDigit <= 9
  }

  lemma {:induction false} ParseWellFormed(lines: seq<string>, i: nat)
    requires AllTrimmed(lines)
    requires i <= |lines|
    ensures Parse(lines, i).Ok? ==>
              forall k :: 0 <= k < |Parse(lines, i).value| ==> WellFormed(lines, Parse(lines, i).value[k])
    decreases |lines| - i, 0
  {
    if i < |lines| {
      if !IsHeader(lines[i]) {
        ParseWellFormed(lines, i + 1);
      } else if i + 1 < |lines| {
        var digit := LabelOf(lines[i + 1], i + 1);
        if digit.Ok? {
          TitleMeaning(lines[i]);
          SectionWellFormed(lines, i + 2, Title(lines[i]), digit.value);
        }
      }
    }
  }

  lemma {:induction false} SectionWellFormed(lines: seq<string>, j: nat, title: string, digit: nat)
    requires AllTrimmed(lines)
    requires j <= |lines| && NoDashPair(title) && digit <= 9
    ensures Section(lines, j, title, digit).Ok? ==>
              forall k :: 0 <= k < |Section(lines, j, title, digit).value| ==>
                WellFormed(lines, Section(lines, j, title, digit).value[k])
    decreases |lines| - j, 1
  {
    if j == |lines| || IsHeader(lines[j]) {
      ParseWellFormed(lines, j);
    } else {
      SectionWellFormed(lines, j + 1, title, digit);
      StripKeepsTrimmed(lines[j]);
      var rest := Section(lines, j + 1, title, digit);
      if rest.Ok? {
        var rs := [Record(lines[j], title, digit)] + rest.value;
        assert Section(lines, j, title, digit).value == rs;
        forall k | 0 <= k < |rs| ensures WellFormed(lines, rs[k]) {
          if k > 0 {
            assert rs[k] == rest.value[k - 1];
          }
        }
      }
    }
  }
}
