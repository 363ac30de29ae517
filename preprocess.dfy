/** `AutoEncoder.pre_process` (utils/scripts/prediction.py, lines 69-102):
    the fixed chain of rewrites that canonicalises a query. */
module PreProcessing {
  import opened Text
  import opened Patterns
  import opened Substitutions

  /** The substitutions of lines 84-99, in the order they are applied. */
  const Steps: seq<Pattern> := [
    Spaces, Email, Dotted, Time, Date, WordSeries, DigitSeries, CharCall,
    SeriesChain, Number, Repetition, Single, SpecialRun, SpecialChar
  ]

  /** Applies the substitutions of ps to t, the first one first. */
  function SubAll(ps: seq<Pattern>, t: string): string
    decreases |ps|
  {
    if ps == [] then t else Sub(ps[|ps| - 1], SubAll(ps[..|ps| - 1], t))
  }

  /** Lines 80-82: newlines removed, lower-cased, trimmed. */
  function Clean(text: string): string {
    Strip(Lower(RemoveAll(text, '\n')))
  }

  function PreProcess(text: string): string {
    RemoveAll(SubAll(Steps, Clean(text)), ',')
  }

  lemma CleanHasNoNewline(text: string)
    ensures '\n' !in Clean(text)
  {
    var t := RemoveAll(text, '\n');
    var u := Lower(t);
    assert forall k :: 0 <= k < |u| ==> u[k] != '\n' by {
      forall k | 0 <= k < |u| ensures u[k] != '\n' {
        assert t[k] in t;
      }
    }
    var a := LeadingSpaces(u);
    var r := Strip(u);
    forall k | 0 <= k < |r| ensures r[k] != '\n' {
      assert r[k] == u[a + k];
    }
  }

  /** Substitutions whose replacements lack c never bring c back. */
  lemma {:induction false} SubAllKeepsOut(ps: seq<Pattern>, t: string, c: char)
    requires c !in t
    requires forall k :: 0 <= k < |ps| ==> c !in Replacement(ps[k])
    ensures c !in SubAll(ps, t)
    decreases |ps|
  {
    if ps != [] {
      var init := ps[..|ps| - 1];
      SubAllKeepsOut(init, t, c);
      SubKeepsOut(ps[|ps| - 1], SubAll(init, t), c);
    }
  }

  lemma StepsFacts()
    ensures |Steps| == 14
    ensures Steps[13] == SpecialChar && Steps[..13][12] == SpecialRun
    ensures Steps[..13][..12] == Steps[..12]
    ensures forall k :: 0 <= k < |Steps| ==> '\n' !in Replacement(Steps[k])
  {
  }

  lemma SubAllLast(ps: seq<Pattern>, t: string)
    requires ps != []
    ensures SubAll(ps, t) == Sub(ps[|ps| - 1], SubAll(ps[..|ps| - 1], t))
  {
  }

  lemma NoNewlineAfterSteps(text: string)
    ensures '\n' !in SubAll(Steps, Clean(text))
  {
    CleanHasNoNewline(text);
    StepsFacts();
    SubAllKeepsOut(Steps, Clean(text), '\n');
  }

  lemma LastStepAvoidsSpecial(ps: seq<Pattern>, t: string)
    requires ps != [] && ps[|ps| - 1] == SpecialChar
    ensures forall k :: 0 <= k < |SubAll(ps, t)| ==> !IsSpecial(SubAll(ps, t)[k])
  {
    SubFromAvoids(SpecialChar, SubAll(ps[..|ps| - 1], t), 0, Special);
  }

  lemma RemoveCommasAvoidsSpecial(t: string)
    requires forall k :: 0 <= k < |t| ==> !IsSpecial(t[k])
    ensures forall k :: 0 <= k < |RemoveAll(t, ',')| ==> !IsSpecial(RemoveAll(t, ',')[k])
  {
    var r := RemoveAll(t, ',');
    forall k | 0 <= k < |r| ensures !IsSpecial(r[k]) {
      assert multiset(r)[r[k]] > 0;
      assert r[k] in t;
    }
  }

  /** The output of `pre_process` holds no newline, no comma and none of
      the special characters `@ $ % ^ ! ~ / [ ] - \``; each of them is
      removed by one step and brought back by no later one. */
  lemma PreProcessOutput(text: string)
    ensures '\n' !in PreProcess(text)
    ensures ',' !in PreProcess(text)
    ensures forall k :: 0 <= k < |PreProcess(text)| ==> !IsSpecial(PreProcess(text)[k])
  {
    var t := SubAll(Steps, Clean(text));
    NoNewlineAfterSteps(text);
    StepsFacts();
    LastStepAvoidsSpecial(Steps, Clean(text));
    RemoveAllKeepsOut(t, ',', '\n');
    RemoveCommasAvoidsSpecial(t);
  }

  /** The last two substitutions turn runs of special characters into
      `<REGEX>` and lone ones into `<SPECIAL>` (see `MarkSpecials`). */
  lemma PreProcessMarksSpecials(text: string)
    ensures PreProcess(text) == RemoveAll(MarkSpecials(SubAll(Steps[..12], Clean(text)), 0), ',')
  {
    var c := Clean(text);
    StepsFacts();
    SubAllLast(Steps, c);
    SubAllLast(Steps[..13], c);
    SpecialsReplaced(SubAll(Steps[..12], c));
  }

  lemma {:induction false} SubAllEmpty(ps: seq<Pattern>)
    ensures SubAll(ps, []) == []
    decreases |ps|
  {
    if ps != [] {
      SubAllEmpty(ps[..|ps| - 1]);
    }
  }

  /** The empty query stays empty. */
  lemma PreProcessEmpty()
    ensures PreProcess([]) == []
  {
    assert Clean([]) == [];
    SubAllEmpty(Steps);
  }
}
