/** The rest of `AutoEncoder` (utils/scripts/prediction.py): `encode`,
    `check_input`, `masked_sparse_categorical_accuracy` and `analyse`.
    The GPT-2 tokenizer's splitting and the trained network are supplied by
    the caller: the splitting as a function from text to tokens, the network
    as the index of its most probable class at each position. */
module Classifier {
  import opened Text
  import opened PreProcessing

  /** `pad_sequences(..., maxlen=40)`. */
  const MaxLen: nat := 40
  const Oov: string := "<oov>"
  /** The byte-level tokenizer's word-boundary marker 'Ġ'. */
  const Marker: char := '\U{120}'
  /** The constructor's default for `threshold`. */
  const DefaultThreshold: real := 0.35

  /** `tokenize` splits text into sub-word tokens, `vocab` is what
      `convert_tokens_to_ids` looks tokens up in. */
  datatype Tokenizer = Tokenizer(tokenize: string -> seq<string>, vocab: map<string, int>)

  /** The fields `__init__` sets once: the tokenizer, the loaded model (as
      the argmax over its output distribution at each position of an input
      sequence) and the decision threshold. */
  datatype AutoEncoder = AutoEncoder(tokenizer: Tokenizer, argmax: (seq<int>, nat) -> int, threshold: real)

  // ---------------------------------------------------------------------
  // encode

  /** Line 117-118: 'Ġ' removed from every token, empty tokens dropped. */
  function CleanTokens(ts: seq<string>): (r: seq<string>)
    ensures |r| <= |ts|
    ensures forall k :: 0 <= k < |r| ==> r[k] != [] && Marker !in r[k]
  {
    if ts == [] then []
    else
      var t := RemoveAll(ts[0], Marker);
      (if t == [] then [] else [t]) + CleanTokens(ts[1..])
  }

  /** Tokens that are already clean pass through unchanged. */
  lemma {:induction false} CleanTokensKeepsClean(ts: seq<string>)
    requires forall k :: 0 <= k < |ts| ==> ts[k] != [] && Marker !in ts[k]
    ensures CleanTokens(ts) == ts
  {
    if ts != [] {
      RemoveAllAbsent(ts[0], Marker);
      CleanTokensKeepsClean(ts[1..]);
    }
  }

  /** Cleaning works token by token and keeps the order: a single token
      loses its `Ġ` markers and is dropped iff nothing is left, and cleaning
      distributes over concatenation. */
  lemma {:induction false} CleanTokensAppend(a: seq<string>, b: seq<string>)
    ensures CleanTokens(a + b) == CleanTokens(a) + CleanTokens(b)
    ensures forall t :: CleanTokens([t]) == if RemoveAll(t, Marker) == [] then [] else [RemoveAll(t, Marker)]
  {
    if a == [] {
      assert a + b == b;
    } else {
      HeadOfAppend(a, b);
      CleanTokensAppend(a[1..], b);
      CleanTokensCons(a + b);
      CleanTokensCons(a);
      AppendAssoc(CleanTokens([a[0]]), CleanTokens(a[1..]), CleanTokens(b));
    }
    forall t ensures CleanTokens([t]) == if RemoveAll(t, Marker) == [] then [] else [RemoveAll(t, Marker)] {
      assert [t][1..] == [];
    }
  }

  /** The first token, cleaned, comes first. */
  lemma CleanTokensCons(ts: seq<string>)
    requires ts != []
    ensures CleanTokens(ts) == CleanTokens([ts[0]]) + CleanTokens(ts[1..])
  {
    assert [ts[0]][1..] == [];
  }

  /** `re.fullmatch(r"-?\d+", t)`. */
  predicate IsInteger(t: string) {
    var start := if |t| > 0 && t[0] == '-' then 1 else 0;
    |t| > start && forall k :: start <= k < |t| ==> IsDigit(t[k])
  }

  /** Line 121: a token that is one ASCII letter or an integer. */
  predicate IsBareToken(t: string) {
    (|t| == 1 && IsAsciiLetter(t[0])) || IsInteger(t)
  }

  function OovOr(t: string): string {
    if IsBareToken(t) then Oov else t
  }

  /** What the loop of lines 120-122 leaves in the token list. */
  function MarkOov(ts: seq<string>): seq<string> {
    seq(|ts|, k requires 0 <= k < |ts| => OovOr(ts[k]))
  }

  /** The marking keeps every position, replaces exactly the bare tokens,
      and leaves no bare token behind. */
  lemma MarkOovMeaning(ts: seq<string>)
    ensures |MarkOov(ts)| == |ts|
    ensures forall k :: 0 <= k < |ts| ==> (MarkOov(ts)[k] != ts[k] <==> IsBareToken(ts[k]))
    ensures forall k :: 0 <= k < |ts| ==> !IsBareToken(MarkOov(ts)[k])
    ensures MarkOov(MarkOov(ts)) == MarkOov(ts)
  {
    assert !IsBareToken(Oov) by {
      assert Oov[0] == '<' && !IsDigit(Oov[0]);
    }
  }

  /** Line 124-125: tokens mapped to ids, tokens without an id dropped. */
  function ToIds(ts: seq<string>, vocab: map<string, int>): (r: seq<int>)
    ensures |r| <= |ts|
    ensures forall k :: 0 <= k < |r| ==> r[k] in vocab.Values
    ensures (forall k :: 0 <= k < |ts| ==> ts[k] in vocab) ==>
              |r| == |ts| && forall k :: 0 <= k < |r| ==> r[k] == vocab[ts[k]]
  {
    if ts == [] then []
    else (if ts[0] in vocab then [vocab[ts[0]]] else []) + ToIds(ts[1..], vocab)
  }

  /** Lookup keeps the order: it distributes over concatenation. */
  lemma {:induction false} ToIdsAppend(a: seq<string>, b: seq<string>, vocab: map<string, int>)
    ensures ToIds(a + b, vocab) == ToIds(a, vocab) + ToIds(b, vocab)
  {
    if a == [] {
      assert a + b == b;
    } else {
      HeadOfAppend(a, b);
      ToIdsAppend(a[1..], b, vocab);
      ToIdsCons(a + b, vocab);
      ToIdsCons(a, vocab);
      AppendAssoc(ToIds([a[0]], vocab), ToIds(a[1..], vocab), ToIds(b, vocab));
    }
  }

  /** The first token's id, if any, comes first. */
  lemma ToIdsCons(ts: seq<string>, vocab: map<string, int>)
    requires ts != []
    ensures ToIds(ts, vocab) == ToIds([ts[0]], vocab) + ToIds(ts[1..], vocab)
  {
    ToIdsSingle(ts[0], vocab);
  }

  /** A known token gives its id, an unknown one is dropped. */
  lemma ToIdsSingle(t: string, vocab: map<string, int>)
    ensures ToIds([t], vocab) == if t in vocab then [vocab[t]] else []
  {
    assert [t][1..] == [];
  }

  /** Line 126: `pad_sequences` with `padding="post"` and
      `truncating="post"`: the first n ids, then zeros up to length n. */
  function PadTruncate(ids: seq<int>, n: nat): (r: seq<int>)
    ensures |r| == n
    ensures forall k :: 0 <= k < n && k < |ids| ==> r[k] == ids[k]
    ensures forall k :: |ids| <= k < n ==> r[k] == 0
  {
    if |ids| >= n then ids[..n] else ids + seq(n - |ids|, _ => 0)
  }

  /** The value `encode` returns. */
  function EncodeSpec(query: string, tokenizer: Tokenizer): seq<int> {
    var tokens := CleanTokens(tokenizer.tokenize(PreProcess(query)));
    PadTruncate(ToIds(MarkOov(tokens), tokenizer.vocab), MaxLen)
  }

  /** Lines 120-122: every bare token of the list is overwritten, in place,
      with `<oov>`. */
  method MarkBareTokens(tok: array<string>)
    modifies tok
    ensures tok[..] == MarkOov(old(tok[..]))
  {
    var i := 0;
    while i < tok.Length
      invariant 0 <= i <= tok.Length
      invariant forall k :: 0 <= k < i ==> tok[k] == OovOr(old(tok[k]))
      invariant forall k :: i <= k < tok.Length ==> tok[k] == old(tok[k])
    {
      if IsBareToken(tok[i]) {
        tok[i] := Oov;
      }
      i := i + 1;
    }
  }

  /** `AutoEncoder.encode`: preprocess, tokenize, clean the tokens, replace
      the bare ones in place, look up ids, pad or truncate to 40. */
  method Encode(query: string, tokenizer: Tokenizer) returns (ids: seq<int>)
    ensures ids == EncodeSpec(query, tokenizer)
    ensures |ids| == MaxLen
  {
    var text := PreProcess(query);
    var clean := CleanTokens(tokenizer.tokenize(text));
    var tok := new string[|clean|](k requires 0 <= k < |clean| => clean[k]);
    assert tok[..] == clean;
    MarkBareTokens(tok);
    ids := PadTruncate(ToIds(tok[..], tokenizer.vocab), MaxLen);
  }

  // ---------------------------------------------------------------------
  // check_input

  /** Line 171: `input[input != 0]`, the ids that are not padding. */
  function NonPadding(ids: seq<int>): (r: seq<int>)
    ensures |r| <= |ids|
    ensures forall k :: 0 <= k < |r| ==> r[k] != 0 && r[k] in ids
    ensures forall k :: 0 <= k < |ids| && ids[k] != 0 ==> ids[k] in r
  {
    if ids == [] then []
    else (if ids[0] != 0 then [ids[0]] else []) + NonPadding(ids[1..])
  }

  /** Lines 171-177. */
  predicate CheckInput(ids: seq<int>) {
    var rest := NonPadding(ids);
    var isShort := |rest| <= 2;
    var isOnes := forall k :: 0 <= k < |rest| ==> rest[k] == 1;
    var isEmpty := |rest| == 0;
    !(isShort || isOnes || isEmpty)
  }

  /** The input is accepted iff at least three ids are not padding and one
      of those is not 1. */
  lemma CheckInputMeaning(ids: seq<int>)
    ensures CheckInput(ids) <==>
              |NonPadding(ids)| >= 3 && exists k :: 0 <= k < |ids| && ids[k] != 0 && ids[k] != 1
  {
    var rest := NonPadding(ids);
    if CheckInput(ids) {
      var j :| 0 <= j < |rest| && rest[j] != 1;
      var k :| 0 <= k < |ids| && ids[k] == rest[j];
    }
    if exists k :: 0 <= k < |ids| && ids[k] != 0 && ids[k] != 1 {
      var k :| 0 <= k < |ids| && ids[k] != 0 && ids[k] != 1;
      var j :| 0 <= j < |rest| && rest[j] == ids[k];
    }
  }

  lemma {:induction false} NonPaddingAppend(a: seq<int>, b: seq<int>)
    ensures NonPadding(a + b) == NonPadding(a) + NonPadding(b)
  {
    if a == [] {
      assert a + b == b;
    } else {
      assert (a + b)[0] == a[0] && (a + b)[1..] == a[1..] + b;
      NonPaddingAppend(a[1..], b);
    }
  }

  lemma {:induction false} NonPaddingOfZeros(n: nat)
    ensures NonPadding(seq(n, _ => 0)) == []
  {
    if n > 0 {
      assert seq(n, _ => 0)[1..] == seq(n - 1, _ => 0);
      NonPaddingOfZeros(n - 1);
    }
  }

  /** Padding adds no id that `check_input` counts. */
  lemma PaddingNotCounted(ids: seq<int>, n: nat)
    ensures |NonPadding(PadTruncate(ids, n))| <= |ids|
  {
    if |ids| < n {
      NonPaddingAppend(ids, seq(n - |ids|, _ => 0));
      NonPaddingOfZeros(n - |ids|);
    }
  }

  // ---------------------------------------------------------------------
  // masked_sparse_categorical_accuracy

  /** Lines 132-134: positions whose true id is neither 0 nor 1 are scored. */
  predicate Scored(id: int) {
    id != 0 && id != 1
  }

  /** `reduce_sum(mask)`: the number of scored positions. */
  function MaskCount(yTrue: seq<int>): (n: nat)
    ensures n <= |yTrue|
  {
    if yTrue == [] then 0 else (if Scored(yTrue[0]) then 1 else 0) + MaskCount(yTrue[1..])
  }

  /** `reduce_sum(accuracy)`: scored positions where the prediction equals
      the true id. */
  function HitCount(yTrue: seq<int>, yPred: seq<int>): (n: nat)
    requires |yPred| == |yTrue|
    ensures n <= MaskCount(yTrue)
  {
    if yTrue == [] then 0
    else (if Scored(yTrue[0]) && yPred[0] == yTrue[0] then 1 else 0) + HitCount(yTrue[1..], yPred[1..])
  }

  /** Every hit is counted exactly when every scored position agrees. */
  lemma {:induction false} AllHit(yTrue: seq<int>, yPred: seq<int>)
    requires |yPred| == |yTrue|
    ensures HitCount(yTrue, yPred) == MaskCount(yTrue) <==>
              forall k :: 0 <= k < |yTrue| && Scored(yTrue[k]) ==> yPred[k] == yTrue[k]
  {
    if yTrue != [] {
      AllHit(yTrue[1..], yPred[1..]);
      assert forall k :: 1 <= k < |yTrue| ==> yTrue[k] == yTrue[1..][k - 1] && yPred[k] == yPred[1..][k - 1];
    }
  }

  /** `reduce_sum(accuracy) / reduce_sum(mask)` with exact division, and
      0 when nothing is scored (`divide_no_nan`). */
  function Ratio(h: nat, m: nat): (r: real)
    requires h <= m
    ensures 0.0 <= r <= 1.0
    ensures m == 0 ==> r == 0.0
    ensures r == 1.0 <==> m > 0 && h == m
  {
    if m == 0 then 0.0
    else
      assert h as real / m as real == 1.0 ==> h == m by {
        if h as real / m as real == 1.0 {
          assert h as real == (h as real / m as real) * m as real;
        }
      }
      h as real / m as real
  }

  /** A ratio reaches a threshold t exactly when the hit count reaches t
      times the scored count: the comparison needs no division. */
  lemma RatioAtLeast(h: nat, m: nat, t: real)
    requires h <= m && m > 0
    ensures Ratio(h, m) >= t <==> h as real >= t * m as real
  {
    var a := h as real / m as real;
    assert Ratio(h, m) == a;
    assert a * m as real == h as real;
    assert a * m as real - t * m as real == (a - t) * m as real;
    if a >= t {
      assert (a - t) * m as real >= 0.0;
    } else {
      assert (t - a) * m as real > 0.0;
    }
  }

  /** Lines 131-145: the share of scored positions the prediction gets
      right; 1 exactly when it gets every scored position right. */
  function MaskedAccuracy(yTrue: seq<int>, yPred: seq<int>): (a: real)
    requires |yPred| == |yTrue|
    ensures 0.0 <= a <= 1.0
    ensures MaskCount(yTrue) == 0 ==> a == 0.0
    ensures a == 1.0 <==>
              MaskCount(yTrue) > 0 && forall k :: 0 <= k < |yTrue| && Scored(yTrue[k]) ==> yPred[k] == yTrue[k]
  {
    AllHit(yTrue, yPred);
    Ratio(HitCount(yTrue, yPred), MaskCount(yTrue))
  }

  /** The accuracy reaches a threshold t exactly when the hit count reaches
      t times the number of scored positions. */
  lemma AccuracyAtLeast(yTrue: seq<int>, yPred: seq<int>, t: real, hits: nat, scored: nat)
    requires |yPred| == |yTrue|
    requires hits == HitCount(yTrue, yPred) && scored == MaskCount(yTrue) && scored > 0
    ensures MaskedAccuracy(yTrue, yPred) >= t <==> hits as real >= t * scored as real
  {
    RatioAtLeast(hits, scored, t);
  }

  /** A position whose true id is neither 0 nor 1 is scored. */
  lemma {:induction false} ScoredCounted(yTrue: seq<int>, k: nat)
    requires k < |yTrue| && Scored(yTrue[k])
    ensures MaskCount(yTrue) > 0
  {
    if k > 0 {
      assert yTrue[k] == yTrue[1..][k - 1];
      ScoredCounted(yTrue[1..], k - 1);
    }
  }

  /** An input that passes `check_input` has a scored position, so its
      accuracy is never the "nothing scored" 0. */
  lemma AcceptedIsScored(ids: seq<int>)
    requires CheckInput(ids)
    ensures MaskCount(ids) > 0
  {
    CheckInputMeaning(ids);
    var k :| 0 <= k < |ids| && ids[k] != 0 && ids[k] != 1;
    ScoredCounted(ids, k);
  }

  /** At the default threshold 0.35, a ratio of h hits over m scored
      positions passes iff 20 × h >= 7 × m: the verdict needs no division. */
  lemma DefaultThresholdRatio(h: nat, m: nat)
    requires h <= m && m > 0
    ensures Ratio(h, m) >= DefaultThreshold <==> 20 * h >= 7 * m
  {
    RatioAtLeast(h, m, DefaultThreshold);
    assert DefaultThreshold == 7.0 / 20.0;
  }

  /** With the default threshold, an accepted input is flagged iff its
      hits are at least 7/20 of its scored positions. */
  lemma DefaultThresholdVerdict(ae: AutoEncoder, ids: seq<int>)
    requires ae.threshold == DefaultThreshold && CheckInput(ids)
    ensures Verdict(ae, ids) == 1 <==>
              20 * HitCount(ids, Predictions(ids, ae.argmax)) >= 7 * MaskCount(ids)
  {
    var yPred := Predictions(ids, ae.argmax);
    AcceptedIsScored(ids);
    DefaultThresholdRatio(HitCount(ids, yPred), MaskCount(ids));
  }

  // ---------------------------------------------------------------------
  // analyse

  /** The network's argmax class at every position of the input. */
  function Predictions(ids: seq<int>, argmax: (seq<int>, nat) -> int): (r: seq<int>)
    ensures |r| == |ids|
  {
    seq(|ids|, k requires 0 <= k < |ids| => argmax(ids, k))
  }

  /** The verdict `analyse` gives for the encoded query `ids`. */
  function Verdict(ae: AutoEncoder, ids: seq<int>): int {
    if !CheckInput(ids) then 0
    else if MaskedAccuracy(ids, Predictions(ids, ae.argmax)) >= ae.threshold then 1
    else 0
  }

  /** `AutoEncoder.analyse`: 0 for a rejected input (the model is not
      consulted), otherwise 1 iff the masked accuracy of the model on the
      encoded query reaches the threshold. */
  method Analyse(ae: AutoEncoder, input: string) returns (verdict: int)
    ensures verdict == Verdict(ae, EncodeSpec(input, ae.tokenizer))
    ensures verdict == 0 || verdict == 1
  {
    var yTrue := Encode(input, ae.tokenizer);
    if !CheckInput(yTrue) {
      return 0;
    }
    var yPred := Predictions(yTrue, ae.argmax);
    var proba := MaskedAccuracy(yTrue, yPred);
    verdict := if proba >= ae.threshold then 1 else 0;
  }

  /** The verdict is 1 iff the input passes `check_input` and the masked
      accuracy reaches the threshold; a rejected input gets 0 whatever the
      model would predict. */
  lemma VerdictMeaning(ae: AutoEncoder, ids: seq<int>)
    ensures Verdict(ae, ids) == 0 || Verdict(ae, ids) == 1
    ensures Verdict(ae, ids) == 1 <==>
              CheckInput(ids) && MaskedAccuracy(ids, Predictions(ids, ae.argmax)) >= ae.threshold
    ensures !CheckInput(ids) ==>
              forall other: (seq<int>, nat) -> int :: Verdict(ae.(argmax := other), ids) == 0
  {
  }

  /** Whatever the model predicts, an accepted input is flagged when the
      threshold is 0 or below, and never when it is above 1. */
  lemma VerdictExtremes(ae: AutoEncoder, ids: seq<int>)
    requires CheckInput(ids)
    ensures ae.threshold <= 0.0 ==> Verdict(ae, ids) == 1
    ensures ae.threshold > 1.0 ==> Verdict(ae, ids) == 0
  {
  }

  /** A query the tokenizer splits into at most two tokens is never flagged:
      `check_input` needs three ids that are not padding. */
  lemma FewTokensAreBenign(ae: AutoEncoder, query: string)
    requires |ae.tokenizer.tokenize(PreProcess(query))| <= 2
    ensures Verdict(ae, EncodeSpec(query, ae.tokenizer)) == 0
  {
    var tokens := CleanTokens(ae.tokenizer.tokenize(PreProcess(query)));
    var ids := ToIds(MarkOov(tokens), ae.tokenizer.vocab);
    PaddingNotCounted(ids, MaxLen);
  }

  /** The empty query (a tokenizer gives no token for empty text) encodes
      to 40 padding ids and is not flagged. */
  lemma EmptyQueryIsBenign(ae: AutoEncoder)
    requires ae.tokenizer.tokenize([]) == []
    ensures EncodeSpec([], ae.tokenizer) == seq(MaxLen, _ => 0)
    ensures Verdict(ae, EncodeSpec([], ae.tokenizer)) == 0
  {
    PreProcessEmpty();
    FewTokensAreBenign(ae, []);
  }
}
