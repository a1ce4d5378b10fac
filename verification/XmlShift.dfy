/** Decoding looks ahead only: a text that begins later is decoded as the same part of the whole text. */
module XmlShift {
  import opened Digits
  import opened XmlChars
  import opened XmlDecode

  lemma AtShift(s: string, b: nat, i: nat)
    requires b <= |s|
    ensures At(s[b..], i) == At(s, b + i)
  {
  }

  lemma {:induction false} DigitsEndShift(hex: bool, s: string, b: nat, k: nat)
    requires b <= |s| && k <= |s[b..]|
    ensures DigitsEnd(hex, s, b + k) == b + DigitsEnd(hex, s[b..], k)
    decreases |s| - k
  {
    AtShift(s, b, k);
    if IsDigitOf(hex, At(s[b..], k)) {
      DigitsEndShift(hex, s, b, k + 1);
    }
  }

  lemma {:induction false} NumberShift(hex: bool, s: string, b: nat, k: nat, e: nat)
    requires b <= |s| && k <= e <= |s[b..]| && forall j | k <= j < e :: IsDigitOf(hex, s[b..][j])
    ensures forall j | b + k <= j < b + e :: IsDigitOf(hex, s[j])
    ensures Number(hex, s, b + k, b + e) == Number(hex, s[b..], k, e)
  {
    forall j | b + k <= j < b + e ensures IsDigitOf(hex, s[j]) {
      assert s[j] == s[b..][j - b];
    }
    if e > k {
      NumberShift(hex, s, b, k, e - 1);
      assert s[b..][e - 1] == s[b + e - 1];
    }
  }

  lemma {:induction false} MatchEndShift(s: string, b: nat, k: nat, word: string, m: nat)
    requires b <= |s| && m <= |word| && k + m <= |s[b..]| && IsText(word)
    ensures MatchEnd(s, b + k, word, m) == MatchEnd(s[b..], k, word, m)
    decreases |word| - m
  {
    AtShift(s, b, k + m);
    if m < |word| && At(s[b..], k + m) == word[m] {
      MatchEndShift(s, b, k, word, m + 1);
    }
  }

  /** f is the reference e, b characters later. */
  predicate Later(e: Reference, f: Reference, b: nat) {
    f.output == e.output && f.next == e.next + b
  }

  lemma VerbatimShift(s: string, b: nat, i: nat, next: nat)
    requires b <= |s| && i <= next <= |s[b..]|
    ensures Later(Verbatim(s[b..], i, next), Verbatim(s, b + i, b + next), b)
  {
    assert s[b..][i..next] == s[b + i..b + next];
  }

  lemma CharReferenceShift(hex: bool, s: string, b: nat, i: nat, k: nat)
    requires b <= |s| && i + 2 <= k <= |s[b..]|
    ensures Later(CharReference(hex, s[b..], i, k), CharReference(hex, s, b + i, b + k), b)
  {
    var e := DigitsEnd(hex, s[b..], k);
    DigitsEndShift(hex, s, b, k);
    AtShift(s, b, k);
    AtShift(s, b, e);
    NumberShift(hex, s, b, k, e);
    VerbatimShift(s, b, i, e);
  }

  lemma EntityShift(s: string, b: nat, i: nat, word: string, c: char)
    requires b <= |s| && i < |s[b..]| && IsText(word)
    ensures Later(EntityReference(s[b..], i, word, c), EntityReference(s, b + i, word, c), b)
  {
    var m := MatchEnd(s[b..], i + 1, word, 0);
    MatchEndShift(s, b, i + 1, word, 0);
    VerbatimShift(s, b, i, i + 1 + m);
  }

  lemma NumericShift(s: string, b: nat, i: nat)
    requires b <= |s| && i < |s[b..]| && At(s[b..], i + 1) == '#' && At(s, b + i + 1) == '#'
    ensures Later(NumericAt(s[b..], i), NumericAt(s, b + i), b)
  {
    AtShift(s, b, i + 2);
    CharReferenceShift(At(s[b..], i + 2) == 'x', s, b, i, if At(s[b..], i + 2) == 'x' then i + 3 else i + 2);
  }

  lemma AmpOrAposShift(s: string, b: nat, i: nat)
    requires b <= |s| && i < |s[b..]| && At(s[b..], i + 1) == 'a' && At(s, b + i + 1) == 'a'
    ensures Later(AmpOrAposAt(s[b..], i), AmpOrAposAt(s, b + i), b)
  {
    AtShift(s, b, i + 2);
    EntityShift(s, b, i, "amp;", '&');
    EntityShift(s, b, i, "apos;", '\'');
    VerbatimShift(s, b, i, i + 2);
  }

  lemma EscapeShift(s: string, b: nat, i: nat)
    requires b <= |s| && i < |s[b..]|
    ensures Later(EscapeAt(s[b..], i), EscapeAt(s, b + i), b)
  {
    AtShift(s, b, i + 1);
    var c := At(s[b..], i + 1);
    if c == '#' {
      NumericShift(s, b, i);
    } else if c == 'a' {
      AmpOrAposShift(s, b, i);
    } else if StartsName(c) {
      EntityShift(s, b, i, NameOf(c), NamedBy(c));
    } else {
      VerbatimShift(s, b, i, i + 1);
    }
  }

  function StepLater(step: Step, b: nat): Step {
    match step
    case More(output, next) => More(output, next + b)
    case Done(next) => Done(next + b)
    case Broken => Broken
  }

  lemma StopShift(stop: Stop, s: string, b: nat, i: nat)
    requires b <= |s|
    ensures StopAt(stop, s, b + i) == StepLater(StopAt(stop, s[b..], i), b)
  {
    AtShift(s, b, i);
    AtShift(s, b, i + 1);
    AtShift(s, b, i + 2);
  }

  lemma StepShift(r: Rules, s: string, b: nat, i: nat)
    requires b <= |s| && i <= |s[b..]|
    ensures StepAt(r, s, b + i) == StepLater(StepAt(r, s[b..], i), b)
  {
    StopShift(r.stop, s, b, i);
    if i < |s[b..]| {
      AtShift(s, b, i + 1);
      assert s[b..][i] == s[b + i];
      EscapeShift(s, b, i);
    }
  }

  function DecodedLater(d: Decoded, b: nat): Decoded {
    if d.Ended? then d.(next := d.next + b) else d
  }

  /** Decoding from a position is decoding the text that begins there. */
  lemma {:induction false} DecodeShift(r: Rules, s: string, b: nat, i: nat)
    requires IsText(s) && b <= |s| && i <= |s[b..]| && IsText(s[b..])
    ensures DecodeFrom(r, s, b + i) == DecodedLater(DecodeFrom(r, s[b..], i), b)
    decreases |s| - i
  {
    StepShift(r, s, b, i);
    StepAdvances(r, s[b..], i);
    StepAdvances(r, s, b + i);
    var step := StepAt(r, s[b..], i);
    if step.More? {
      DecodeShift(r, s, b, step.next);
    }
  }

  /** Room for the terminator: what is decoded is shorter than what is read, unless the text ends there. */
  lemma {:induction false} DecodeFits(r: Rules, s: string, i: nat)
    requires IsText(s) && i <= |s| && DecodeFrom(r, s, i).Ended? && (r.stop.AtQuote? || r.stop.AtTag?)
    ensures var d := DecodeFrom(r, s, i); |d.output| + (if r.stop.AtQuote? || d.next < |s| then 1 else 0) <= d.next - i
    decreases |s| - i
  {
    StepAdvances(r, s, i);
    var step := StepAt(r, s, i);
    if step.More? {
      DecodeFits(r, s, step.next);
    }
  }

  lemma {:induction false} SectionFits(endch: char, s: string, i: nat)
    requires IsText(s) && i <= |s| && DecodeFrom(Rules(ToLineFeed, false, AtCData(endch)), s, i).Ended?
    ensures var d := DecodeFrom(Rules(ToLineFeed, false, AtCData(endch)), s, i); |d.output| + 1 <= d.next - i
    decreases |s| - i
  {
    var r := Rules(ToLineFeed, false, AtCData(endch));
    StepAdvances(r, s, i);
    var step := StepAt(r, s, i);
    if step.More? {
      SectionFits(endch, s, step.next);
    }
  }
}
