/** The conversions `strconv_pcdata`, `strconv_attribute`, `strconv_comment` and `strconv_cdata` in place. */
module XmlConvert {
  import opened Wrappers
  import opened XmlChars
  import opened XmlDecode
  import opened XmlGap
  import opened XmlStrconv

  // ------------------------------------------------------------------ one-pass decoding

  /** The first pos characters decode to output. */
  ghost predicate Decoding(r: Rules, text: string, pos: nat, output: string) {
    IsText(text) && pos <= |text| && Prepend(output, DecodeFrom(r, text, pos)) == DecodeFrom(r, text, 0)
  }

  lemma DecodeStarts(r: Rules, text: string)
    requires IsText(text)
    ensures Decoding(r, text, 0, [])
  {
    var d := DecodeFrom(r, text, 0);
    assert d.Ended? ==> [] + d.output == d.output;
  }

  lemma DecodeStep(r: Rules, text: string, pos: nat, output: string)
    requires Decoding(r, text, pos, output)
    ensures var step := StepAt(r, text, pos);
            && (step.More? ==> pos < step.next <= |text| && Decoding(r, text, step.next, output + step.output))
            && (step.Done? ==> DecodeFrom(r, text, 0) == Ended(output, step.next))
            && (step.Broken? ==> DecodeFrom(r, text, 0) == Unterminated)
  {
    StepAdvances(r, text, pos);
    var step := StepAt(r, text, pos);
    if step.More? {
      var d := DecodeFrom(r, text, step.next);
      if d.Ended? {
        Regroup(output, step.output, d.output);
      }
    } else {
      assert output + [] == output;
    }
  }

  /** The characters at which the fast scan of a conversion halts. */
  predicate Halts(r: Rules, c: char) {
    match r.stop
    case AtTag => c == '\0' || c == '&' || c == '\r' || c == '<'
    case AtQuote(_) => c == '\0' || c == '&' || c == '\r' || c == '\'' || c == '"' || (r.lineEnds == ToBlank && (c == '\n' || c == '\t'))
    case AtComment(_) => c == '\0' || c == '-' || c == '>' || c == '\r'
    case AtCData(_) => c == '\0' || c == ']' || c == '>' || c == '\r'
  }

  /** The rules the source has conversions for. */
  predicate KnownRules(r: Rules) {
    match r.stop
    case AtTag => r.lineEnds != ToBlank
    case AtQuote(q) => q == '"' || q == '\''
    case _ => r.lineEnds == ToLineFeed && !r.escape
  }

  lemma NoHalt(r: Rules, text: string, pos: nat)
    requires KnownRules(r) && pos < |text| && !Halts(r, text[pos])
    ensures StepAt(r, text, pos) == More([text[pos]], pos + 1)
  {
  }

  // ------------------------------------------------------------------- common steps

  /** A conversion under way in the buffer. */
  ghost predicate Running(buf: string, r: Rules, at: Spot, h: Hole, s: nat, output: string) {
    at.begin <= s && Converting(buf, at, h, s - at.begin, output) && Decoding(r, at.text, s - at.begin, output)
  }

  lemma RunningStarts(buf: string, r: Rules, at: Spot)
    requires IsText(at.text) && InPlace(buf, at, 0)
    ensures Running(buf, r, at, Hole(None, 0), at.begin, [])
  {
    DecodeStarts(r, at.text);
    assert Kept(Hole(None, 0), buf, at.begin, at.begin) == [];
  }

  /** One character that stays. */
  lemma Passes(buf: string, r: Rules, at: Spot, h: Hole, s: nat, output: string)
    requires Running(buf, r, at, h, s, output) && s - at.begin < |at.text|
    requires StepAt(r, at.text, s - at.begin) == More([at.text[s - at.begin]], s - at.begin + 1)
    ensures Running(buf, r, at, h, s + 1, output + [at.text[s - at.begin]])
  {
    var pos := s - at.begin;
    DecodeStep(r, at.text, pos, output);
    AdvanceOne(buf, at, h, pos, output);
  }

  /** The fast scan over characters that stay. */
  method ScanOver(buf: array<char>, r: Rules, start: nat, g: Gap, ghost at: Spot, ghost output0: string)
    returns (s: nat, ghost output: string)
    requires KnownRules(r) && Running(buf[..], r, at, g.hole, start, output0)
    ensures start <= s && Running(buf[..], r, at, g.hole, s, output)
    ensures buf[..][s] == At(at.text, s - at.begin) && Halts(r, buf[..][s])
  {
    s, output := start, output0;
    assert buf[..][s] == At(at.text, s - at.begin);
    while !Halts(r, buf[s])
      invariant start <= s && Running(buf[..], r, at, g.hole, s, output)
      invariant buf[..][s] == At(at.text, s - at.begin)
      decreases at.begin + |at.text| - s
    {
      NoHalt(r, at.text, s - at.begin);
      Passes(buf[..], r, at, g.hole, s, output);
      output := output + [at.text[s - at.begin]];
      s := s + 1;
      assert buf[..][s] == At(at.text, s - at.begin);
    }
  }

  /** A carriage return becomes c; a line feed behind it goes into the gap. */
  method ConvertReturn(buf: array<char>, s: nat, c: char, g: Gap, ghost at: Spot, ghost output: string)
    returns (next: nat)
    requires at.begin <= s < at.begin + |at.text| && Converting(buf[..], at, g.hole, s - at.begin, output)
    modifies g, buf
    ensures next == at.begin + (if At(at.text, s - at.begin + 1) == '\n' then s - at.begin + 2 else s - at.begin + 1)
    ensures next - at.begin <= |at.text| && Converting(buf[..], at, g.hole, next - at.begin, output + [c])
  {
    assert buf[..][s + 1] == At(at.text, s + 1 - at.begin);
    if buf[s + 1] == '\n' {
      next := s + 2;
      ReplaceText(buf, g, s, [c], next, at, output);
    } else {
      next := s + 1;
      ReplaceOne(buf, g, s, c, at, output);
    }
  }

  /** Collapses the gap and puts the terminator behind the text. */
  method Terminate(buf: array<char>, s: nat, g: Gap, ghost at: Spot, ghost output: string) returns (end: nat)
    requires at.begin <= s && Converting(buf[..], at, g.hole, s - at.begin, output)
    modifies buf
    ensures end == at.begin + |output| <= s && end < buf.Length
    ensures buf[at.begin..end] == output && buf[end] == '\0'
    ensures forall x | 0 <= x < at.begin || (s <= x < buf.Length && x != end) :: buf[x] == old(buf[x])
  {
    ghost var cur := buf[..];
    end := g.Flush(buf, s, at.begin);
    ghost var done := buf[..];
    ClosedText(g.hole, cur, done, at.begin, s);
    buf[end] := '\0';
    assert buf[at.begin..end] == done[at.begin..end];
  }

  /** A line end, or any white space when it is to become a blank. */
  method ConvertLineEnd(buf: array<char>, lineEnds: LineEnds, s: nat, g: Gap, ghost at: Spot, ghost output: string) returns (next: nat)
    requires at.begin <= s < at.begin + |at.text| && Converting(buf[..], at, g.hole, s - at.begin, output)
    requires IsLineEnd(lineEnds, buf[..][s])
    modifies g, buf
    ensures var step := LineEndAt(lineEnds, at.text, s - at.begin);
            && next == at.begin + step.next && step.next <= |at.text|
            && Converting(buf[..], at, g.hole, step.next, output + step.output)
  {
    Ahead(buf[..], at, s - at.begin, s - at.begin);
    var c := if lineEnds == ToBlank then ' ' else '\n';
    if buf[s] == '\r' {
      next := ConvertReturn(buf, s, c, g, at, output);
    } else {
      ReplaceOne(buf, g, s, c, at, output);
      next := s + 1;
    }
  }

  /** The step at a character c that does not end the text: a line end, a reference, or any other. */
  predicate IsStep(r: Rules, text: string, pos: nat, c: char, step: Step)
    requires pos < |text|
  {
    step == if IsLineEnd(r.lineEnds, c) then LineEndAt(r.lineEnds, text, pos)
            else if r.escape && c == '&' then More(EscapeAt(text, pos).output, EscapeAt(text, pos).next)
            else More([c], pos + 1)
  }

  /** The next step of decoding. */
  lemma NextStep(r: Rules, text: string, pos: nat, output: string) returns (step: Step)
    requires Decoding(r, text, pos, output) && pos < |text| && StopAt(r.stop, text, pos).Broken?
    ensures step.More? && pos < step.next <= |text| && Decoding(r, text, step.next, output + step.output)
    ensures IsStep(r, text, pos, text[pos], step)
  {
    MoreMeans(r, text, pos);
    DecodeStep(r, text, pos, output);
    step := StepAt(r, text, pos);
  }

  /** Replaces what stands at s as the step says. */
  method ConvertBy(buf: array<char>, r: Rules, s: nat, g: Gap, ghost at: Spot, ghost output: string, ghost step: Step) returns (next: nat)
    requires at.begin <= s < at.begin + |at.text| && Converting(buf[..], at, g.hole, s - at.begin, output)
    requires IsStep(r, at.text, s - at.begin, at.text[s - at.begin], step)
    modifies g, buf
    ensures step.More? && next == at.begin + step.next && step.next <= |at.text|
    ensures Converting(buf[..], at, g.hole, step.next, output + step.output)
  {
    Ahead(buf[..], at, s - at.begin, s - at.begin);
    if IsLineEnd(r.lineEnds, buf[s]) {
      next := ConvertLineEnd(buf, r.lineEnds, s, g, at, output);
    } else if r.escape && buf[s] == '&' {
      next := StrconvEscape(buf, s, g, at, output);
    } else {
      AdvanceOne(buf[..], at, g.hole, s - at.begin, output);
      next := s + 1;
    }
  }

  /** A character at which the scan halted, but the text does not end: a line end, a reference, or any other. */
  method ConvertOne(buf: array<char>, r: Rules, s: nat, g: Gap, ghost at: Spot, ghost output0: string)
    returns (next: nat, ghost output: string)
    requires Running(buf[..], r, at, g.hole, s, output0)
    requires StopAt(r.stop, at.text, s - at.begin).Broken? && s - at.begin < |at.text|
    modifies g, buf
    ensures s < next <= at.begin + |at.text| && Running(buf[..], r, at, g.hole, next, output)
  {
    ghost var step := NextStep(r, at.text, s - at.begin, output0);
    next := ConvertBy(buf, r, s, g, at, output0, step);
    output := output0 + step.output;
  }

  lemma AdvanceOne(buf: string, at: Spot, h: Hole, pos: nat, output: string)
    requires Converting(buf, at, h, pos, output) && pos < |at.text|
    ensures Converting(buf, at, h, pos + 1, output + [at.text[pos]])
  {
    Advance(buf, at, h, pos, output, pos + 1);
    assert at.text[pos..pos + 1] == [at.text[pos]];
  }

  lemma MoreMeans(r: Rules, text: string, pos: nat)
    requires StopAt(r.stop, text, pos).Broken? && pos < |text|
    ensures StepAt(r, text, pos) ==
            if IsLineEnd(r.lineEnds, text[pos]) then LineEndAt(r.lineEnds, text, pos)
            else if r.escape && text[pos] == '&' then More(EscapeAt(text, pos).output, EscapeAt(text, pos).next)
            else More([text[pos]], pos + 1)
  {
  }

  // ---------------------------------------------------------------- the conversions

  /** Whether the text ends at s. */
  method EndsHere(buf: array<char>, stop: Stop, s: nat, ghost at: Spot) returns (b: bool)
    requires at.begin <= s && InPlace(buf[..], at, s - at.begin)
    ensures b == !(StopAt(stop, at.text, s - at.begin).Broken? && s - at.begin < |at.text|)
  {
    Ahead(buf[..], at, s - at.begin, s - at.begin);
    b := buf[s] == '\0';
    if !b {
      match stop {
        case AtQuote(q) => b := buf[s] == q;
        case AtTag => b := buf[s] == '<';
        case AtComment(endch) => b := ClosesHere(buf, s, '-', endch, at);
        case AtCData(endch) => b := ClosesHere(buf, s, ']', endch, at);
      }
    }
  }

  method ClosesHere(buf: array<char>, s: nat, c: char, endch: char, ghost at: Spot) returns (b: bool)
    requires at.begin <= s < at.begin + |at.text| && InPlace(buf[..], at, s - at.begin) && c != '\0'
    ensures b == Closes(at.text, s - at.begin, c, endch)
  {
    ghost var pos := s - at.begin;
    Ahead(buf[..], at, pos, pos);
    Ahead(buf[..], at, pos, pos + 1);
    b := buf[s] == c && buf[s + 1] == c;
    if b {
      Ahead(buf[..], at, pos, pos + 2);
      b := buf[s + 2] == '>' || (buf[s + 2] == '\0' && endch == '>');
    }
  }

  /** The conversion has come to its end at pos. */
  ghost predicate Stopped(r: Rules, text: string, pos: nat, output: string) {
    && IsText(text) && pos <= |text|
    && var stop := StopAt(r.stop, text, pos);
       if stop.Done? then DecodeFrom(r, text, 0) == Ended(output, stop.next)
       else pos == |text| && DecodeFrom(r, text, 0) == Unterminated
  }

  lemma EndMeans(r: Rules, text: string, pos: nat, output: string)
    requires Decoding(r, text, pos, output) && !(StopAt(r.stop, text, pos).Broken? && pos < |text|)
    ensures Stopped(r, text, pos, output)
  {
    DecodeStep(r, text, pos, output);
  }

  /** One round: to the next character at which the scan halts, and past it unless the text ends there. */
  method RunOnce(buf: array<char>, r: Rules, start: nat, g: Gap, ghost at: Spot, ghost output0: string)
    returns (s: nat, ghost output: string, ends: bool)
    requires KnownRules(r) && Running(buf[..], r, at, g.hole, start, output0)
    modifies g, buf
    ensures Running(buf[..], r, at, g.hole, s, output) && start <= s && (!ends ==> start < s)
    ensures ends ==> !(StopAt(r.stop, at.text, s - at.begin).Broken? && s - at.begin < |at.text|)
  {
    s, output := ScanOver(buf, r, start, g, at, output0);
    ends := EndsHere(buf, r.stop, s, at);
    if !ends {
      s, output := ConvertOne(buf, r, s, g, at, output);
    }
  }

  /** The loop all conversions share: runs to the end of the text or of the buffer. */
  method RunToEnd(buf: array<char>, r: Rules, start: nat, g: Gap, ghost at: Spot) returns (s: nat, ghost output: string)
    requires KnownRules(r) && InPlace(buf[..], at, 0) && at.begin == start && g.hole == Hole(None, 0)
    modifies g, buf
    ensures start <= s && Converting(buf[..], at, g.hole, s - start, output) && Stopped(r, at.text, s - start, output)
    ensures buf[..][s] == At(at.text, s - start)
  {
    s, output := start, [];
    RunningStarts(buf[..], r, at);
    var ends := false;
    while !ends
      invariant start <= s <= start + |at.text| && Running(buf[..], r, at, g.hole, s, output)
      invariant ends ==> !(StopAt(r.stop, at.text, s - at.begin).Broken? && s - at.begin < |at.text|)
      decreases start + |at.text| - s, !ends
    {
      s, output, ends := RunOnce(buf, r, s, g, at, output);
    }
    EndMeans(r, at.text, s - start, output);
    Ahead(buf[..], at, s - start, s - start);
  }

  /** The decoded text stands in the buffer with a terminator behind it; what comes before it and from next on is untouched. */
  ghost predicate Delivered(cur: string, at: Spot, output: string, next: nat) {
    && |cur| == |at.whole| && at.begin + |output| < |cur|
    && cur[at.begin..at.begin + |output|] == output && cur[at.begin + |output|] == '\0'
    && (forall x | 0 <= x < at.begin :: cur[x] == at.whole[x])
    && (forall x | at.begin + next <= x < |cur| :: cur[x] == at.whole[x])
  }

  /** Closes the text of a conversion that has come to its end. */
  method Finish(buf: array<char>, s: nat, g: Gap, ghost at: Spot, ghost output: string, ghost next: nat) returns (end: nat)
    requires at.begin <= s && Converting(buf[..], at, g.hole, s - at.begin, output)
    requires next > s - at.begin || (next == s - at.begin && At(at.text, next) == '\0')
    modifies buf
    ensures end == at.begin + |output| <= s && Delivered(buf[..], at, output, next)
  {
    Ahead(buf[..], at, s - at.begin, s - at.begin);
    assert at.whole[s] == buf[..][s];
    end := Terminate(buf, s, g, at, output);
    assert at.begin + next == s ==> buf[s] == '\0';
  }

  /** `parse_simple`, `parse_eol` and `parse_wconv`, with and without escapes. */
  method StrconvAttribute(buf: array<char>, start: nat, quote: char, lineEnds: LineEnds, escape: bool, ghost at: Spot) returns (next: Option<nat>)
    requires InPlace(buf[..], at, 0) && at.whole == buf[..] && at.begin == start && (quote == '"' || quote == '\'')
    modifies buf
    ensures var d := DecodeFrom(Rules(lineEnds, escape, AtQuote(quote)), at.text, 0);
            if d.Ended? then next == Some(start + d.next) && Delivered(buf[..], at, d.output, d.next) else next.None?
  {
    var r := Rules(lineEnds, escape, AtQuote(quote));
    var g := new Gap();
    var s;
    ghost var output;
    s, output := RunToEnd(buf, r, start, g, at);
    if buf[s] == quote {
      next := EndValue(buf, start, s, r, g, at, output);
    } else {
      next := None;
    }
  }

  /** Closes a value whose quotation mark stands at s. */
  method EndValue(buf: array<char>, start: nat, s: nat, r: Rules, g: Gap, ghost at: Spot, ghost output: string) returns (next: Option<nat>)
    requires at.begin == start <= s < start + |at.text| && Converting(buf[..], at, g.hole, s - start, output)
    requires r.stop.AtQuote? && at.text[s - start] == r.stop.quote && Stopped(r, at.text, s - start, output)
    modifies buf
    ensures var d := DecodeFrom(r, at.text, 0);
            d.Ended? && next == Some(start + d.next) && Delivered(buf[..], at, d.output, d.next)
  {
    var end := Finish(buf, s, g, at, output, s - start + 1);
    next := Some(s + 1);
  }

  /** `strconv_pcdata`: trims trailing white space when asked to. */
  method StrconvPcdata(buf: array<char>, start: nat, trim: bool, eol: bool, escape: bool, ghost at: Spot) returns (next: nat)
    requires InPlace(buf[..], at, 0) && at.whole == buf[..] && at.begin == start
    modifies buf
    ensures var d := DecodeFrom(Rules(if eol then ToLineFeed else Keep, escape, AtTag), at.text, 0);
            d.Ended? && next == start + d.next && Delivered(buf[..], at, if trim then Trimmed(d.output) else d.output, d.next)
  {
    var r := Rules(if eol then ToLineFeed else Keep, escape, AtTag);
    var g := new Gap();
    var s;
    ghost var output;
    s, output := RunToEnd(buf, r, start, g, at);
    next := if buf[s] == '<' then s + 1 else s;
    var end := Finish(buf, s, g, at, output, next - start);
    if trim {
      TrimEnd(buf, start, end, at, output, next - start);
    }
  }

  /** Moves the terminator before trailing white space. */
  method TrimEnd(buf: array<char>, start: nat, end0: nat, ghost at: Spot, ghost output: string, ghost next: nat)
    requires at.begin == start && end0 == start + |output| && |output| <= next && Delivered(buf[..], at, output, next)
    modifies buf
    ensures Delivered(buf[..], at, Trimmed(output), next)
  {
    var end := end0;
    ghost var kept := output;
    while end > start && IsSpace(buf[end - 1])
      invariant start <= end == start + |kept| <= end0 && buf[..] == old(buf[..]) && kept == output[..|kept|]
      invariant Trimmed(kept) == Trimmed(output)
    {
      assert buf[end - 1] == buf[start..end0][|kept| - 1] == kept[|kept| - 1];
      kept := kept[..|kept| - 1];
      end := end - 1;
    }
    assert end > start ==> buf[end - 1] == buf[start..end0][|kept| - 1];
    assert buf[start..end] == buf[start..end0][..|kept|];
    if end < end0 {
      buf[end] := '\0';
    }
  }

  /** `strconv_comment` and `strconv_cdata`; endch is the last character of the document, which the terminator replaced. */
  method StrconvSection(buf: array<char>, start: nat, comment: bool, endch: char, ghost at: Spot) returns (next: Option<nat>)
    requires InPlace(buf[..], at, 0) && at.whole == buf[..] && at.begin == start
    modifies buf
    ensures var d := DecodeFrom(Rules(ToLineFeed, false, if comment then AtComment(endch) else AtCData(endch)), at.text, 0);
            if d.Ended? then next == Some(start + d.next) && Delivered(buf[..], at, d.output, d.next) else next.None?
  {
    var r := Rules(ToLineFeed, false, if comment then AtComment(endch) else AtCData(endch));
    var g := new Gap();
    var s;
    ghost var output;
    s, output := RunToEnd(buf, r, start, g, at);
    if buf[s] == '\0' {
      next := None;
    } else {
      next := EndSection(buf, start, s, comment, r, g, at, output);
    }
  }

  /** Where reading goes on behind a section that ends at pos. */
  lemma SectionStops(r: Rules, text: string, pos: nat, output: string)
    requires (r.stop.AtComment? || r.stop.AtCData?) && Stopped(r, text, pos, output) && pos < |text|
    ensures pos + 2 <= |text|
    ensures DecodeFrom(r, text, 0) == Ended(output, pos + if r.stop.AtCData? then 1 else if At(text, pos + 2) == '>' then 3 else 2)
  {
  }

  /** Closes a section whose end stands at s. */
  method EndSection(buf: array<char>, start: nat, s: nat, comment: bool, r: Rules, g: Gap, ghost at: Spot, ghost output: string) returns (next: Option<nat>)
    requires at.begin == start <= s < start + |at.text| && Converting(buf[..], at, g.hole, s - start, output)
    requires (if comment then r.stop.AtComment? else r.stop.AtCData?) && Stopped(r, at.text, s - start, output)
    modifies buf
    ensures var d := DecodeFrom(r, at.text, 0);
            d.Ended? && next == Some(start + d.next) && Delivered(buf[..], at, d.output, d.next)
  {
    SectionStops(r, at.text, s - start, output);
    Ahead(buf[..], at, s - start, s - start + 2);
    next := Some(s + if !comment then 1 else if buf[s + 2] == '>' then 3 else 2);
    var end := Finish(buf, s, g, at, output, next.value - start);
  }
}
