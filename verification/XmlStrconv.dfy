/** `strconv_escape` and the text conversions of the parser, in place on the buffer. */
module XmlStrconv {
  import opened Wrappers
  import opened XmlChars
  import opened XmlDecode
  import opened XmlGap

  /** Writes w at position s. */
  method WriteText(buf: array<char>, s: nat, w: string)
    requires s + |w| <= buf.Length
    modifies buf
    ensures WrittenAt(old(buf[..]), buf[..], s, w)
  {
    ghost var cur := buf[..];
    var i := 0;
    while i < |w|
      invariant i <= |w| && forall x | 0 <= x < buf.Length :: buf[x] == if s <= x < s + i then w[x - s] else cur[x]
    {
      buf[s + i] := w[i];
      i := i + 1;
    }
  }

  /** Writes w in place of the text from s to next and leaves a gap for the rest. */
  method ReplaceText(buf: array<char>, g: Gap, s: nat, w: string, next: nat, ghost at: Spot, ghost output: string)
    requires at.begin <= s && s + |w| <= next <= at.begin + |at.text| && Converting(buf[..], at, g.hole, s - at.begin, output)
    modifies g, buf
    ensures Converting(buf[..], at, g.hole, next - at.begin, output + w)
  {
    ghost var cur, hole := buf[..], g.hole;
    WriteText(buf, s, w);
    ghost var over := buf[..];
    var stre := g.Push(buf, s + |w|, next - s - |w|, at.begin);
    Replace(cur, over, buf[..], at, hole, s - at.begin, output, w, next - at.begin);
  }

  /** Replaces one character of a conversion under way. */
  method ReplaceOne(buf: array<char>, g: Gap, s: nat, c: char, ghost at: Spot, ghost output: string)
    requires at.begin <= s < at.begin + |at.text| && Converting(buf[..], at, g.hole, s - at.begin, output)
    modifies buf
    ensures Converting(buf[..], at, g.hole, s + 1 - at.begin, output + [c])
  {
    ghost var cur := buf[..];
    buf[s] := c;
    WrittenKept(g.hole, cur, buf[..], at.begin, s, [c]);
    StillInPlace(cur, buf[..], at, s - at.begin, s + 1 - at.begin);
  }

  /** The end of the digits that start at k. */
  method ScanDigits(buf: array<char>, hex: bool, k: nat, ghost at: Spot) returns (e: nat)
    requires at.begin <= k <= at.begin + |at.text| && InPlace(buf[..], at, k - at.begin)
    ensures e == at.begin + DigitsEnd(hex, at.text, k - at.begin)
  {
    e := k;
    while IsDigitOf(hex, buf[e])
      invariant k <= e <= at.begin + |at.text| && DigitsEnd(hex, at.text, e - at.begin) == DigitsEnd(hex, at.text, k - at.begin)
      decreases at.begin + |at.text| - e
    {
      assert buf[..][e] == At(at.text, e - at.begin);
      e := e + 1;
    }
    assert buf[..][e] == At(at.text, e - at.begin);
  }

  /** The number that the digits buf[k..e] stand for, modulo 2^32. */
  method ReadNumber(buf: array<char>, hex: bool, k: nat, e: nat, ghost at: Spot) returns (ucsc: nat)
    requires at.begin <= k <= at.begin + |at.text| && InPlace(buf[..], at, k - at.begin)
    requires e == at.begin + DigitsEnd(hex, at.text, k - at.begin)
    ensures ucsc == Number(hex, at.text, k - at.begin, e - at.begin)
  {
    ucsc := 0;
    var i := k;
    while i < e
      invariant k <= i <= e && ucsc == Number(hex, at.text, k - at.begin, i - at.begin)
    {
      Ahead(buf[..], at, k - at.begin, i - at.begin);
      assert buf[..][i] == at.text[i - at.begin] && IsDigitOf(hex, at.text[i - at.begin]);
      ucsc := ((if hex then 16 else 10) * ucsc + HexValue(buf[i])) % MODULUS;
      i := i + 1;
    }
  }

  /** How much of the word stands at k: the chain of comparisons stops at the first difference. */
  method MatchWord(buf: array<char>, k: nat, word: string, ghost at: Spot) returns (m: nat)
    requires at.begin <= k <= at.begin + |at.text| && InPlace(buf[..], at, k - at.begin) && IsText(word)
    ensures m == MatchEnd(at.text, k - at.begin, word, 0)
  {
    m := 0;
    while m < |word| && buf[k + m] == word[m]
      invariant m <= |word| && k - at.begin + m <= |at.text|
      invariant MatchEnd(at.text, k - at.begin, word, m) == MatchEnd(at.text, k - at.begin, word, 0)
    {
      assert buf[..][k + m] == At(at.text, k + m - at.begin);
      m := m + 1;
    }
    assert buf[..][k + m] == At(at.text, k + m - at.begin);
  }

  lemma InPlaceLater(cur: string, at: Spot, pos: nat, next: nat)
    requires InPlace(cur, at, pos) && pos <= next <= |at.text|
    ensures InPlace(cur, at, next)
  {
  }

  /** A reference and what it becomes, before anything is changed. */
  method FindEntity(buf: array<char>, s: nat, word: string, c: char, ghost at: Spot) returns (found: bool, next: nat)
    requires at.begin <= s < at.begin + |at.text| && InPlace(buf[..], at, s - at.begin) && IsText(word)
    ensures var e := EntityReference(at.text, s - at.begin, word, c);
            && next == at.begin + e.next
            && e == if found then Reference([c], next - at.begin) else Verbatim(at.text, s - at.begin, next - at.begin)
  {
    InPlaceLater(buf[..], at, s - at.begin, s - at.begin + 1);
    var m := MatchWord(buf, s + 1, word, at);
    found, next := m == |word|, s + 1 + m;
  }

  method FindCharacter(buf: array<char>, hex: bool, s: nat, k: nat, ghost at: Spot)
    returns (found: bool, ucsc: nat, next: nat)
    requires at.begin <= s && s + 2 <= k <= at.begin + |at.text| && InPlace(buf[..], at, s - at.begin)
    ensures ucsc < MODULUS
    ensures var e := CharReference(hex, at.text, s - at.begin, k - at.begin);
            && next == at.begin + e.next
            && e == if found then Reference(Utf8(ucsc), next - at.begin) else Verbatim(at.text, s - at.begin, next - at.begin)
  {
    InPlaceLater(buf[..], at, s - at.begin, k - at.begin);
    assert buf[..][k] == At(at.text, k - at.begin);
    found, ucsc, next := false, 0, k;
    if buf[k] != ';' {
      next := ScanDigits(buf, hex, k, at);
      assert buf[..][next] == At(at.text, next - at.begin);
      if buf[next] == ';' {
        ucsc := ReadNumber(buf, hex, k, next, at);
        found, next := true, next + 1;
      }
    }
  }

  /** What has been found at position pos: the replacement, or none, and where reading goes on. */
  ghost predicate Finds(e: Reference, text: string, pos: nat, w: Option<string>, next: nat) {
    && pos <= next <= |text|
    && e == if w.Some? then Reference(w.value, next) else Verbatim(text, pos, next)
  }

  method FindWritten(buf: array<char>, hex: bool, s: nat, k: nat, ghost at: Spot) returns (w: Option<string>, next: nat)
    requires at.begin <= s && s + 2 <= k <= at.begin + |at.text| && InPlace(buf[..], at, s - at.begin)
    ensures at.begin <= next && Finds(CharReference(hex, at.text, s - at.begin, k - at.begin), at.text, s - at.begin, w, next - at.begin)
  {
    var found, ucsc;
    found, ucsc, next := FindCharacter(buf, hex, s, k, at);
    w := if found then Some(Utf8(ucsc)) else None;
  }

  method FindNumeric(buf: array<char>, s: nat, ghost at: Spot) returns (w: Option<string>, next: nat)
    requires at.begin <= s < at.begin + |at.text| && InPlace(buf[..], at, s - at.begin) && At(at.text, s - at.begin + 1) == '#'
    ensures at.begin <= next && Finds(NumericAt(at.text, s - at.begin), at.text, s - at.begin, w, next - at.begin)
  {
    assert buf[..][s + 2] == At(at.text, s - at.begin + 2);
    var hex := buf[s + 2] == 'x';
    w, next := FindWritten(buf, hex, s, if hex then s + 3 else s + 2, at);
  }

  method FindNamed(buf: array<char>, s: nat, word: string, c: char, ghost at: Spot) returns (w: Option<string>, next: nat)
    requires at.begin <= s < at.begin + |at.text| && InPlace(buf[..], at, s - at.begin) && IsText(word)
    ensures at.begin <= next && Finds(EntityReference(at.text, s - at.begin, word, c), at.text, s - at.begin, w, next - at.begin)
  {
    var found;
    found, next := FindEntity(buf, s, word, c, at);
    w := if found then Some([c]) else None;
  }

  method FindAmpOrApos(buf: array<char>, s: nat, ghost at: Spot) returns (w: Option<string>, next: nat)
    requires at.begin <= s < at.begin + |at.text| && InPlace(buf[..], at, s - at.begin) && At(at.text, s - at.begin + 1) == 'a'
    ensures at.begin <= next && Finds(AmpOrAposAt(at.text, s - at.begin), at.text, s - at.begin, w, next - at.begin)
  {
    assert buf[..][s + 2] == At(at.text, s - at.begin + 2);
    if buf[s + 2] == 'm' {
      w, next := FindNamed(buf, s, "amp;", '&', at);
    } else if buf[s + 2] == 'p' {
      w, next := FindNamed(buf, s, "apos;", '\'', at);
    } else {
      w, next := None, s + 2;
    }
  }

  /** A reference by a name that begins with c, or none. */
  method FindOther(buf: array<char>, s: nat, c: char, ghost at: Spot) returns (w: Option<string>, next: nat)
    requires at.begin <= s < at.begin + |at.text| && InPlace(buf[..], at, s - at.begin)
    ensures at.begin <= next
    ensures Finds(if StartsName(c) then EntityReference(at.text, s - at.begin, NameOf(c), NamedBy(c))
                  else Verbatim(at.text, s - at.begin, s - at.begin + 1), at.text, s - at.begin, w, next - at.begin)
  {
    if StartsName(c) {
      w, next := FindNamed(buf, s, NameOf(c), NamedBy(c), at);
    } else {
      w, next := None, s + 1;
    }
  }

  /** What stands at an ampersand, by the character behind it. */
  lemma EscapeBy(s: string, i: nat, c: char)
    requires i < |s| && c == At(s, i + 1)
    ensures c == '#' ==> EscapeAt(s, i) == NumericAt(s, i)
    ensures c == 'a' ==> EscapeAt(s, i) == AmpOrAposAt(s, i)
    ensures c != '#' && c != 'a' ==>
            EscapeAt(s, i) == if StartsName(c) then EntityReference(s, i, NameOf(c), NamedBy(c)) else Verbatim(s, i, i + 1)
  {
  }

  /** What `strconv_escape` finds at an ampersand: the replacement, or none, and where it goes on. */
  method FindReference(buf: array<char>, s: nat, ghost at: Spot) returns (w: Option<string>, next: nat)
    requires at.begin <= s < at.begin + |at.text| && InPlace(buf[..], at, s - at.begin)
    ensures at.begin <= next && Finds(EscapeAt(at.text, s - at.begin), at.text, s - at.begin, w, next - at.begin)
  {
    assert buf[..][s + 1] == At(at.text, s - at.begin + 1);
    var c := buf[s + 1];
    EscapeBy(at.text, s - at.begin, c);
    if c == '#' {
      w, next := FindNumeric(buf, s, at);
    } else if c == 'a' {
      w, next := FindAmpOrApos(buf, s, at);
    } else {
      w, next := FindOther(buf, s, c, at);
    }
  }

  /** `strconv_escape`: replaces the reference at s, if it is one, and returns where reading goes on. */
  method StrconvEscape(buf: array<char>, s: nat, g: Gap, ghost at: Spot, ghost output: string) returns (next: nat)
    requires at.begin <= s < at.begin + |at.text| && Converting(buf[..], at, g.hole, s - at.begin, output)
    modifies g, buf
    ensures var e := EscapeAt(at.text, s - at.begin);
            next == at.begin + e.next && Converting(buf[..], at, g.hole, e.next, output + e.output)
  {
    var w;
    w, next := FindReference(buf, s, at);
    ghost var e := EscapeAt(at.text, s - at.begin);
    PutFound(buf, g, s, w, next, at, output, e);
  }

  /** Writes what has been found in place of the reference, if it is one. */
  method PutFound(buf: array<char>, g: Gap, s: nat, w: Option<string>, next: nat, ghost at: Spot, ghost output: string, ghost e: Reference)
    requires at.begin <= s < at.begin + |at.text| && Converting(buf[..], at, g.hole, s - at.begin, output)
    requires at.begin <= next && Finds(e, at.text, s - at.begin, w, next - at.begin) && |e.output| <= e.next - (s - at.begin)
    modifies g, buf
    ensures next == at.begin + e.next && Converting(buf[..], at, g.hole, e.next, output + e.output)
  {
    if w.Some? {
      ReplaceText(buf, g, s, w.value, next, at, output);
    } else {
      Advance(buf[..], at, g.hole, s - at.begin, output, next - at.begin);
    }
  }
}
