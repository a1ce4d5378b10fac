/**
 `parse_tree` on the buffer itself: nodes hold positions in the buffer, where names are terminated
 and values converted in place, behind what is still to be read.
 */
module XmlInPlace {
  import opened Wrappers
  import opened XmlTree
  import opened XmlChars
  import opened XmlDecode
  import XmlGap
  import opened XmlShift
  import opened XmlMarkup
  import opened XmlParse
  import XmlConvert

  // --------------------------------------------------------------- nodes and strings

  /** Names and values are positions of strings in the buffer; a missing one is null. */
  datatype RawAttr = RawAttr(name: nat, value: nat)

  datatype RawTree = RawTree(kind: NodeKind, name: Option<nat>, value: Option<nat>, attrs: seq<RawAttr>, children: seq<RawTree>)

  /** An element whose end tag is still to come; the document has no name. */
  datatype RawOpen = RawOpen(name: Option<nat>, attrs: seq<RawAttr>, children: seq<RawTree>)

  /** w stands at p with a terminator behind it, below the limit. */
  predicate Holds(buf: string, limit: nat, p: nat, w: string) {
    p + |w| < limit <= |buf| && buf[p..p + |w|] == w && buf[p + |w|] == '\0'
  }

  predicate HoldsOptional(buf: string, limit: nat, p: Option<nat>, w: string) {
    if p.None? then w == "" else Holds(buf, limit, p.value, w)
  }

  predicate HoldsAttribute(buf: string, limit: nat, r: RawAttr, a: Attr) {
    Holds(buf, limit, r.name, a.name) && Holds(buf, limit, r.value, a.value)
  }

  predicate HoldsAttributes(buf: string, limit: nat, rs: seq<RawAttr>, attrs: seq<Attr>) {
    |rs| == |attrs| && forall i | 0 <= i < |rs| :: HoldsAttribute(buf, limit, rs[i], attrs[i])
  }

  /** The strings of the node and those of all nodes below it stand in the buffer. */
  predicate HoldsTree(buf: string, limit: nat, r: RawTree, t: Tree)
    decreases r
  {
    && r.kind == t.kind && HoldsOptional(buf, limit, r.name, t.name) && HoldsOptional(buf, limit, r.value, t.value)
    && HoldsAttributes(buf, limit, r.attrs, t.attrs)
    && |r.children| == |t.children| && forall i | 0 <= i < |r.children| :: HoldsTree(buf, limit, r.children[i], t.children[i])
  }

  predicate HoldsTrees(buf: string, limit: nat, rs: seq<RawTree>, ts: seq<Tree>) {
    |rs| == |ts| && forall i | 0 <= i < |rs| :: HoldsTree(buf, limit, rs[i], ts[i])
  }

  predicate HoldsOpen(buf: string, limit: nat, r: RawOpen, o: Open) {
    IsText(o.name) && HoldsOptional(buf, limit, r.name, o.name) && HoldsAttributes(buf, limit, r.attrs, o.attrs)
    && HoldsTrees(buf, limit, r.children, o.children)
  }

  predicate HoldsStack(buf: string, limit: nat, rs: seq<RawOpen>, opens: seq<Open>) {
    && rs != [] && |rs| == |opens|
    && forall i | 0 <= i < |rs| :: HoldsOpen(buf, limit, rs[i], opens[i]) && (rs[i].name.None? <==> i == 0)
  }

  /** Nothing changes below the limit, which may grow. */
  predicate Kept(buf: string, buf': string, limit: nat, limit': nat) {
    limit <= limit' <= |buf'| == |buf| && buf[..limit] == buf'[..limit]
  }

  lemma HoldsStill(buf: string, buf': string, limit: nat, limit': nat, p: nat, w: string)
    requires Kept(buf, buf', limit, limit') && Holds(buf, limit, p, w)
    ensures Holds(buf', limit', p, w)
  {
    assert buf'[p..p + |w|] == buf'[..limit][p..p + |w|];
    assert buf[p..p + |w|] == buf[..limit][p..p + |w|];
    assert buf'[p + |w|] == buf'[..limit][p + |w|];
  }

  lemma AttributesStill(buf: string, buf': string, limit: nat, limit': nat, rs: seq<RawAttr>, attrs: seq<Attr>)
    requires Kept(buf, buf', limit, limit') && HoldsAttributes(buf, limit, rs, attrs)
    ensures HoldsAttributes(buf', limit', rs, attrs)
  {
    forall i | 0 <= i < |rs| ensures HoldsAttribute(buf', limit', rs[i], attrs[i]) {
      HoldsStill(buf, buf', limit, limit', rs[i].name, attrs[i].name);
      HoldsStill(buf, buf', limit, limit', rs[i].value, attrs[i].value);
    }
  }

  lemma OptionalStill(buf: string, buf': string, limit: nat, limit': nat, p: Option<nat>, w: string)
    requires Kept(buf, buf', limit, limit') && HoldsOptional(buf, limit, p, w)
    ensures HoldsOptional(buf', limit', p, w)
  {
    if p.Some? {
      HoldsStill(buf, buf', limit, limit', p.value, w);
    }
  }

  lemma {:induction false} TreeStill(buf: string, buf': string, limit: nat, limit': nat, r: RawTree, t: Tree)
    requires Kept(buf, buf', limit, limit') && HoldsTree(buf, limit, r, t)
    ensures HoldsTree(buf', limit', r, t)
    decreases r
  {
    OptionalStill(buf, buf', limit, limit', r.name, t.name);
    OptionalStill(buf, buf', limit, limit', r.value, t.value);
    AttributesStill(buf, buf', limit, limit', r.attrs, t.attrs);
    forall i | 0 <= i < |r.children| ensures HoldsTree(buf', limit', r.children[i], t.children[i]) {
      TreeStill(buf, buf', limit, limit', r.children[i], t.children[i]);
    }
  }

  lemma OpenStill(buf: string, buf': string, limit: nat, limit': nat, r: RawOpen, o: Open)
    requires Kept(buf, buf', limit, limit') && HoldsOpen(buf, limit, r, o)
    ensures HoldsOpen(buf', limit', r, o)
  {
    OptionalStill(buf, buf', limit, limit', r.name, o.name);
    AttributesStill(buf, buf', limit, limit', r.attrs, o.attrs);
    forall i | 0 <= i < |r.children| ensures HoldsTree(buf', limit', r.children[i], o.children[i]) {
      TreeStill(buf, buf', limit, limit', r.children[i], o.children[i]);
    }
  }

  lemma StackStill(buf: string, buf': string, limit: nat, limit': nat, rs: seq<RawOpen>, opens: seq<Open>)
    requires Kept(buf, buf', limit, limit') && HoldsStack(buf, limit, rs, opens)
    ensures HoldsStack(buf', limit', rs, opens)
  {
    forall i | 0 <= i < |rs| ensures HoldsOpen(buf', limit', rs[i], opens[i]) {
      OpenStill(buf, buf', limit, limit', rs[i], opens[i]);
    }
  }

  // ------------------------------------------------------------------ reading ahead

  /** Where the strings end that are done when reading stands at s. */
  function Limit(text: string, s: nat): nat {
    if s < |text| then s else |text| + 1
  }

  predicate Coupled(buf: string, text: string, s: nat, rs: seq<RawOpen>, opens: seq<Open>) {
    IsText(text) && s <= |text| && Unread(buf, text, s) && HoldsStack(buf, Limit(text, s), rs, opens)
  }

  method SkipSpace(buf: array<char>, k: nat, ghost text: string) returns (r: nat)
    requires k <= |text| && Unread(buf[..], text, k)
    ensures r == SpaceEnd(text, k)
  {
    r := k;
    while IsSpace(buf[r])
      invariant k <= r <= |text| && SpaceEnd(text, r) == SpaceEnd(text, k)
      decreases |text| - r
    {
      assert buf[..][r] == At(text, r);
      r := r + 1;
    }
    assert buf[..][r] == At(text, r);
  }

  method ScanName(buf: array<char>, k: nat, ghost text: string) returns (r: nat)
    requires k <= |text| && Unread(buf[..], text, k)
    ensures r == SymbolEnd(text, k)
  {
    r := k;
    while IsSymbol(buf[r])
      invariant k <= r <= |text| && SymbolEnd(text, r) == SymbolEnd(text, k)
      decreases |text| - r
    {
      assert buf[..][r] == At(text, r);
      r := r + 1;
    }
    assert buf[..][r] == At(text, r);
  }

  /** Reads a name that begins at k and puts a terminator behind it, saving the character that stood there. */
  method TakeName(buf: array<char>, k: nat, ghost text: string) returns (e: nat, ch: char)
    requires IsText(text) && k <= |text| && Unread(buf[..], text, k)
    modifies buf
    ensures e == SymbolEnd(text, k) && ch == At(text, e)
    ensures Unread(buf[..], text, e + 1) && Kept(old(buf[..]), buf[..], k, e + 1)
    ensures Holds(buf[..], e + 1, k, text[k..e])
  {
    e := ScanName(buf, k, text);
    ghost var cur := buf[..];
    ch := buf[e];
    assert ch == cur[e];
    buf[e] := '\0';
    assert buf[..] == cur[e := '\0'];
    assert forall j | k <= j < e :: cur[j] == text[j];
    assert buf[k..e] == text[k..e];
  }

  // ---------------------------------------------------------------------- attributes

  /** The text from k on, with its terminator. */
  ghost function SpotAt(buf: string, text: string, k: nat): XmlGap.Spot
    requires k <= |text|
  {
    XmlGap.Spot(buf, k, text[k..])
  }

  lemma SpotIs(buf: string, text: string, k: nat)
    requires IsText(text) && k <= |text| && Unread(buf, text, k)
    ensures XmlGap.InPlace(buf, SpotAt(buf, text, k), 0)
  {
    var at := SpotAt(buf, text, k);
    forall j: nat | j <= |at.text| ensures at.whole[at.begin + j] == At(at.text, j) {
      AtShift(text, k, j);
    }
  }

  /** A converted text stands behind k, and reading goes on at next. */
  lemma DeliveredHolds(was: string, now: string, text: string, k: nat, output: string, next: nat)
    requires IsText(text) && k <= next <= |text| && Unread(was, text, k)
    requires XmlConvert.Delivered(now, SpotAt(was, text, k), output, next - k)
    requires |output| + (if next < |text| then 1 else 0) <= next - k
    ensures Unread(now, text, next) && Kept(was, now, k, Limit(text, next)) && Holds(now, Limit(text, next), k, output)
  {
    var at := SpotAt(was, text, k);
    forall x | next <= x <= |text| ensures now[x] == At(text, x) {
      assert now[x] == was[x];
    }
    assert now[..k] == was[..k];
  }

  /** The value from k on is decoded to d, stands where it was, and reading goes on behind it. */
  ghost predicate ValueTaken(was: string, now: string, text: string, k: nat, next: Option<nat>, d: Decoded) {
    if next.None? then d.Unterminated?
    else
      && d.Ended? && next.value == d.next && k < d.next <= |text|
      && Unread(now, text, d.next) && Kept(was, now, k, Limit(text, d.next)) && Holds(now, Limit(text, d.next), k, d.output)
  }

  /** Converts the value behind a quotation mark in place. */
  method TakeValue(buf: array<char>, k: nat, quote: char, ghost text: string) returns (next: Option<nat>)
    requires IsText(text) && k <= |text| && Unread(buf[..], text, k) && (quote == '"' || quote == '\'')
    modifies buf
    ensures ValueTaken(old(buf[..]), buf[..], text, k, next, DecodeFrom(ValueRules(quote), text, k))
  {
    ghost var was, at := buf[..], SpotAt(buf[..], text, k);
    SpotIs(was, text, k);
    next := XmlConvert.StrconvAttribute(buf, k, quote, ToBlank, true, at);
    DecodeShift(ValueRules(quote), text, k, 0);
    if next.Some? {
      DecodeEndsInside(ValueRules(quote), text, k);
      DecodeFits(ValueRules(quote), text, k);
      DeliveredHolds(was, buf[..], text, k, DecodeFrom(ValueRules(quote), text, k).output, next.value);
    }
  }

  /** What stands in a start tag, with positions instead of strings. */
  datatype RawStart = RawAnother(a: RawAttr, next: nat) | RawDone(empty: bool, next: nat) | RawBad(status: Status)

  /** The buffer holds what has been found; nothing below k has changed. */
  ghost predicate Found(was: string, now: string, text: string, k: nat, raw: RawStart, found: InStart) {
    match raw
    case RawBad(status) => found == Bad(status)
    case RawDone(empty, next) => found == TagDone(empty, next) && k <= next <= |text| && Unread(now, text, next) && Kept(was, now, k, Limit(text, next))
    case RawAnother(a, next) =>
      && found.Another? && found.next == next && k < next <= |text| && Unread(now, text, next)
      && Kept(was, now, k, Limit(text, next)) && HoldsAttribute(now, Limit(text, next), a, found.a)
  }

  /** The value of an attribute whose name begins at k; ch is the character behind the name, and s comes next. */
  method TakeEquals(buf: array<char>, e: nat, ch0: char, ghost text: string) returns (p: Option<nat>)
    requires IsText(text) && e <= |text| && ch0 == At(text, e) && Unread(buf[..], text, e + 1)
    ensures var eq := if IsSpace(At(text, e)) then SpaceEnd(text, e + 1) else e;
            if At(text, eq) == '=' then p == Some(SpaceEnd(text, eq + 1)) else p.None?
  {
    var ch, s := ch0, e + 1;
    if IsSpace(ch) {
      s := SkipSpace(buf, s, text);
      assert buf[..][s] == At(text, s);
      ch := buf[s];
      s := s + 1;
    }
    if ch == '=' {
      s := SkipSpace(buf, s, text);
      p := Some(s);
    } else {
      p := None;
    }
  }

  lemma TwoKept(a: string, b: string, c: string, k: nat, l: nat, m: nat, n: nat)
    requires Kept(a, b, k, l) && Kept(b, c, m, n) && k <= m
    ensures Kept(a, c, k, n)
  {
    assert b[..k] == b[..m][..k];
    assert c[..k] == c[..m][..k];
  }

  lemma UnreadOn(buf: string, text: string, s: nat, t: nat)
    requires Unread(buf, text, s) && s <= t
    ensures Unread(buf, text, t)
  {
  }

  /** The converters of the default options, of which only what they yield matters. */
  ghost predicate Defaults(conv: Converters, text: string) {
    && IsText(text) && Sound(conv, |text|)
    && (forall i: nat, q: char {:trigger conv.attribute(i, q)} | i <= |text| && q != '\0' ::
          conv.attribute(i, q) == DecodeFrom(ValueRules(q), text, i))
    && (forall i: nat {:trigger conv.content(i)} | i <= |text| :: conv.content(i) == DecodeFrom(CONTENT, text, i))
    && forall i: nat, e: char {:trigger conv.section(i, e)} | i <= |text| :: conv.section(i, e) == DecodeFrom(SectionRules(e), text, i)
  }

  lemma DefaultsAre(text: string)
    requires IsText(text)
    ensures Defaults(DefaultConverters(text), text)
  {
    DefaultSound(text);
  }

  /** What has been found once the value behind a quotation mark at q is read. */
  function RawQuoted(k: nat, q: nat, next: Option<nat>, tooClose: bool): RawStart {
    if next.None? || tooClose then RawBad(BadAttribute) else RawAnother(RawAttr(k, q + 1), next.value)
  }

  lemma QuotedFound(was: string, now: string, text: string, conv: Converters, k: nat, e: nat, q: nat, next: Option<nat>, tooClose: bool)
    requires IsText(text) && Sound(conv, |text|) && k < e < q < |text| && Holds(was, e + 1, k, text[k..e])
    requires ValueTaken(was, now, text, q + 1, next, conv.attribute(q + 1, text[q]))
    requires next.Some? ==> next.value <= |text| && tooClose == IsStartSymbol(At(text, next.value))
    ensures Found(was, now, text, k, RawQuoted(k, q, next, tooClose), ValueAt(text, conv, text[k..e], q))
  {
    if next.Some? && !tooClose {
      HoldsLater(was, e + 1, q + 1, k, text[k..e]);
      HoldsStill(was, now, q + 1, Limit(text, next.value), k, text[k..e]);
      KeptBelow(was, now, q + 1, Limit(text, next.value), k);
    }
  }

  lemma AttributeIs(conv: Converters, text: string, i: nat, quote: char)
    requires Defaults(conv, text) && i <= |text| && quote != '\0'
    ensures conv.attribute(i, quote) == DecodeFrom(ValueRules(quote), text, i)
  {
  }

  lemma HoldsLater(buf: string, limit: nat, limit': nat, p: nat, w: string)
    requires Holds(buf, limit, p, w) && limit <= limit' <= |buf|
    ensures Holds(buf, limit', p, w)
  {
  }

  lemma KeptBelow(a: string, b: string, l: nat, l': nat, k: nat)
    requires Kept(a, b, l, l') && k <= l
    ensures Kept(a, b, k, l')
  {
    assert a[..k] == a[..l][..k] && b[..k] == b[..l][..k];
  }

  /** The quoted value behind a name. */
  method TakeQuoted(buf: array<char>, k: nat, e: nat, q: nat, quote: char, ghost text: string, ghost conv: Converters) returns (raw: RawStart)
    requires IsText(text) && Sound(conv, |text|) && k < e < q < |text| && quote == text[q] && (quote == '"' || quote == '\'')
    requires conv.attribute(q + 1, quote) == DecodeFrom(ValueRules(quote), text, q + 1)
    requires Unread(buf[..], text, q + 1) && Holds(buf[..], e + 1, k, text[k..e])
    modifies buf
    ensures Found(old(buf[..]), buf[..], text, k, raw, ValueAt(text, conv, text[k..e], q))
  {
    ghost var was := buf[..];
    var next := TakeValue(buf, q + 1, quote, text);
    var tooClose := false;
    if next.Some? {
      assert buf[..][next.value] == At(text, next.value);
      tooClose := IsStartSymbol(buf[next.value]);
    }
    QuotedFound(was, buf[..], text, conv, k, e, q, next, tooClose);
    raw := RawQuoted(k, q, next, tooClose);
  }

  /** Where the quotation mark stands behind a name that ends at e, if there is one behind an equals sign. */
  method TakeOpening(buf: array<char>, e: nat, ch: char, ghost text: string) returns (q: Option<nat>)
    requires IsText(text) && e <= |text| && ch == At(text, e) && Unread(buf[..], text, e + 1)
    ensures var eq := if IsSpace(At(text, e)) then SpaceEnd(text, e + 1) else e;
            if q.Some? then
              At(text, eq) == '=' && q.value == SpaceEnd(text, eq + 1) && e < q.value < |text| && (text[q.value] == '"' || text[q.value] == '\'')
            else At(text, eq) == '=' ==> At(text, SpaceEnd(text, eq + 1)) != '"' && At(text, SpaceEnd(text, eq + 1)) != '\''
  {
    q := TakeEquals(buf, e, ch, text);
    if q.Some? {
      assert buf[..][q.value] == At(text, q.value);
      if buf[q.value] != '"' && buf[q.value] != '\'' {
        q := None;
      }
    }
  }

  lemma OpeningMeans(text: string, conv: Converters, name: string, e: nat, q: Option<nat>)
    requires IsText(text) && Sound(conv, |text|) && e <= |text|
    requires var eq := if IsSpace(At(text, e)) then SpaceEnd(text, e + 1) else e;
             if q.Some? then
               At(text, eq) == '=' && q.value == SpaceEnd(text, eq + 1) && e < q.value < |text| && (text[q.value] == '"' || text[q.value] == '\'')
             else At(text, eq) == '=' ==> At(text, SpaceEnd(text, eq + 1)) != '"' && At(text, SpaceEnd(text, eq + 1)) != '\''
    ensures AttributeValue(text, conv, name, e) == if q.Some? then ValueAt(text, conv, name, q.value) else Bad(BadAttribute)
  {
  }

  /** The value of the attribute whose name stands from k to e. */
  method TakeNamed(buf: array<char>, k: nat, e: nat, ch: char, ghost text: string, ghost conv: Converters) returns (raw: RawStart)
    requires Defaults(conv, text) && k < e <= |text| && ch == At(text, e) && Unread(buf[..], text, e + 1)
    requires Holds(buf[..], e + 1, k, text[k..e])
    modifies buf
    ensures Found(old(buf[..]), buf[..], text, k, raw, AttributeValue(text, conv, text[k..e], e))
  {
    var q := TakeOpening(buf, e, ch, text);
    OpeningMeans(text, conv, text[k..e], e, q);
    if q.None? {
      return RawBad(BadAttribute);
    }
    UnreadOn(buf[..], text, e + 1, q.value);
    assert buf[..][q.value] == text[q.value];
    AttributeIs(conv, text, q.value + 1, buf[q.value]);
    raw := TakeQuoted(buf, k, e, q.value, buf[q.value], text, conv);
  }

  /** One attribute, whose name begins at k. */
  method TakeAttribute(buf: array<char>, k: nat, ghost text: string, ghost conv: Converters) returns (raw: RawStart)
    requires Defaults(conv, text) && k < |text| && Unread(buf[..], text, k) && IsStartSymbol(text[k])
    modifies buf
    ensures var e := SymbolEnd(text, k);
            Found(old(buf[..]), buf[..], text, k, raw, AttributeValue(text, conv, text[k..e], e))
  {
    ghost var was := buf[..];
    var e, ch := TakeName(buf, k, text);
    ghost var named := buf[..];
    raw := TakeNamed(buf, k, e, ch, text, conv);
    FoundSince(was, named, buf[..], text, k, e + 1, raw, AttributeValue(text, conv, text[k..e], e));
  }

  lemma FoundSince(was: string, mid: string, now: string, text: string, k: nat, l: nat, raw: RawStart, found: InStart)
    requires Found(mid, now, text, k, raw, found) && Kept(was, mid, k, l)
    ensures Found(was, now, text, k, raw, found)
  {
    if !raw.RawBad? {
      TwoKept(was, mid, now, k, l, k, Limit(text, raw.next));
    }
  }

  lemma FoundBelow(was: string, now: string, text: string, k: nat, s: nat, raw: RawStart, found: InStart)
    requires Found(was, now, text, k, raw, found) && s <= k
    ensures Found(was, now, text, s, raw, found)
  {
    if !raw.RawBad? {
      KeptBelow(was, now, k, Limit(text, raw.next), s);
    }
  }

  /** A tag that ends at next is found without changing the buffer. */
  lemma TagFound(buf: string, text: string, s: nat, empty: bool, next: nat)
    requires Unread(buf, text, s) && s <= next <= |text|
    ensures Found(buf, buf, text, s, RawDone(empty, next), TagDone(empty, next))
  {
  }

  /** Behind the attributes so far: another one, the end of the tag, or an error. */
  method TakeStart(buf: array<char>, s: nat, endch: char, ghost text: string, ghost conv: Converters) returns (raw: RawStart)
    requires Defaults(conv, text) && s <= |text| && Unread(buf[..], text, s)
    modifies buf
    ensures Found(old(buf[..]), buf[..], text, s, raw, StartStep(text, conv, endch, s))
  {
    ghost var was := buf[..];
    var k := SkipSpace(buf, s, text);
    assert was[k] == At(text, k);
    if IsStartSymbol(buf[k]) {
      raw := TakeAttribute(buf, k, text, conv);
      FoundBelow(was, buf[..], text, k, s, raw, StartStep(text, conv, endch, s));
    } else {
      raw := TakeTagEnd(buf, k, endch, text);
      if raw.RawDone? {
        TagFound(was, text, s, raw.empty, raw.next);
      }
    }
  }

  /** The end of a start tag at k. */
  method TakeTagEnd(buf: array<char>, k: nat, endch: char, ghost text: string) returns (raw: RawStart)
    requires k <= |text| && Unread(buf[..], text, k)
    ensures !raw.RawAnother? && (raw.RawDone? ==> k <= raw.next <= |text|)
    ensures (if raw.RawDone? then TagDone(raw.empty, raw.next) else Bad(raw.status)) ==
            if At(text, k) == '/' then
              (if At(text, k + 1) == '>' then TagDone(true, k + 2)
               else if At(text, k + 1) == '\0' && endch == '>' then TagDone(true, k + 1)
               else Bad(BadStartElement))
            else if At(text, k) == '>' then TagDone(false, k + 1)
            else if At(text, k) == '\0' && endch == '>' then TagDone(false, k)
            else Bad(BadStartElement)
  {
    assert buf[..][k] == At(text, k);
    if buf[k] == '/' {
      assert buf[..][k + 1] == At(text, k + 1);
      if buf[k + 1] == '>' {
        raw := RawDone(true, k + 2);
      } else if buf[k + 1] == '\0' && endch == '>' {
        raw := RawDone(true, k + 1);
      } else {
        raw := RawBad(BadStartElement);
      }
    } else if buf[k] == '>' {
      raw := RawDone(false, k + 1);
    } else if buf[k] == '\0' && endch == '>' {
      raw := RawDone(false, k);
    } else {
      raw := RawBad(BadStartElement);
    }
  }

  /** The attributes of a start tag, with positions instead of strings. */
  datatype RawStarts = RawStarted(attrs: seq<RawAttr>, empty: bool, next: nat) | RawFailed(status: Status)

  ghost predicate FoundAll(was: string, now: string, text: string, k: nat, raw: RawStarts, found: Starts) {
    match raw
    case RawFailed(status) => found == Failed(status)
    case RawStarted(attrs, empty, next) =>
      && found.Started? && found.empty == empty && found.next == next && k <= next <= |text| && Unread(now, text, next)
      && Kept(was, now, k, Limit(text, next)) && HoldsAttributes(now, Limit(text, next), attrs, found.attrs)
  }

  /** The attributes read so far, up to s. */
  ghost predicate Taken(was: string, now: string, text: string, k: nat, s: nat, rs: seq<RawAttr>, attrs: seq<Attr>) {
    && k <= s <= |text| && Unread(now, text, s) && Kept(was, now, k, Limit(text, s)) && HoldsAttributes(now, Limit(text, s), rs, attrs)
  }

  /** Strings that are done stay: even the terminator of the text is what it was. */
  lemma KeptToLimit(was: string, now: string, text: string, s: nat, next: nat)
    requires s <= next <= |text| && Unread(was, text, s) && Unread(now, text, next) && Kept(was, now, s, Limit(text, next))
    ensures Kept(was, now, Limit(text, s), Limit(text, next))
  {
    if s == |text| {
      assert was == was[..s] + [was[s]] && now == now[..s] + [now[s]];
    }
  }

  lemma TakenMore(was: string, mid: string, now: string, text: string, k: nat, s: nat, rs: seq<RawAttr>, attrs: seq<Attr>, r: RawAttr, next: nat, found: InStart)
    requires Taken(was, mid, text, k, s, rs, attrs) && Found(mid, now, text, s, RawAnother(r, next), found)
    ensures Taken(was, now, text, k, next, rs + [r], attrs + [found.a])
  {
    KeptToLimit(mid, now, text, s, next);
    AttributesStill(mid, now, Limit(text, s), Limit(text, next), rs, attrs);
    KeptBelow(mid, now, s, Limit(text, next), k);
    KeptTwice(was, mid, now, k, Limit(text, s), Limit(text, next));
  }

  lemma KeptTwice(a: string, b: string, c: string, k: nat, l: nat, n: nat)
    requires Kept(a, b, k, l) && Kept(b, c, k, n)
    ensures Kept(a, c, k, n)
  {
  }

  lemma TakenDone(was: string, mid: string, now: string, text: string, k: nat, s: nat, rs: seq<RawAttr>, attrs: seq<Attr>, empty: bool, next: nat)
    requires Taken(was, mid, text, k, s, rs, attrs) && Found(mid, now, text, s, RawDone(empty, next), TagDone(empty, next))
    ensures FoundAll(was, now, text, k, RawStarted(rs, empty, next), Started(attrs, empty, next))
  {
    KeptToLimit(mid, now, text, s, next);
    AttributesStill(mid, now, Limit(text, s), Limit(text, next), rs, attrs);
    KeptBelow(mid, now, s, Limit(text, next), k);
    KeptTwice(was, mid, now, k, Limit(text, s), Limit(text, next));
  }

  /** The attribute loop. */
  method TakeAttributes(buf: array<char>, k: nat, endch: char, ghost text: string, ghost conv: Converters) returns (raw: RawStarts)
    requires Defaults(conv, text) && k <= |text| && Unread(buf[..], text, k)
    modifies buf
    ensures FoundAll(old(buf[..]), buf[..], text, k, raw, Attributes(text, conv, endch, k))
  {
    ghost var was, step := buf[..], StartStepping(text, conv, endch);
    StartSteppingAdvances(text, conv, endch);
    var s := k;
    var rs: seq<RawAttr> := [];
    ghost var attrs: seq<Attr> := [];
    while true
      invariant Taken(was, buf[..], text, k, s, rs, attrs)
      invariant AttributesBy(step, |text|, s, attrs) == Attributes(text, conv, endch, k)
      decreases |text| - s
    {
      ghost var mid := buf[..];
      var raw1 := TakeStart(buf, s, endch, text, conv);
      ghost var found := StartStep(text, conv, endch, s);
      assert step(s) == found;
      match raw1 {
        case RawBad(status) =>
          return RawFailed(status);
        case RawDone(empty, next) =>
          TakenDone(was, mid, buf[..], text, k, s, rs, attrs, empty, next);
          return RawStarted(rs, empty, next);
        case RawAnother(r, next) =>
          TakenMore(was, mid, buf[..], text, k, s, rs, attrs, r, next, found);
          s, rs, attrs := next, rs + [r], attrs + [found.a];
      }
    }
  }

  // ------------------------------------------------------------------------ the stack

  /** `PUGI_IMPL_PUSHNODE` */
  function RawPush(rs: seq<RawOpen>, name: nat, attrs: seq<RawAttr>): seq<RawOpen> {
    rs + [RawOpen(Some(name), attrs, [])]
  }

  function RawAppend(rs: seq<RawOpen>, r: RawTree): seq<RawOpen>
    requires rs != []
  {
    var top := rs[|rs| - 1];
    rs[..|rs| - 1] + [top.(children := top.children + [r])]
  }

  /** `PUGI_IMPL_POPNODE` */
  function RawPop(rs: seq<RawOpen>): seq<RawOpen>
    requires |rs| > 1
  {
    var top := rs[|rs| - 1];
    RawAppend(rs[..|rs| - 1], RawTree(Element, top.name, None, top.attrs, top.children))
  }

  lemma PushHolds(buf: string, limit: nat, rs: seq<RawOpen>, opens: seq<Open>, p: nat, name: string, ras: seq<RawAttr>, attrs: seq<Attr>)
    requires HoldsStack(buf, limit, rs, opens) && IsText(name) && Holds(buf, limit, p, name) && HoldsAttributes(buf, limit, ras, attrs)
    ensures HoldsStack(buf, limit, RawPush(rs, p, ras), Push(opens, name, attrs))
  {
  }

  lemma AppendHolds(buf: string, limit: nat, rs: seq<RawOpen>, opens: seq<Open>, r: RawTree, t: Tree)
    requires HoldsStack(buf, limit, rs, opens) && HoldsTree(buf, limit, r, t)
    ensures HoldsStack(buf, limit, RawAppend(rs, r), AppendChild(opens, t))
  {
    var n := |rs| - 1;
    assert HoldsOpen(buf, limit, rs[n], opens[n]);
    var rs', opens' := RawAppend(rs, r), AppendChild(opens, t);
    forall i | 0 <= i < |rs'| ensures HoldsOpen(buf, limit, rs'[i], opens'[i]) && (rs'[i].name.None? <==> i == 0) {
      assert i < n ==> rs'[i] == rs[i] && opens'[i] == opens[i];
    }
  }

  lemma PopHolds(buf: string, limit: nat, rs: seq<RawOpen>, opens: seq<Open>)
    requires HoldsStack(buf, limit, rs, opens) && |opens| > 1
    ensures HoldsStack(buf, limit, RawPop(rs), Pop(opens))
  {
    var n := |rs| - 1;
    var top := rs[n];
    assert HoldsOpen(buf, limit, top, opens[n]);
    var r := RawTree(Element, top.name, None, top.attrs, top.children);
    assert HoldsTree(buf, limit, r, Closed(opens[n]));
    AppendHolds(buf, limit, rs[..n], opens[..n], r, Closed(opens[n]));
  }

  // ----------------------------------------------------------------------- constructs

  type RawParsed = Result<seq<RawTree>, Status>

  datatype RawMove = RawGo(s: nat, inTag: bool, stack: seq<RawOpen>) | RawHalt(result: RawParsed)

  /** The nodes that were parsed, held by the buffer; or the same error. */
  predicate HoldsParsed(buf: string, r: RawParsed, p: Parsed) {
    match r
    case Err(status) => p == Err(status)
    case Ok(rs) => p.Ok? && HoldsTrees(buf, |buf|, rs, p.value)
  }

  predicate HoldsMove(buf: string, text: string, r: RawMove, m: Move) {
    match r
    case RawHalt(result) => m.Halt? && HoldsParsed(buf, result, m.result)
    case RawGo(s, inTag, stack) => m.Go? && m.to.s == s && m.to.inTag == inTag && Coupled(buf, text, s, stack, m.to.stack)
  }

  /** The stack is still held further on. */
  lemma StackKept(was: string, now: string, text: string, s: nat, next: nat, rs: seq<RawOpen>, opens: seq<Open>)
    requires Coupled(was, text, s, rs, opens) && s <= next <= |text| && Unread(now, text, next) && Kept(was, now, s, Limit(text, next))
    ensures Coupled(now, text, next, rs, opens)
  {
    KeptToLimit(was, now, text, s, next);
    StackStill(was, now, Limit(text, s), Limit(text, next), rs, opens);
  }

  lemma OnlyAhead(buf: string, text: string, s: nat, next: nat, rs: seq<RawOpen>, opens: seq<Open>)
    requires Coupled(buf, text, s, rs, opens) && s <= next <= |text|
    ensures Coupled(buf, text, next, rs, opens)
  {
    StackKept(buf, buf, text, s, next, rs, opens);
  }

  function RawOpened(rs: seq<RawOpen>, name: nat, attrs: seq<RawAttr>, empty: bool): seq<RawOpen>
    requires rs != []
  {
    if empty then RawPop(RawPush(rs, name, attrs)) else RawPush(rs, name, attrs)
  }

  /** An element with a name and attributes is opened, or opened and closed at once. */
  lemma Opens(was: string, now: string, text: string, s: nat, next: nat, rs: seq<RawOpen>, opens: seq<Open>,
              name: string, ras: seq<RawAttr>, attrs: seq<Attr>, empty: bool)
    requires Coupled(was, text, s, rs, opens) && s <= next <= |text| && Unread(now, text, next) && Kept(was, now, s, Limit(text, next))
    requires IsText(name) && Holds(now, Limit(text, next), s, name) && HoldsAttributes(now, Limit(text, next), ras, attrs)
    ensures Coupled(now, text, next, RawOpened(rs, s, ras, empty), Opened(opens, name, attrs, empty))
  {
    StackKept(was, now, text, s, next, rs, opens);
    PushHolds(now, Limit(text, next), rs, opens, s, name, ras, attrs);
    if empty {
      PopHolds(now, Limit(text, next), RawPush(rs, s, ras), Push(opens, name, attrs));
    }
  }

  /** A name from s to e is terminated; what comes before it is as it was. */
  ghost predicate Named(was: string, now: string, text: string, s: nat, e: nat) {
    s < e <= |text| && Unread(now, text, e + 1) && Kept(was, now, s, e + 1) && Holds(now, e + 1, s, text[s..e])
  }

  /** A name and nothing else, up to next. */
  lemma OpensPlain(was: string, now: string, text: string, s: nat, e: nat, next: nat, rs: seq<RawOpen>, opens: seq<Open>, empty: bool)
    requires Coupled(was, text, s, rs, opens) && Named(was, now, text, s, e) && e <= next <= |text| && (e == next ==> e == |text|)
    ensures Coupled(now, text, next, RawOpened(rs, s, [], empty), Opened(opens, text[s..e], [], empty))
  {
    assert e + 1 <= Limit(text, next);
    assert |text[s..e]| == e - s && now[e] == '\0';
    assert Unread(now, text, next);
    HoldsLater(now, e + 1, Limit(text, next), s, text[s..e]);
    Opens(was, now, text, s, next, rs, opens, text[s..e], [], [], empty);
  }

  lemma PlainGoes(was: string, now: string, text: string, s: nat, e: nat, next: nat, rs: seq<RawOpen>, opens: seq<Open>, empty: bool)
    requires Coupled(was, text, s, rs, opens) && Named(was, now, text, s, e) && e <= next <= |text| && (e == next ==> e == |text|)
    ensures HoldsMove(now, text, RawGo(next, false, RawOpened(rs, s, [], empty)), Go(State(next, false, Opened(opens, text[s..e], [], empty))))
  {
    OpensPlain(was, now, text, s, e, next, rs, opens, empty);
  }

  /** The name stands where it was put, and the attributes behind it. */
  lemma OpensFull(was: string, mid: string, now: string, text: string, s: nat, e: nat, rs: seq<RawOpen>, opens: seq<Open>, raw: RawStarts, found: Starts)
    requires Coupled(was, text, s, rs, opens) && Named(was, mid, text, s, e)
    requires FoundAll(mid, now, text, e + 1, raw, found) && raw.RawStarted?
    ensures found.Started? && raw.next == found.next
    ensures Coupled(now, text, raw.next, RawOpened(rs, s, raw.attrs, raw.empty), Opened(opens, text[s..e], found.attrs, found.empty))
  {
    TwoKept(was, mid, now, s, e + 1, e + 1, Limit(text, raw.next));
    HoldsStill(mid, now, e + 1, Limit(text, raw.next), s, text[s..e]);
    Opens(was, now, text, s, raw.next, rs, opens, text[s..e], raw.attrs, found.attrs, raw.empty);
  }

  function RawFull(rs: seq<RawOpen>, s: nat, raw: RawStarts): RawMove
    requires rs != []
  {
    match raw
    case RawFailed(status) => RawHalt(Err(status))
    case RawStarted(attrs, empty, next) => RawGo(next, false, RawOpened(rs, s, attrs, empty))
  }

  lemma FullMove(was: string, mid: string, now: string, text: string, conv: Converters, endch: char, s: nat, e: nat, rs: seq<RawOpen>, opens: seq<Open>, raw: RawStarts)
    requires Defaults(conv, text) && Coupled(was, text, s, rs, opens) && Named(was, mid, text, s, e) && e < |text|
    requires FoundAll(mid, now, text, e + 1, raw, Attributes(text, conv, endch, e + 1))
    ensures HoldsMove(now, text, RawFull(rs, s, raw), FullStart(text, conv, endch, text[s..e], e, opens))
  {
    var found := Attributes(text, conv, endch, e + 1);
    if raw.RawStarted? {
      OpensFull(was, mid, now, text, s, e, rs, opens, raw, found);
    }
  }

  /** A start tag; s is behind the `<`. */
  method TakeStartTag(buf: array<char>, s: nat, endch: char, stack: seq<RawOpen>, ghost text: string, ghost conv: Converters, ghost opens: seq<Open>)
    returns (r: RawMove)
    requires Defaults(conv, text) && s <= |text| && IsStartSymbol(At(text, s)) && Coupled(buf[..], text, s, stack, opens)
    modifies buf
    ensures HoldsMove(buf[..], text, r, StartTag(text, conv, endch, s, opens))
  {
    ghost var was := buf[..];
    var e, ch := TakeName(buf, s, text);
    ghost var mid := buf[..];
    if IsSpace(ch) {
      var raw := TakeAttributes(buf, e + 1, endch, text, conv);
      FullMove(was, mid, buf[..], text, conv, endch, s, e, stack, opens, raw);
      r := RawFull(stack, s, raw);
    } else {
      r := TakePlainTag(buf, s, e, ch, endch, stack, text, opens, was);
    }
  }

  /** A start tag without attributes, by the character ch behind the name and the one after it. */
  function RawPlain(rs: seq<RawOpen>, s: nat, e: nat, ch: char, after: char, endch: char): RawMove
    requires rs != []
  {
    if ch == '>' then RawGo(e + 1, false, RawOpened(rs, s, [], false))
    else if ch == '/' then
      if after == '>' then RawGo(e + 2, false, RawOpened(rs, s, [], true))
      else if after == '\0' && endch == '>' then RawGo(e + 1, false, RawOpened(rs, s, [], true))
      else RawHalt(Err(BadStartElement))
    else if ch == '\0' && endch == '>' then RawGo(e, false, RawOpened(rs, s, [], false))
    else RawHalt(Err(BadStartElement))
  }

  /** Where a tag that ends with a slash goes on, if it does. */
  function EmptyEnd(text: string, e: nat, endch: char): (next: Option<nat>)
    requires e < |text|
    ensures next.Some? ==> e < next.value <= |text|
  {
    if At(text, e + 1) == '>' then Some(e + 2)
    else if At(text, e + 1) == '\0' && endch == '>' then Some(e + 1)
    else None
  }

  lemma SlashIs(text: string, s: nat, e: nat, rs: seq<RawOpen>, opens: seq<Open>, endch: char, name: string)
    requires e < |text| && text[e] == '/' && rs != [] && opens != []
    ensures var next := EmptyEnd(text, e, endch);
            && RawPlain(rs, s, e, '/', At(text, e + 1), endch) ==
               (if next.Some? then RawGo(next.value, false, RawOpened(rs, s, [], true)) else RawHalt(Err(BadStartElement)))
            && PlainStart(text, endch, name, e, opens) ==
               if next.Some? then Go(State(next.value, false, Opened(opens, name, [], true))) else Halt(Err(BadStartElement))
  {
  }

  lemma SlashMove(was: string, now: string, text: string, s: nat, e: nat, rs: seq<RawOpen>, opens: seq<Open>, endch: char)
    requires Coupled(was, text, s, rs, opens) && Named(was, now, text, s, e) && At(text, e) == '/'
    ensures HoldsMove(now, text, RawPlain(rs, s, e, '/', At(text, e + 1), endch), PlainStart(text, endch, text[s..e], e, opens))
  {
    SlashIs(text, s, e, rs, opens, endch, text[s..e]);
    var next := EmptyEnd(text, e, endch);
    if next.Some? {
      PlainGoes(was, now, text, s, e, next.value, rs, opens, true);
    }
  }

  lemma PlainMove(was: string, now: string, text: string, s: nat, e: nat, rs: seq<RawOpen>, opens: seq<Open>, endch: char)
    requires Coupled(was, text, s, rs, opens) && Named(was, now, text, s, e)
    ensures HoldsMove(now, text, RawPlain(rs, s, e, At(text, e), At(text, e + 1), endch), PlainStart(text, endch, text[s..e], e, opens))
  {
    if At(text, e) == '/' {
      SlashMove(was, now, text, s, e, rs, opens, endch);
    } else if At(text, e) == '>' {
      PlainGoes(was, now, text, s, e, e + 1, rs, opens, false);
    } else if At(text, e) == '\0' && endch == '>' {
      PlainGoes(was, now, text, s, e, e, rs, opens, false);
    }
  }

  /** A start tag without attributes. */
  method TakePlainTag(buf: array<char>, s: nat, e: nat, ch: char, endch: char, stack: seq<RawOpen>, ghost text: string,
                      ghost opens: seq<Open>, ghost was: string) returns (r: RawMove)
    requires Coupled(was, text, s, stack, opens) && Named(was, buf[..], text, s, e) && ch == At(text, e)
    ensures HoldsMove(buf[..], text, r, PlainStart(text, endch, text[s..e], e, opens))
  {
    PlainMove(was, buf[..], text, s, e, stack, opens, endch);
    var after := endch;
    if ch == '/' {
      assert buf[..][e + 1] == At(text, e + 1);
      after := buf[e + 1];
    }
    r := RawPlain(stack, s, e, ch, after, endch);
  }

  lemma HeldChar(buf: string, limit: nat, p: nat, w: string, j: nat)
    requires Holds(buf, limit, p, w) && IsText(w) && j <= |w|
    ensures p + j < |buf| && buf[p + j] == At(w, j) && (buf[p + j] == '\0' <==> j == |w|)
  {
    assert j < |w| ==> buf[p..p + |w|][j] == w[j];
  }

  lemma MatchesMore(text: string, s: nat, e: nat, name: string)
    requires s <= e < |text| && e - s < |name| && text[s..e] == name[..e - s] && text[e] == name[e - s]
    ensures text[s..e + 1] == name[..e + 1 - s]
  {
    assert text[s..e + 1] == text[s..e] + [text[e]];
  }

  lemma Mismatch(text: string, s: nat, e: nat, name: string)
    requires s <= e < |text| && e - s <= |name| && IsSymbol(text[e]) && (e - s == |name| || text[e] != name[e - s])
    ensures !(text[s..SymbolEnd(text, e)] <= name)
  {
    var read := text[s..SymbolEnd(text, e)];
    assert SymbolEnd(text, e) > e;
    assert read[e - s] == text[e];
  }

  /** Compares the name in an end tag with that of the element, character by character. */
  method MatchName(buf: array<char>, s: nat, p: nat, ghost text: string, ghost name: string, ghost limit: nat) returns (e: nat, same: bool)
    requires IsText(text) && s <= |text| && Unread(buf[..], text, s) && Holds(buf[..], limit, p, name) && IsText(name)
    ensures if same then s <= e == SymbolEnd(text, s) && text[s..e] <= name else !(text[s..SymbolEnd(text, s)] <= name)
  {
    e := s;
    while IsSymbol(buf[e])
      invariant s <= e <= |text| && e - s <= |name| && text[s..e] == name[..e - s] && SymbolEnd(text, e) == SymbolEnd(text, s)
      decreases |text| - e
    {
      assert buf[..][e] == At(text, e);
      HeldChar(buf[..], limit, p, name, e - s);
      if buf[e] != buf[p + (e - s)] {
        Mismatch(text, s, e, name);
        return e, false;
      }
      MatchesMore(text, s, e, name);
      e := e + 1;
    }
    assert buf[..][e] == At(text, e);
    same := true;
  }

  /** The name of an end tag is only the beginning of that of the element. */
  method NameCutOff(buf: array<char>, e: nat, p: nat, endch: char, ghost text: string, ghost name: string, ghost limit: nat, ghost j: nat) returns (status: Status)
    requires IsText(text) && e <= |text| && Unread(buf[..], text, e) && IsText(name) && j < |name| && p >= j && Holds(buf[..], limit, p - j, name)
    ensures status == if e == |text| && name[j..] == [endch] then BadEndElement else EndElementMismatch
  {
    assert buf[..][e] == At(text, e);
    HeldChar(buf[..], limit, p - j, name, j);
    HeldChar(buf[..], limit, p - j, name, j + 1);
    assert name[j..] == [endch] <==> name[j] == endch && j + 1 == |name|;
    if buf[e] == '\0' && buf[p] == endch && buf[p + 1] == '\0' {
      status := BadEndElement;
    } else {
      status := EndElementMismatch;
    }
  }

  /** Behind the name of an end tag that matches. */
  method TakeTagClose(buf: array<char>, s: nat, e: nat, endch: char, stack: seq<RawOpen>, ghost text: string, ghost opens: seq<Open>) returns (r: RawMove)
    requires s <= e <= |text| && Coupled(buf[..], text, s, stack, opens) && |stack| > 1
    ensures var k := SpaceEnd(text, e);
            HoldsMove(buf[..], text, r,
              if At(text, k) == '>' then Go(State(k + 1, false, Pop(opens)))
              else if At(text, k) == '\0' && endch == '>' then Go(State(k, false, Pop(opens)))
              else Halt(Err(BadEndElement)))
  {
    UnreadOn(buf[..], text, s, e);
    var k := SkipSpace(buf, e, text);
    assert buf[..][k] == At(text, k);
    PopCoupled(buf[..], text, s, stack, opens);
    if buf[k] == '\0' {
      if endch == '>' {
        OnlyAhead(buf[..], text, s, k, RawPop(stack), Pop(opens));
        r := RawGo(k, false, RawPop(stack));
      } else {
        r := RawHalt(Err(BadEndElement));
      }
    } else if buf[k] == '>' {
      OnlyAhead(buf[..], text, s, k + 1, RawPop(stack), Pop(opens));
      r := RawGo(k + 1, false, RawPop(stack));
    } else {
      r := RawHalt(Err(BadEndElement));
    }
  }

  lemma PopCoupled(buf: string, text: string, s: nat, rs: seq<RawOpen>, opens: seq<Open>)
    requires Coupled(buf, text, s, rs, opens) && |rs| > 1
    ensures Coupled(buf, text, s, RawPop(rs), Pop(opens))
  {
    PopHolds(buf, Limit(text, s), rs, opens);
  }

  lemma TopHolds(buf: string, text: string, s: nat, rs: seq<RawOpen>, opens: seq<Open>)
    requires Coupled(buf, text, s, rs, opens)
    ensures |opens| == |rs| && (rs[|rs| - 1].name.None? <==> |rs| == 1) && IsText(opens[|rs| - 1].name)
    ensures |rs| > 1 ==> Holds(buf, Limit(text, s), rs[|rs| - 1].name.value, opens[|rs| - 1].name)
  {
    assert HoldsOpen(buf, Limit(text, s), rs[|rs| - 1], opens[|rs| - 1]);
  }

  /** An end tag; s is behind the `</`. */
  method TakeEndTag(buf: array<char>, s: nat, endch: char, stack: seq<RawOpen>, ghost text: string, ghost opens: seq<Open>) returns (r: RawMove)
    requires s <= |text| && Coupled(buf[..], text, s, stack, opens)
    ensures HoldsMove(buf[..], text, r, EndTagAt(text, endch, s, opens))
  {
    var top := stack[|stack| - 1];
    TopHolds(buf[..], text, s, stack, opens);
    if top.name.None? {
      return RawHalt(Err(EndElementMismatch));
    }
    var p := top.name.value;
    ghost var name, limit := opens[|opens| - 1].name, Limit(text, s);
    var e, same := MatchName(buf, s, p, text, name, limit);
    if !same {
      return RawHalt(Err(EndElementMismatch));
    }
    HeldChar(buf[..], limit, p, name, e - s);
    if buf[p + (e - s)] != '\0' {
      UnreadOn(buf[..], text, s, e);
      var status := NameCutOff(buf, e, p + (e - s), endch, text, name, limit, e - s);
      return RawHalt(Err(status));
    }
    assert text[s..e] == name;
    r := TakeTagClose(buf, s, e, endch, stack, text, opens);
  }

  /** Converts character data in place. */
  method TakeContent(buf: array<char>, k: nat, ghost text: string) returns (next: nat)
    requires IsText(text) && k < |text| && Unread(buf[..], text, k)
    modifies buf
    ensures var d := DecodeFrom(CONTENT, text, k);
            && d.Ended? && next == d.next && k < next <= |text|
            && Unread(buf[..], text, next) && Kept(old(buf[..]), buf[..], k, Limit(text, next))
            && Holds(buf[..], Limit(text, next), k, d.output)
  {
    ghost var was, at := buf[..], SpotAt(buf[..], text, k);
    SpotIs(was, text, k);
    next := XmlConvert.StrconvPcdata(buf, k, false, true, true, at);
    DecodeShift(CONTENT, text, k, 0);
    DecodeEndsInside(CONTENT, text, k);
    DecodeFits(CONTENT, text, k);
    DeliveredHolds(was, buf[..], text, k, DecodeFrom(CONTENT, text, k).output, next);
  }

  /** The check behind the loop: the last tag must be closed. */
  function RawAtEnd(rs: seq<RawOpen>): RawMove
    requires rs != []
  {
    RawHalt(if |rs| == 1 then Ok(rs[0].children) else Err(EndElementMismatch))
  }

  lemma EndHolds(buf: string, text: string, s: nat, rs: seq<RawOpen>, opens: seq<Open>)
    requires Coupled(buf, text, s, rs, opens)
    ensures HoldsMove(buf, text, RawAtEnd(rs), AtEnd(opens))
  {
    assert HoldsOpen(buf, Limit(text, s), rs[0], opens[0]);
    if |rs| == 1 {
      forall i | 0 <= i < |rs[0].children| ensures HoldsTree(buf, |buf|, rs[0].children[i], opens[0].children[i]) {
        TreeStill(buf, buf, Limit(text, s), |buf|, rs[0].children[i], opens[0].children[i]);
      }
    }
  }

  /** A node of character data is added. */
  lemma DataHolds(was: string, now: string, text: string, s: nat, next: nat, rs: seq<RawOpen>, opens: seq<Open>, v: string)
    requires Coupled(was, text, s, rs, opens) && s <= next <= |text| && Unread(now, text, next) && Kept(was, now, s, Limit(text, next))
    requires Holds(now, Limit(text, next), s, v)
    ensures Coupled(now, text, next, RawAppend(rs, RawTree(PcData, None, Some(s), [], [])), AppendChild(opens, PcDataNode(v)))
  {
    StackKept(was, now, text, s, next, rs, opens);
    AppendHolds(now, Limit(text, next), rs, opens, RawTree(PcData, None, Some(s), [], []), PcDataNode(v));
  }

  /** Character data inside an element. */
  method TakeData(buf: array<char>, s: nat, stack: seq<RawOpen>, ghost text: string, ghost conv: Converters, ghost opens: seq<Open>) returns (r: RawMove)
    requires Defaults(conv, text) && s < |text| && Coupled(buf[..], text, s, stack, opens)
    modifies buf
    ensures conv.content(s).Ended?
    ensures var with := AppendChild(opens, PcDataNode(conv.content(s).output));
            HoldsMove(buf[..], text, r, if At(text, conv.content(s).next) == '\0' then AtEnd(with) else Go(State(conv.content(s).next, true, with)))
  {
    ghost var was := buf[..];
    var next := TakeContent(buf, s, text);
    assert conv.content(s) == DecodeFrom(CONTENT, text, s);
    DataHolds(was, buf[..], text, s, next, stack, opens, conv.content(s).output);
    assert buf[..][next] == At(text, next);
    var with := RawAppend(stack, RawTree(PcData, None, Some(s), [], []));
    if buf[next] == '\0' {
      EndHolds(buf[..], text, next, with, AppendChild(opens, PcDataNode(conv.content(s).output)));
      r := RawAtEnd(with);
    } else {
      r := RawGo(next, true, with);
    }
  }

  method ScanToTag(buf: array<char>, k: nat, ghost text: string) returns (r: nat)
    requires IsText(text) && k <= |text| && Unread(buf[..], text, k)
    ensures r == TagFrom(text, k)
  {
    r := k;
    assert buf[..][r] == At(text, r);
    while buf[r] != '\0' && buf[r] != '<'
      invariant k <= r <= |text| && TagFrom(text, r) == TagFrom(text, k) && buf[..][r] == At(text, r)
      decreases |text| - r
    {
      r := r + 1;
      assert buf[..][r] == At(text, r);
    }
  }

  /** Text outside of elements is skipped. */
  method SkipText(buf: array<char>, s: nat, stack: seq<RawOpen>, ghost text: string, ghost opens: seq<Open>) returns (r: RawMove)
    requires s < |text| && Coupled(buf[..], text, s, stack, opens)
    ensures var k := TagFrom(text, s);
            HoldsMove(buf[..], text, r, if k == |text| then AtEnd(opens) else Go(State(k + 1, true, opens)))
  {
    var k := ScanToTag(buf, s, text);
    assert buf[..][k] == At(text, k);
    if buf[k] == '\0' {
      EndHolds(buf[..], text, s, stack, opens);
      r := RawAtEnd(stack);
    } else {
      OnlyAhead(buf[..], text, s, k + 1, stack, opens);
      r := RawGo(k + 1, true, stack);
    }
  }

  /** Text before the next tag. */
  method TakeText(buf: array<char>, s: nat, stack: seq<RawOpen>, ghost text: string, ghost conv: Converters, ghost opens: seq<Open>) returns (r: RawMove)
    requires Defaults(conv, text) && s < |text| && text[s] != '<' && Coupled(buf[..], text, s, stack, opens)
    modifies buf
    ensures HoldsMove(buf[..], text, r, TextAt(text, conv, s, opens))
  {
    var w := SkipSpace(buf, s, text);
    assert buf[..][w] == At(text, w);
    if buf[w] == '<' || buf[w] == '\0' {
      OnlyAhead(buf[..], text, s, w, stack, opens);
      r := RawGo(w, false, stack);
    } else if |stack| > 1 {
      r := TakeData(buf, s, stack, text, conv, opens);
    } else {
      r := SkipText(buf, s, stack, text, opens);
    }
  }

  /** Converts a CDATA section in place. */
  method TakeSectionText(buf: array<char>, k: nat, endch: char, ghost text: string) returns (next: Option<nat>)
    requires Ready(buf[..], text, k)
    modifies buf
    ensures var d := DecodeFrom(SectionRules(endch), text, k);
            if next.None? then d.Unterminated?
            else
              && d.Ended? && next.value == d.next && k < d.next < |text|
              && Unread(buf[..], text, d.next) && Kept(old(buf[..]), buf[..], k, d.next) && Holds(buf[..], d.next, k, d.output)
  {
    ghost var was, at := buf[..], SpotAt(buf[..], text, k);
    SpotIs(was, text, k);
    next := XmlConvert.StrconvSection(buf, k, false, endch, at);
    DecodeShift(SectionRules(endch), text, k, 0);
    if next.Some? {
      SectionEndsInside(endch, text, k);
      SectionFits(endch, text, k);
      DeliveredHolds(was, buf[..], text, k, DecodeFrom(SectionRules(endch), text, k).output, next.value);
    }
  }

  /** A CDATA section whose text begins at s. */
  method TakeSection(buf: array<char>, s: nat, endch: char, stack: seq<RawOpen>, ghost text: string, ghost conv: Converters, ghost opens: seq<Open>)
    returns (r: RawMove)
    requires Defaults(conv, text) && s <= |text| && Coupled(buf[..], text, s, stack, opens)
    modifies buf
    ensures HoldsMove(buf[..], text, r, SectionAt(text, conv, endch, s, opens))
  {
    ghost var was := buf[..];
    var next := TakeSectionText(buf, s, endch, text);
    assert conv.section(s, endch) == DecodeFrom(SectionRules(endch), text, s);
    if next.None? {
      return RawHalt(Err(BadCData));
    }
    ghost var v := conv.section(s, endch).output;
    SectionHolds(was, buf[..], text, s, next.value, stack, opens, v);
    Peek(buf[..], text, next.value, next.value + 1);
    var with := RawAppend(stack, RawTree(CData, None, Some(s), [], []));
    var behind := if buf[next.value + 1] == '>' then next.value + 2 else next.value + 1;
    OnlyAhead(buf[..], text, next.value, behind, with, AppendChild(opens, SectionNode(v)));
    r := RawGo(behind, false, with);
  }

  /** A CDATA node is added. */
  lemma SectionHolds(was: string, now: string, text: string, s: nat, next: nat, rs: seq<RawOpen>, opens: seq<Open>, v: string)
    requires Coupled(was, text, s, rs, opens) && s <= next < |text| && Unread(now, text, next) && Kept(was, now, s, next)
    requires Holds(now, next, s, v)
    ensures Coupled(now, text, next, RawAppend(rs, RawTree(CData, None, Some(s), [], [])), AppendChild(opens, SectionNode(v)))
  {
    StackKept(was, now, text, s, next, rs, opens);
    AppendHolds(now, Limit(text, next), rs, opens, RawTree(CData, None, Some(s), [], []), SectionNode(v));
  }

  lemma SkippedHolds(buf: string, text: string, s: nat, next: Option<nat>, rs: seq<RawOpen>, opens: seq<Open>, error: Status)
    requires Coupled(buf, text, s, rs, opens) && (next.Some? ==> s <= next.value <= |text|)
    ensures HoldsMove(buf, text, RawSkipped(next, rs, error), Skipped(next, opens, error))
  {
    if next.Some? {
      OnlyAhead(buf, text, s, next.value, rs, opens);
    }
  }

  function RawSkipped(next: Option<nat>, rs: seq<RawOpen>, error: Status): RawMove {
    if next.Some? then RawGo(next.value, false, rs) else RawHalt(Err(error))
  }

  /** `parse_question`, which skips what it reads. */
  method TakeQuestion(buf: array<char>, s: nat, endch: char, stack: seq<RawOpen>, ghost text: string, ghost opens: seq<Open>) returns (r: RawMove)
    requires s <= |text| && Coupled(buf[..], text, s, stack, opens)
    ensures HoldsMove(buf[..], text, r, QuestionAt(text, endch, s, opens))
  {
    Peek(buf[..], text, s, s);
    if !IsStartSymbol(buf[s]) {
      return RawHalt(Err(BadPi));
    }
    var e := ScanName(buf, s, text);
    ReadyLater(buf[..], text, s, e);
    var next := PassPi(buf, endch, e, text);
    SkippedHolds(buf[..], text, s, next, stack, opens, BadPi);
    r := RawSkipped(next, stack, BadPi);
  }

  method FindWord(buf: array<char>, s: nat, word: string, ghost text: string) returns (r: bool)
    requires Ready(buf[..], text, s) && IsText(word)
    ensures r == WordAt(text, s, word)
  {
    var i := 0;
    while i < |word|
      invariant i <= |word| && s + i <= |text| && forall j | 0 <= j < i :: At(text, s + j) == word[j]
    {
      Peek(buf[..], text, s, s + i);
      if buf[s + i] != word[i] {
        return false;
      }
      i := i + 1;
    }
    return true;
  }

  /** A document type; the bracket that closes it is overwritten. */
  method TakeDoctype(buf: array<char>, s: nat, endch: char, stack: seq<RawOpen>, ghost text: string, ghost opens: seq<Open>) returns (r: RawMove)
    requires s <= |text| && Coupled(buf[..], text, s, stack, opens)
    modifies buf
    ensures HoldsMove(buf[..], text, r, Skipped(SkipDoctype(text, endch, s), opens, BadDoctype))
  {
    ghost var was := buf[..];
    var e := PassGroup(buf, endch, s, text);
    if e.None? {
      return RawHalt(Err(BadDoctype));
    }
    var next := CloseDoctype(buf, s, e.value, text);
    StackKept(was, buf[..], text, s, next, stack, opens);
    r := RawGo(next, false, stack);
  }

  /** Overwrites the bracket, if it has not been cut off. */
  method CloseDoctype(buf: array<char>, s: nat, e: nat, ghost text: string) returns (next: nat)
    requires Ready(buf[..], text, s) && s <= e <= |text|
    modifies buf
    ensures next == (if e < |text| then e + 1 else e) && Unread(buf[..], text, next) && Kept(old(buf[..]), buf[..], s, Limit(text, next))
  {
    ghost var was := buf[..];
    Peek(was, text, s, e);
    next := e;
    if buf[e] != '\0' {
      buf[e] := '\0';
      Overwritten(was, buf[..], text, s, e);
      next := e + 1;
    }
  }

  lemma Overwritten(was: string, now: string, text: string, s: nat, e: nat)
    requires Ready(was, text, s) && s <= e < |text| && now == was[e := '\0']
    ensures Unread(now, text, e + 1) && Kept(was, now, s, Limit(text, e + 1))
  {
  }

  /** `parse_exclamation` */
  method TakeExclamation(buf: array<char>, s: nat, endch: char, stack: seq<RawOpen>, ghost text: string, ghost conv: Converters, ghost opens: seq<Open>)
    returns (r: RawMove)
    requires Defaults(conv, text) && s <= |text| && Coupled(buf[..], text, s, stack, opens)
    modifies buf
    ensures HoldsMove(buf[..], text, r, ExclamationAt(text, conv, endch, s, opens))
  {
    Peek(buf[..], text, s, s);
    var c := buf[s];
    if c == '-' {
      r := TakeComment(buf, s, endch, stack, text, opens);
    } else if c == '[' {
      r := TakeBracket(buf, s, endch, stack, text, conv, opens);
    } else {
      r := TakeDeclared(buf, s, endch, stack, text, opens);
    }
  }

  /** A CDATA section; s is behind the `<!`. */
  method TakeBracket(buf: array<char>, s: nat, endch: char, stack: seq<RawOpen>, ghost text: string, ghost conv: Converters, ghost opens: seq<Open>)
    returns (r: RawMove)
    requires Defaults(conv, text) && s < |text| && Coupled(buf[..], text, s, stack, opens)
    modifies buf
    ensures HoldsMove(buf[..], text, r, BracketAt(text, conv, endch, s, opens))
  {
    ReadyLater(buf[..], text, s, s + 1);
    var section := FindWord(buf, s + 1, "CDATA[", text);
    BracketIs(text, conv, endch, s, opens);
    if section {
      OnlyAhead(buf[..], text, s, s + 7, stack, opens);
      r := TakeSection(buf, s + 7, endch, stack, text, conv, opens);
    } else {
      r := RawHalt(Err(BadCData));
    }
  }

  lemma BracketIs(text: string, conv: Converters, endch: char, s: nat, opens: seq<Open>)
    requires IsText(text) && Sound(conv, |text|) && s < |text| && opens != []
    ensures if WordAt(text, s + 1, "CDATA[") then s + 7 <= |text| && BracketAt(text, conv, endch, s, opens) == SectionAt(text, conv, endch, s + 7, opens)
            else BracketAt(text, conv, endch, s, opens) == Halt(Err(BadCData))
  {
  }

  /** A comment; s is behind the `<!`. */
  method TakeComment(buf: array<char>, s: nat, endch: char, stack: seq<RawOpen>, ghost text: string, ghost opens: seq<Open>) returns (r: RawMove)
    requires s < |text| && text[s] == '-' && Coupled(buf[..], text, s, stack, opens)
    ensures HoldsMove(buf[..], text, r, CommentAt(text, endch, s, opens))
  {
    Peek(buf[..], text, s, s + 1);
    if buf[s + 1] != '-' {
      return RawHalt(Err(BadComment));
    }
    ReadyLater(buf[..], text, s, s + 2);
    var next := PassComment(buf, endch, s + 2, text);
    SkippedHolds(buf[..], text, s, next, stack, opens, BadComment);
    r := RawSkipped(next, stack, BadComment);
  }

  /** A document type or an error; s is behind the `<!`. */
  method TakeDeclared(buf: array<char>, s: nat, endch: char, stack: seq<RawOpen>, ghost text: string, ghost opens: seq<Open>) returns (r: RawMove)
    requires s <= |text| && Coupled(buf[..], text, s, stack, opens)
    modifies buf
    ensures HoldsMove(buf[..], text, r, DeclaredAt(text, endch, s, opens))
  {
    var doctype := FindDoctype(buf, s, endch, text);
    if doctype {
      if |stack| > 1 {
        return RawHalt(Err(BadDoctype));
      }
      r := TakeDoctype(buf, s, endch, stack, text, opens);
    } else {
      Peek(buf[..], text, s, s);
      r := RawHalt(Err(if buf[s] == '\0' && endch == '-' then BadComment
                       else if buf[s] == '\0' && endch == '[' then BadCData
                       else UnrecognizedTag));
    }
  }

  method FindDoctype(buf: array<char>, s: nat, endch: char, ghost text: string) returns (r: bool)
    requires Ready(buf[..], text, s)
    ensures r == (WordAt(text, s, "DOCTYP") && EndsWith(text, endch, s + 6, 'E'))
  {
    r := FindWord(buf, s, "DOCTYP", text);
    if r {
      Peek(buf[..], text, s, s + 6);
      r := buf[s + 6] == 'E' || (buf[s + 6] == '\0' && endch == 'E');
    }
  }

  /** A tag that does not begin with a name; s is behind its first character. */
  method TakeSigned(buf: array<char>, s: nat, c: char, endch: char, stack: seq<RawOpen>, ghost text: string, ghost conv: Converters, ghost opens: seq<Open>)
    returns (r: RawMove)
    requires Defaults(conv, text) && 0 < s <= |text| && Coupled(buf[..], text, s, stack, opens) && c == text[s - 1]
    modifies buf
    ensures HoldsMove(buf[..], text, r, SignAt(text, conv, endch, s - 1, opens))
  {
    if c == '/' {
      r := TakeEndTag(buf, s, endch, stack, text, opens);
    } else if c == '?' {
      r := TakeQuestion(buf, s, endch, stack, text, opens);
    } else if c == '!' {
      r := TakeExclamation(buf, s, endch, stack, text, conv, opens);
    } else {
      r := RawHalt(Err(UnrecognizedTag));
    }
  }

  /** Steps over the first character of such a tag. */
  method TakeSign(buf: array<char>, s: nat, c: char, endch: char, stack: seq<RawOpen>, ghost text: string, ghost conv: Converters, ghost opens: seq<Open>)
    returns (r: RawMove)
    requires Defaults(conv, text) && s < |text| && Coupled(buf[..], text, s, stack, opens) && c == text[s]
    modifies buf
    ensures HoldsMove(buf[..], text, r, SignAt(text, conv, endch, s, opens))
  {
    OnlyAhead(buf[..], text, s, s + 1, stack, opens);
    r := TakeSigned(buf, s + 1, c, endch, stack, text, conv, opens);
  }

  /** `LOC_TAG`: what comes behind a `<`. */
  method TakeTag(buf: array<char>, s: nat, endch: char, stack: seq<RawOpen>, ghost text: string, ghost conv: Converters, ghost opens: seq<Open>)
    returns (r: RawMove)
    requires Defaults(conv, text) && s <= |text| && Coupled(buf[..], text, s, stack, opens)
    modifies buf
    ensures HoldsMove(buf[..], text, r, TagAt(text, conv, endch, s, opens))
  {
    Peek(buf[..], text, s, s);
    var c := buf[s];
    if c == '\0' {
      r := RawHalt(Err(if endch == '?' then BadPi else UnrecognizedTag));
    } else if IsStartSymbol(c) {
      r := TakeStartTag(buf, s, endch, stack, text, conv, opens);
    } else {
      r := TakeSign(buf, s, c, endch, stack, text, conv, opens);
    }
  }

  /** One round of the loop. */
  method TakeOne(buf: array<char>, s: nat, inTag: bool, endch: char, stack: seq<RawOpen>, ghost text: string, ghost conv: Converters, ghost opens: seq<Open>)
    returns (r: RawMove)
    requires Defaults(conv, text) && s <= |text| && Coupled(buf[..], text, s, stack, opens)
    modifies buf
    ensures HoldsMove(buf[..], text, r, ParseStep(text, conv, endch, State(s, inTag, opens)))
  {
    Peek(buf[..], text, s, s);
    if inTag {
      r := TakeTag(buf, s, endch, stack, text, conv, opens);
    } else if buf[s] == '\0' {
      EndHolds(buf[..], text, s, stack, opens);
      r := RawAtEnd(stack);
    } else {
      r := TakeNext(buf, s, endch, stack, text, conv, opens);
    }
  }

  /** A tag that begins at s, or text. */
  method TakeNext(buf: array<char>, s: nat, endch: char, stack: seq<RawOpen>, ghost text: string, ghost conv: Converters, ghost opens: seq<Open>)
    returns (r: RawMove)
    requires Defaults(conv, text) && s < |text| && Coupled(buf[..], text, s, stack, opens)
    modifies buf
    ensures HoldsMove(buf[..], text, r, ParseStep(text, conv, endch, State(s, false, opens)))
  {
    Peek(buf[..], text, s, s);
    if buf[s] == '<' {
      OnlyAhead(buf[..], text, s, s + 1, stack, opens);
      r := RawGo(s + 1, true, stack);
    } else {
      r := TakeText(buf, s, stack, text, conv, opens);
    }
  }

  /** `parse_tree` on the buffer. */
  method ParseTreeInPlace(buf: array<char>, endch: char, start: nat, ghost text: string, ghost conv: Converters) returns (r: RawParsed)
    requires Defaults(conv, text) && start <= |text| && Unread(buf[..], text, start)
    modifies buf
    ensures HoldsParsed(buf[..], r, ParseTree(text, conv, endch, start))
  {
    ghost var step := Parsing(text, conv, endch);
    ParsingAdvances(text, conv, endch);
    var s, inTag, stack := start, false, [RawOpen(None, [], [])];
    ghost var opens := [Open("", [], [])];
    while true
      invariant s <= |text| && Coupled(buf[..], text, s, stack, opens)
      invariant RunBy(step, |text|, State(s, inTag, opens)) == ParseTree(text, conv, endch, start)
      decreases |text| - s
    {
      ghost var m := State(s, inTag, opens);
      ParseAdvances(text, conv, endch, m);
      var move := TakeOne(buf, s, inTag, endch, stack, text, conv, opens);
      assert step(m) == ParseStep(text, conv, endch, m);
      match move {
        case RawHalt(result) =>
          return result;
        case RawGo(next, inTag', stack') =>
          opens := ParseStep(text, conv, endch, m).to.stack;
          s, inTag, stack := next, inTag', stack';
      }
    }
  }

  // ---------------------------------------------------------------------- the document

  /** `parse_skip_bom` */
  method SkipBom(buf: array<char>, ghost text: string) returns (k: nat)
    requires IsText(text) && Unread(buf[..], text, 0)
    ensures k == BomEnd(text)
  {
    assert buf[..][0] == At(text, 0);
    k := 0;
    if buf[0] as nat == 0xEF {
      assert buf[..][1] == At(text, 1);
      if buf[1] as nat == 0xBB {
        assert buf[..][2] == At(text, 2);
        if buf[2] as nat == 0xBF {
          k := 3;
        }
      }
    }
  }

  /** `has_element_node_siblings` */
  method HasElementNode(rs: seq<RawTree>, ghost nodes: seq<Tree>, ghost buf: string) returns (b: bool)
    requires HoldsTrees(buf, |buf|, rs, nodes)
    ensures b == HasElement(nodes)
  {
    for i := 0 to |rs|
      invariant forall j | 0 <= j < i :: nodes[j].kind != Element
    {
      assert HoldsTree(buf, |buf|, rs[i], nodes[i]);
      if rs[i].kind == Element {
        return true;
      }
    }
    return false;
  }

  lemma Terminated(whole: string, text: string, now: string)
    requires whole != "" && text == whole[..|whole| - 1] && now == text + "\0"
    ensures Unread(now, text, 0)
  {
  }

  /** `parse`: the nodes of a buffer that is overwritten while it is read. */
  method ParseInPlace(buffer: array<char>) returns (r: RawParsed)
    requires buffer.Length > 0 ==> IsText(buffer[..buffer.Length - 1])
    modifies buffer
    ensures HoldsParsed(buffer[..], r, ParseDocument(old(buffer[..])))
  {
    if buffer.Length == 0 {
      return Err(NoDocumentElement);
    }
    var n := buffer.Length - 1;
    ghost var whole, text := buffer[..], buffer[..n];
    var endch := buffer[n];
    buffer[n] := '\0';
    Terminated(whole, text, buffer[..]);
    DefaultsAre(text);
    var start := SkipBom(buffer, text);
    ghost var parsed := ParseTree(text, DefaultConverters(text), endch, start);
    r := ParseTreeInPlace(buffer, endch, start, text, DefaultConverters(text));
    if r.Ok? {
      if endch == '<' {
        return Err(UnrecognizedTag);
      }
      var some := HasElementNode(r.value, parsed.value, buffer[..]);
      if !some {
        return Err(NoDocumentElement);
      }
    }
  }

  // ----------------------------------------------------------------- reading the nodes

  /** The string at p: the characters up to the terminator. */
  function StringAt(buf: string, p: nat): string
    decreases |buf| - p
  {
    if p < |buf| && buf[p] != '\0' then [buf[p]] + StringAt(buf, p + 1) else ""
  }

  function OptionalAt(buf: string, p: Option<nat>): string {
    if p.Some? then StringAt(buf, p.value) else ""
  }

  /** The node as the accessors of the document show it. */
  function TreeAt(buf: string, r: RawTree): Tree
    decreases r
  {
    Tree(r.kind, OptionalAt(buf, r.name), OptionalAt(buf, r.value),
         seq(|r.attrs|, i requires 0 <= i < |r.attrs| => Attr(StringAt(buf, r.attrs[i].name), StringAt(buf, r.attrs[i].value))),
         seq(|r.children|, i requires 0 <= i < |r.children| => TreeAt(buf, r.children[i])))
  }

  function TreesAt(buf: string, rs: seq<RawTree>): seq<Tree> {
    seq(|rs|, i requires 0 <= i < |rs| => TreeAt(buf, rs[i]))
  }

  lemma {:induction false} StringBack(buf: string, limit: nat, p: nat, w: string)
    requires Holds(buf, limit, p, w) && IsText(w)
    ensures StringAt(buf, p) == w
    decreases |w|
  {
    HeldChar(buf, limit, p, w, 0);
    if w != "" {
      assert buf[p + 1..p + |w|] == buf[p..p + |w|][1..];
      StringBack(buf, limit, p + 1, w[1..]);
      assert w == [w[0]] + w[1..];
    }
  }

  /** The strings of a node and of those below it have no terminator inside. */
  predicate AllText(t: Tree)
    decreases t
  {
    && IsText(t.name) && IsText(t.value) && (forall i | 0 <= i < |t.attrs| :: IsText(t.attrs[i].name) && IsText(t.attrs[i].value))
    && forall i | 0 <= i < |t.children| :: AllText(t.children[i])
  }

  lemma OptionalBack(buf: string, limit: nat, p: Option<nat>, w: string)
    requires HoldsOptional(buf, limit, p, w) && IsText(w)
    ensures OptionalAt(buf, p) == w
  {
    if p.Some? {
      StringBack(buf, limit, p.value, w);
    }
  }

  lemma AttributesBack(buf: string, limit: nat, rs: seq<RawAttr>, attrs: seq<Attr>)
    requires HoldsAttributes(buf, limit, rs, attrs) && forall i | 0 <= i < |attrs| :: IsText(attrs[i].name) && IsText(attrs[i].value)
    ensures seq(|rs|, i requires 0 <= i < |rs| => Attr(StringAt(buf, rs[i].name), StringAt(buf, rs[i].value))) == attrs
  {
    forall i | 0 <= i < |rs| ensures Attr(StringAt(buf, rs[i].name), StringAt(buf, rs[i].value)) == attrs[i] {
      assert HoldsAttribute(buf, limit, rs[i], attrs[i]);
      StringBack(buf, limit, rs[i].name, attrs[i].name);
      StringBack(buf, limit, rs[i].value, attrs[i].value);
    }
  }

  /** Nodes that the buffer holds are the nodes that are read from it. */
  lemma {:induction false} TreeBack(buf: string, limit: nat, r: RawTree, t: Tree)
    requires HoldsTree(buf, limit, r, t) && AllText(t)
    ensures TreeAt(buf, r) == t
    decreases r
  {
    OptionalBack(buf, limit, r.name, t.name);
    OptionalBack(buf, limit, r.value, t.value);
    AttributesBack(buf, limit, r.attrs, t.attrs);
    forall i | 0 <= i < |r.children| ensures TreeAt(buf, r.children[i]) == t.children[i] {
      TreeBack(buf, limit, r.children[i], t.children[i]);
    }
    assert TreeAt(buf, r).children == t.children;
  }

  lemma TreesBack(buf: string, rs: seq<RawTree>, ts: seq<Tree>)
    requires HoldsTrees(buf, |buf|, rs, ts) && forall i | 0 <= i < |ts| :: AllText(ts[i])
    ensures TreesAt(buf, rs) == ts
  {
    forall i | 0 <= i < |rs| ensures TreeAt(buf, rs[i]) == ts[i] {
      TreeBack(buf, |buf|, rs[i], ts[i]);
    }
  }
}
