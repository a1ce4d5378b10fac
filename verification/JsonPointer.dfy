/**
 JSON pointers (RFC 6901): escaping, splitting a reference string into tokens,
 and reading an array index out of a token.
 */
module JsonPointer {
  import opened Wrappers
  import opened JsonValue
  import opened Digits

  /** The exceptions the library throws, by their documented number. */
  datatype Error =
    | ParseError(id: nat)
    | OutOfRange(id: nat)
    | OtherError(id: nat)
    | AssertionFailed

  // ---------------------------------------------------------------- replacing

  /** Replaces the occurrences of f in s by t, scanning once from the left. */
  function ReplaceAll(s: string, f: string, t: string): string
    requires f != ""
  {
    if s == "" then ""
    else if f <= s then t + ReplaceAll(s[|f|..], f, t)
    else [s[0]] + ReplaceAll(s[1..], f, t)
  }

  /** `find`: the first position where f occurs, None for `npos`. */
  function Find(s: string, f: string): (pos: Option<nat>)
    requires f != ""
    ensures pos.Some? ==> pos.value + |f| <= |s|
    ensures pos == Some(0) ==> f <= s
  {
    if s == "" then None
    else if f <= s then Some(0)
    else match Find(s[1..], f)
      case Some(k) => Some(k + 1)
      case None => None
  }

  lemma {:induction false} ReplaceNothing(s: string, f: string, t: string)
    requires f != "" && Find(s, f).None?
    ensures ReplaceAll(s, f, t) == s
  {
    if s != "" {
      ReplaceNothing(s[1..], f, t);
    }
  }

  /** Before the first occurrence characters are kept. */
  lemma ReplaceBefore(s: string, f: string, t: string)
    requires f != "" && Find(s, f).Some? && Find(s, f).value > 0
    ensures s != "" && Find(s[1..], f) == Some(Find(s, f).value - 1)
    ensures ReplaceAll(s, f, t) == [s[0]] + ReplaceAll(s[1..], f, t)
  {
  }

  lemma ReplaceHere(s: string, f: string, t: string)
    requires f != "" && Find(s, f) == Some(0)
    ensures ReplaceAll(s, f, t) == t + ReplaceAll(s[|f|..], f, t)
  {
  }

  lemma JoinBefore(s: string, k: nat, t: string, tail: string)
    requires 0 < k <= |s|
    ensures [s[0]] + (s[1..][..k - 1] + t + tail) == s[..k] + t + tail
  {
    assert [s[0]] + s[1..][..k - 1] == s[..k];
  }

  lemma {:induction false} ReplaceAtFind(s: string, f: string, t: string)
    requires f != "" && Find(s, f).Some?
    ensures var k := Find(s, f).value;
            ReplaceAll(s, f, t) == s[..k] + t + ReplaceAll(s[k + |f|..], f, t)
  {
    var k := Find(s, f).value;
    if k == 0 {
      ReplaceHere(s, f, t);
      assert s[..0] + t == t;
    } else {
      var rest, tail := s[1..], s[k + |f|..];
      ReplaceBefore(s, f, t);
      ReplaceAtFind(rest, f, t);
      assert rest[k - 1 + |f|..] == tail by {
        DropDrop(s, 1, k - 1 + |f|);
      }
      JoinBefore(s, k, t, ReplaceAll(tail, f, t));
    }
  }

  lemma DropDrop(s: string, i: nat, j: nat)
    requires i + j <= |s|
    ensures s[i..][j..] == s[i + j..]
  {
  }

  lemma RegroupFour(a: string, b: string, c: string, d: string)
    ensures a + (b + c + d) == (a + b) + c + d
  {
  }

  lemma SplitConcat(a: string, b: string)
    ensures (a + b)[..|a|] == a && (a + b)[|a|..] == b
  {
  }

  /** What is done and what is left, when r is searched from position |done| on. */
  ghost predicate Replacing(s: string, f: string, t: string, r: string, done: string, rest: string) {
    f != "" && r == done + rest && done + ReplaceAll(rest, f, t) == ReplaceAll(s, f, t)
  }

  /** One occurrence is replaced, and searching goes on behind it. */
  lemma ReplaceStep(s: string, f: string, t: string, r: string, done: string, rest: string, k: nat)
    requires Replacing(s, f, t, r, done, rest) && Find(rest, f) == Some(k)
    ensures var r' := r[..|done| + k] + t + r[|done| + k + |f|..];
            Replacing(s, f, t, r', done + rest[..k] + t, rest[k + |f|..])
  {
    ReplaceAtFind(rest, f, t);
    ReplacedText(done, rest, k, |f|, t);
    RegroupFour(done, rest[..k], t, ReplaceAll(rest[k + |f|..], f, t));
  }

  lemma ReplacedText(done: string, rest: string, k: nat, n: nat, t: string)
    requires k + n <= |rest|
    ensures var r, pos := done + rest, |done| + k; r[..pos] + t + r[pos + n..] == (done + rest[..k] + t) + rest[k + n..]
  {
    var r, pos := done + rest, |done| + k;
    assert r[..pos] == done + rest[..k] && r[pos + n..] == rest[k + n..];
  }

  /** `replace_substring`: replaces in place, searching on behind each replacement. */
  method ReplaceSubstring(s: string, f: string, t: string) returns (r: string)
    requires f != ""
    ensures r == ReplaceAll(s, f, t)
  {
    r := s;
    var from := 0;
    var found := Find(r, f);
    ghost var done, rest := "", s;
    assert "" + s == s && "" + ReplaceAll(s, f, t) == ReplaceAll(s, f, t);
    while found.Some?
      invariant Replacing(s, f, t, r, done, rest) && from == |done| && found == Find(rest, f)
      decreases |rest|
    {
      var pos := from + found.value;
      ReplaceStep(s, f, t, r, done, rest, found.value);
      done, rest := done + rest[..found.value] + t, rest[found.value + |f|..];
      r := r[..pos] + t + r[pos + |f|..];
      from := pos + |t|;
      SplitConcat(done, rest);
      found := Find(r[from..], f);
    }
    ReplaceNothing(rest, f, t);
  }

  // ----------------------------------------------------------------- escaping

  /** `detail::escape`: "~" becomes "~0" first, then "/" becomes "~1". */
  function Escape(s: string): string {
    ReplaceAll(ReplaceAll(s, "~", "~0"), "/", "~1")
  }

  /** `detail::unescape`: "~1" becomes "/" first, then "~0" becomes "~". */
  function Unescape(s: string): string {
    ReplaceAll(ReplaceAll(s, "~1", "/"), "~0", "~")
  }

  /** `escape` */
  method EscapeToken(s: string) returns (r: string)
    ensures r == Escape(s)
  {
    r := ReplaceSubstring(s, "~", "~0");
    r := ReplaceSubstring(r, "/", "~1");
  }

  /** `unescape` */
  method UnescapeToken(s: string) returns (r: string)
    ensures r == Unescape(s)
  {
    r := ReplaceSubstring(s, "~1", "/");
    r := ReplaceSubstring(r, "~0", "~");
  }

  /** Every '~' is followed by '0' or '1'. */
  predicate EscapesValid(s: string) {
    forall i | 0 <= i < |s| && s[i] == '~' :: i + 1 < |s| && (s[i + 1] == '0' || s[i + 1] == '1')
  }

  /** The escape of one character. */
  function EscapeChar(c: char): string {
    if c == '~' then "~0" else if c == '/' then "~1" else [c]
  }

  lemma ReplaceOne(c: char, s: string, g: char, t: string)
    ensures ReplaceAll([c] + s, [g], t) == (if c == g then t else [c]) + ReplaceAll(s, [g], t)
  {
    assert ([c] + s)[1..] == s;
    assert ([c] + s)[0] == c;
  }

  lemma EscapeTilde(rest: string)
    ensures ReplaceAll("~0" + rest, "/", "~1") == "~0" + ReplaceAll(rest, "/", "~1")
  {
    assert "~0" + rest == ['~'] + (['0'] + rest);
    ReplaceOne('~', ['0'] + rest, '/', "~1");
    ReplaceOne('0', rest, '/', "~1");
  }

  lemma EscapeCons(c: char, s: string)
    ensures Escape([c] + s) == EscapeChar(c) + Escape(s)
  {
    var rest := ReplaceAll(s, "~", "~0");
    ReplaceOne(c, s, '~', "~0");
    if c == '~' {
      EscapeTilde(rest);
    } else {
      ReplaceOne(c, rest, '/', "~1");
    }
  }

  lemma UnescapeCons(c: char, s: string)
    ensures Unescape(EscapeChar(c) + s) == [c] + Unescape(s)
  {
    var rest := ReplaceAll(s, "~1", "/");
    if c == '~' {
      assert ("~0" + s)[1..] == ['0'] + s;
      assert (['0'] + s)[1..] == s;
      assert (['0'] + s)[0] == '0' && ("~0" + s)[1] == '0';
      assert ReplaceAll("~0" + s, "~1", "/") == "~0" + rest;
      assert ("~0" + rest)[2..] == rest;
    } else if c == '/' {
      assert ("~1" + s)[2..] == s;
      assert ("/" + rest)[1..] == rest;
    } else {
      assert ([c] + s)[1..] == s;
      assert ([c] + rest)[1..] == rest;
    }
  }

  /** Escaping is undone by unescaping, hides every '/', and leaves only valid escapes. */
  lemma {:induction false} EscapeRoundTrip(s: string)
    ensures Unescape(Escape(s)) == s
    ensures '/' !in Escape(s)
    ensures EscapesValid(Escape(s))
  {
    if s != "" {
      var c, rest := s[0], Escape(s[1..]);
      EscapeRoundTrip(s[1..]);
      assert s == [c] + s[1..];
      EscapeCons(c, s[1..]);
      UnescapeCons(c, rest);
      var e := EscapeChar(c);
      forall i | 0 <= i < |e + rest| && (e + rest)[i] == '~'
        ensures i + 1 < |e + rest| && ((e + rest)[i + 1] == '0' || (e + rest)[i + 1] == '1')
      {
        if i >= |e| {
          assert rest[i - |e|] == '~';
        }
      }
    }
  }

  // ---------------------------------------------------------------- splitting

  /** The position of the first '/', |s| when there is none. */
  function FirstSlash(s: string): (pos: nat)
    ensures pos <= |s|
    ensures pos < |s| ==> s[pos] == '/'
  {
    if s == "" || s[0] == '/' then 0 else 1 + FirstSlash(s[1..])
  }

  /** A token list put in front of what is still to be split. */
  function Prepended(first: seq<string>, rest: Result<seq<string>, Error>): Result<seq<string>, Error> {
    match rest
    case Ok(tokens) => Ok(first + tokens)
    case Err(e) => Err(e)
  }

  lemma PrependedNothing(rest: Result<seq<string>, Error>)
    ensures Prepended([], rest) == rest
  {
    if rest.Ok? {
      assert [] + rest.value == rest.value;
    }
  }

  lemma PrependedAppend(a: seq<string>, t: string, rest: Result<seq<string>, Error>)
    ensures Prepended(a, Prepended([t], rest)) == Prepended(a + [t], rest)
  {
    if rest.Ok? {
      assert a + ([t] + rest.value) == (a + [t]) + rest.value;
    }
  }

  /** One reference token, unescaped if its escapes are valid. */
  function TokenOf(raw: string): Result<string, Error> {
    if EscapesValid(raw) then Ok(Unescape(raw)) else Err(ParseError(108))
  }

  /** The tokens of the text behind a '/': one up to each further '/', and one up to the end. */
  function RestTokens(s: string): Result<seq<string>, Error>
    decreases |s|
  {
    var slash := FirstSlash(s);
    var token :- TokenOf(s[..slash]);
    if slash == |s| then Ok([token]) else Prepended([token], RestTokens(s[slash + 1..]))
  }

  /** The reference tokens of a pointer string. */
  function Tokens(s: string): Result<seq<string>, Error> {
    if s == "" then Ok([])
    else if s[0] != '/' then Err(ParseError(107))
    else RestTokens(s[1..])
  }

  method ReadToken(raw: string) returns (r: Result<string, Error>)
    ensures r == TokenOf(raw)
  {
    for pos := 0 to |raw|
      invariant forall i | 0 <= i < pos && raw[i] == '~' ::
                  i + 1 < |raw| && (raw[i + 1] == '0' || raw[i + 1] == '1')
    {
      if raw[pos] == '~' && (pos == |raw| - 1 || (raw[pos + 1] != '0' && raw[pos + 1] != '1')) {
        return Err(ParseError(108));
      }
    }
    var token := UnescapeToken(raw);
    return Ok(token);
  }

  /** The loop of `json_pointer::split`: `start` is behind the last slash, `slash` at the next one. */
  method SplitTokens(s: string) returns (r: Result<seq<string>, Error>)
    requires s != ""
    ensures r == RestTokens(s[1..])
  {
    ghost var text, rest := s[1..], s[1..];
    var result: seq<string> := [];
    var start := 1;
    var slash := 1 + FirstSlash(s[1..]);
    PrependedNothing(RestTokens(text));
    while true
      invariant 1 <= start <= |s| && rest == s[start..] && slash == start + FirstSlash(rest)
      invariant RestTokens(text) == Prepended(result, RestTokens(rest))
      decreases |rest|
    {
      var token := ReadToken(s[start..slash]);
      assert s[start..slash] == rest[..slash - start];
      if token.Err? {
        return Err(token.error);
      }
      if slash == |s| {
        return Ok(result + [token.value]);
      }
      DropDrop(s, start, slash - start + 1);
      rest := rest[slash - start + 1..];
      PrependedAppend(result, token.value, RestTokens(rest));
      result := result + [token.value];
      start := slash + 1;
      slash := start + FirstSlash(s[start..]);
    }
  }

  /** `json_pointer::split` */
  method Split(s: string) returns (r: Result<seq<string>, Error>)
    ensures r == Tokens(s)
  {
    if s == "" {
      return Ok([]);
    }
    if s[0] != '/' {
      return Err(ParseError(107));
    }
    r := SplitTokens(s);
  }

  /** The pointer string of a list of tokens. */
  function Render(tokens: seq<string>): string {
    if tokens == [] then "" else Render(tokens[..|tokens| - 1]) + "/" + Escape(tokens[|tokens| - 1])
  }

  lemma {:induction false} FirstSlashIn(s: string, t: string)
    ensures FirstSlash(s + "/" + t) == FirstSlash(s)
  {
    if s != "" {
      assert (s + "/" + t)[0] == s[0];
      assert (s + "/" + t)[1..] == s[1..] + "/" + t;
      FirstSlashIn(s[1..], t);
    }
  }

  lemma {:induction false} NoSlash(t: string)
    requires '/' !in t
    ensures FirstSlash(t) == |t|
  {
    if t != "" {
      assert t[0] in t;
      NoSlash(t[1..]);
    }
  }

  lemma RestTokensSingle(t: string)
    requires '/' !in t && EscapesValid(t)
    ensures RestTokens(t) == Ok([Unescape(t)])
  {
    NoSlash(t);
    assert t[..|t|] == t;
  }

  lemma CutInside(s: string, t: string, k: nat)
    requires k < |s|
    ensures (s + "/" + t)[..k] == s[..k]
    ensures (s + "/" + t)[k + 1..] == s[k + 1..] + "/" + t
  {
  }

  lemma RestTokensLast(s: string, t: string)
    requires FirstSlash(s) == |s| && RestTokens(s).Ok? && '/' !in t && EscapesValid(t)
    ensures RestTokens(s + "/" + t) == Ok(RestTokens(s).value + [Unescape(t)])
  {
    FirstSlashIn(s, t);
    assert (s + "/" + t)[..|s|] == s[..|s|];
    assert (s + "/" + t)[|s| + 1..] == t;
    RestTokensSingle(t);
  }

  lemma {:induction false} RestTokensAppend(s: string, t: string)
    requires RestTokens(s).Ok? && '/' !in t && EscapesValid(t)
    ensures RestTokens(s + "/" + t) == Ok(RestTokens(s).value + [Unescape(t)])
    decreases |s|
  {
    var k := FirstSlash(s);
    if k == |s| {
      RestTokensLast(s, t);
    } else {
      var head, tail := TokenOf(s[..k]).value, RestTokens(s[k + 1..]).value;
      RestTokensAppend(s[k + 1..], t);
      RestTokensFirst(s, t, k);
      Regroup([head], tail, [Unescape(t)]);
    }
  }

  /** The first token of a longer text is that of the shorter one. */
  lemma RestTokensFirst(s: string, t: string, k: nat)
    requires k == FirstSlash(s) < |s| && RestTokens(s).Ok? && RestTokens(s[k + 1..] + "/" + t).Ok?
    ensures TokenOf(s[..k]).Ok?
    ensures RestTokens(s + "/" + t) == Ok([TokenOf(s[..k]).value] + RestTokens(s[k + 1..] + "/" + t).value)
  {
    FirstSlashIn(s, t);
    CutInside(s, t, k);
    FirstOk(s, k);
    FirstToken(s + "/" + t, k);
  }

  lemma FirstOk(s: string, k: nat)
    requires k == FirstSlash(s) < |s| && RestTokens(s).Ok?
    ensures TokenOf(s[..k]).Ok?
  {
  }

  lemma FirstToken(s: string, k: nat)
    requires k == FirstSlash(s) < |s| && TokenOf(s[..k]).Ok? && RestTokens(s[k + 1..]).Ok?
    ensures RestTokens(s) == Ok([TokenOf(s[..k]).value] + RestTokens(s[k + 1..]).value)
  {
  }

  lemma TokensAppend(p: string, t: string)
    requires Tokens(p).Ok? && '/' !in t && EscapesValid(t)
    ensures Tokens(p + "/" + t) == Ok(Tokens(p).value + [Unescape(t)])
  {
    if p == "" {
      assert p + "/" + t == "/" + t;
      assert ("/" + t)[1..] == t && [] + [Unescape(t)] == [Unescape(t)];
      RestTokensSingle(t);
    } else {
      assert (p + "/" + t)[0] == p[0];
      assert (p + "/" + t)[1..] == p[1..] + "/" + t;
      RestTokensAppend(p[1..], t);
    }
  }

  /** Splitting the rendered pointer gives back the tokens, whatever characters they hold. */
  lemma {:induction false} TokensOfRender(tokens: seq<string>)
    ensures Tokens(Render(tokens)) == Ok(tokens)
  {
    if tokens != [] {
      var init, last := tokens[..|tokens| - 1], tokens[|tokens| - 1];
      TokensOfRender(init);
      EscapeRoundTrip(last);
      var e := Escape(last);
      TokensAppend(Render(init), e);
      assert init + [last] == tokens;
    }
  }

  // ------------------------------------------------------------ array indices

  /** `array_index`: no leading zero, digits only, and below the largest `size_type`. */
  function ArrayIndex(s: string): Result<nat, Error> {
    if |s| > 1 && s[0] == '0' then Err(ParseError(106))
    else if |s| > 1 && !('1' <= s[0] <= '9') then Err(ParseError(109))
    else if s == "" || !AllDigits(s) || DecimalValue(s) >= TWO_64 then Err(OutOfRange(404))
    else if DecimalValue(s) >= TWO_64 - 1 then Err(OutOfRange(410))
    else Ok(DecimalValue(s))
  }

  /** Reading a printed index gives the index back for every index an array can have. */
  lemma IndexRoundTrip(n: nat)
    requires n < TWO_64 - 1
    ensures ArrayIndex(Decimal(n)) == Ok(n)
    ensures Decimal(n) != "-"
  {
    var s := Decimal(n);
    assert IsDigit(s[0]) && (s[0] == '0' ==> s == "0");
  }
}
