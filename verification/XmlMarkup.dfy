/** Markup that the parser skips with its default options: comments, processing instructions and document types. */
module XmlMarkup {
  import opened Wrappers
  import opened XmlChars

  /** `PUGI_IMPL_ENDSWITH`: c stands at i, or the terminator replaced it. */
  predicate EndsWith(text: string, endch: char, i: nat, c: char) {
    At(text, i) == c || (At(text, i) == '\0' && endch == c)
  }

  /** What a scan looks for. */
  datatype Mark = CommentClose | PiClose | InDoctypeComment | InDoctypePi | InDoctypeQuote(quote: char)

  predicate MarkAt(mark: Mark, text: string, endch: char, i: nat) {
    match mark
    case CommentClose => At(text, i) == '-' && At(text, i + 1) == '-' && EndsWith(text, endch, i + 2, '>')
    case PiClose => At(text, i) == '?' && EndsWith(text, endch, i + 1, '>')
    case InDoctypeComment => At(text, i) == '-' && At(text, i + 1) == '-' && At(text, i + 2) == '>'
    case InDoctypePi => At(text, i) == '?' && At(text, i + 1) == '>'
    case InDoctypeQuote(quote) => At(text, i) == quote
  }

  /** `PUGI_IMPL_SCANFOR`: the first place from s on with the mark, or the end. */
  function ScanFor(mark: Mark, text: string, endch: char, s: nat): (r: nat)
    requires s <= |text|
    ensures s <= r <= |text| && (r < |text| ==> MarkAt(mark, text, endch, r))
    decreases |text| - s
  {
    if s == |text| || MarkAt(mark, text, endch, s) then s else ScanFor(mark, text, endch, s + 1)
  }

  /** Behind a comment whose text begins at s. */
  function SkipComment(text: string, endch: char, s: nat): (r: Option<nat>)
    requires s <= |text|
    ensures r.Some? ==> s < r.value <= |text|
  {
    var e := ScanFor(CommentClose, text, endch, s);
    if e == |text| then None else Some(if At(text, e + 2) == '>' then e + 3 else e + 2)
  }

  /** Behind a processing instruction. */
  function SkipPi(text: string, endch: char, s: nat): (r: Option<nat>)
    requires s <= |text|
    ensures r.Some? ==> s < r.value <= |text|
  {
    var e := ScanFor(PiClose, text, endch, s);
    if e == |text| then None else Some(if At(text, e + 1) == '>' then e + 2 else e + 1)
  }

  // ------------------------------------------------------------------ document types

  /** A quotation, a processing instruction or a comment inside a document type. */
  function DoctypePrimitive(text: string, endch: char, s: nat): (r: Option<nat>)
    requires s < |text|
    ensures r.Some? ==> s < r.value <= |text|
  {
    if text[s] == '"' || text[s] == '\'' then
      var e := ScanFor(InDoctypeQuote(text[s]), text, endch, s + 1);
      if e == |text| then None else Some(e + 1)
    else if text[s] == '<' && At(text, s + 1) == '?' then
      var e := ScanFor(InDoctypePi, text, endch, s + 2);
      if e == |text| then None else Some(e + 2)
    else if text[s] == '<' && At(text, s + 1) == '!' && At(text, s + 2) == '-' && At(text, s + 3) == '-' then
      var e := ScanFor(InDoctypeComment, text, endch, s + 4);
      if e == |text| then None else Some(e + 3)
    else None
  }

  /** Behind an ignored section, inside of which depth others are open. */
  function DoctypeIgnore(text: string, s: nat, depth: nat): (r: Option<nat>)
    requires s <= |text|
    ensures r.Some? ==> s < r.value <= |text|
    decreases |text| - s
  {
    if s == |text| then None
    else if text[s] == '<' && At(text, s + 1) == '!' && At(text, s + 2) == '[' then DoctypeIgnore(text, s + 3, depth + 1)
    else if text[s] == ']' && At(text, s + 1) == ']' && At(text, s + 2) == '>' then
      if depth == 0 then Some(s + 3) else DoctypeIgnore(text, s + 3, depth - 1)
    else DoctypeIgnore(text, s + 1, depth)
  }

  /** The bracket that closes a document type, inside of which depth groups are open, or the end of the text in its place. */
  function DoctypeGroup(text: string, endch: char, s: nat, depth: nat): (r: Option<nat>)
    requires s <= |text|
    ensures r.Some? ==> s <= r.value <= |text| && (r.value < |text| ==> text[r.value] == '>')
    decreases |text| - s
  {
    if s == |text| then
      if depth != 0 || endch != '>' then None else Some(s)
    else if text[s] == '<' && At(text, s + 1) == '!' && At(text, s + 2) != '-' then
      if At(text, s + 2) == '[' then
        match DoctypeIgnore(text, s + 3, 0)
        case None => None
        case Some(next) => DoctypeGroup(text, endch, next, depth)
      else DoctypeGroup(text, endch, s + 2, depth + 1)
    else if text[s] == '<' || text[s] == '"' || text[s] == '\'' then
      match DoctypePrimitive(text, endch, s)
      case None => None
      case Some(next) => DoctypeGroup(text, endch, next, depth)
    else if text[s] == '>' then
      if depth == 0 then Some(s) else DoctypeGroup(text, endch, s + 1, depth - 1)
    else DoctypeGroup(text, endch, s + 1, depth)
  }

  /** Behind a document type; s is behind its `<!`. */
  function SkipDoctype(text: string, endch: char, s: nat): (r: Option<nat>)
    requires s <= |text|
    ensures r.Some? ==> s <= r.value <= |text|
  {
    match DoctypeGroup(text, endch, s, 0)
    case None => None
    case Some(e) => Some(if e < |text| then e + 1 else e)
  }

  // ------------------------------------------------------------------ on the buffer

  /** What is not read yet, from s on, is as it was, up to the terminator. */
  predicate Unread(buf: string, text: string, s: nat) {
    |buf| == |text| + 1 && forall x | s <= x <= |text| :: buf[x] == At(text, x)
  }

  /** A text with its terminator, unread from s on. */
  predicate Ready(buf: string, text: string, s: nat) {
    IsText(text) && s <= |text| && Unread(buf, text, s)
  }

  lemma Peek(buf: string, text: string, s: nat, i: nat)
    requires Ready(buf, text, s) && s <= i <= |text|
    ensures buf[i] == At(text, i) && (buf[i] == '\0' <==> i == |text|)
  {
  }

  /** Two characters one after the other, the second only looked at behind the first. */
  method Twice(buf: array<char>, i: nat, a: char, b: char, ghost text: string) returns (r: bool)
    requires Ready(buf[..], text, i) && a != '\0'
    ensures r == (At(text, i) == a && At(text, i + 1) == b)
  {
    Peek(buf[..], text, i, i);
    r := buf[i] == a;
    if r {
      Peek(buf[..], text, i, i + 1);
      r := buf[i + 1] == b;
    }
  }

  method Thrice(buf: array<char>, i: nat, a: char, b: char, c: char, ghost text: string) returns (r: bool)
    requires Ready(buf[..], text, i) && a != '\0' && b != '\0'
    ensures r == (At(text, i) == a && At(text, i + 1) == b && At(text, i + 2) == c)
  {
    r := Twice(buf, i, a, b, text);
    if r {
      Peek(buf[..], text, i, i + 2);
      r := buf[i + 2] == c;
    }
  }

  method FindMark(buf: array<char>, mark: Mark, endch: char, i: nat, ghost text: string) returns (r: bool)
    requires Ready(buf[..], text, i)
    ensures r == MarkAt(mark, text, endch, i)
  {
    match mark {
      case CommentClose =>
        r := Twice(buf, i, '-', '-', text);
        if r {
          Peek(buf[..], text, i, i + 2);
          r := buf[i + 2] == '>' || (buf[i + 2] == '\0' && endch == '>');
        }
      case PiClose =>
        Peek(buf[..], text, i, i);
        r := buf[i] == '?';
        if r {
          Peek(buf[..], text, i, i + 1);
          r := buf[i + 1] == '>' || (buf[i + 1] == '\0' && endch == '>');
        }
      case InDoctypeComment => r := Thrice(buf, i, '-', '-', '>', text);
      case InDoctypePi => r := Twice(buf, i, '?', '>', text);
      case InDoctypeQuote(quote) =>
        Peek(buf[..], text, i, i);
        r := buf[i] == quote;
    }
  }

  lemma ReadyLater(buf: string, text: string, s: nat, t: nat)
    requires Ready(buf, text, s) && s <= t <= |text|
    ensures Ready(buf, text, t)
  {
  }

  method Scan(buf: array<char>, mark: Mark, endch: char, s: nat, ghost text: string) returns (r: nat, found: bool)
    requires Ready(buf[..], text, s)
    ensures r == ScanFor(mark, text, endch, s) && found == (r < |text|)
  {
    r := s;
    while true
      invariant s <= r <= |text| && Ready(buf[..], text, r) && ScanFor(mark, text, endch, r) == ScanFor(mark, text, endch, s)
      decreases |text| - r
    {
      Peek(buf[..], text, r, r);
      if buf[r] == '\0' {
        return r, false;
      }
      found := FindMark(buf, mark, endch, r, text);
      if found {
        return;
      }
      r := r + 1;
    }
  }

  method PassComment(buf: array<char>, endch: char, s: nat, ghost text: string) returns (r: Option<nat>)
    requires Ready(buf[..], text, s)
    ensures r == SkipComment(text, endch, s)
  {
    var e, found := Scan(buf, CommentClose, endch, s, text);
    if found {
      Peek(buf[..], text, s, e + 2);
      r := Some(if buf[e + 2] == '>' then e + 3 else e + 2);
    } else {
      r := None;
    }
  }

  method PassPi(buf: array<char>, endch: char, s: nat, ghost text: string) returns (r: Option<nat>)
    requires Ready(buf[..], text, s)
    ensures r == SkipPi(text, endch, s)
  {
    var e, found := Scan(buf, PiClose, endch, s, text);
    if found {
      Peek(buf[..], text, s, e + 1);
      r := Some(if buf[e + 1] == '>' then e + 2 else e + 1);
    } else {
      r := None;
    }
  }

  /** `parse_doctype_primitive` */
  method PassPrimitive(buf: array<char>, endch: char, s: nat, ghost text: string) returns (r: Option<nat>)
    requires Ready(buf[..], text, s) && s < |text|
    ensures r == DoctypePrimitive(text, endch, s)
  {
    Peek(buf[..], text, s, s);
    var e, found;
    if buf[s] == '"' || buf[s] == '\'' {
      ReadyLater(buf[..], text, s, s + 1);
      e, found := Scan(buf, InDoctypeQuote(buf[s]), endch, s + 1, text);
      return if found then Some(e + 1) else None;
    }
    found := Twice(buf, s, '<', '?', text);
    if found {
      ReadyLater(buf[..], text, s, s + 2);
      e, found := Scan(buf, InDoctypePi, endch, s + 2, text);
      return if found then Some(e + 2) else None;
    }
    found := CommentOpens(buf, s, text);
    if found {
      ReadyLater(buf[..], text, s, s + 4);
      e, found := Scan(buf, InDoctypeComment, endch, s + 4, text);
      return if found then Some(e + 3) else None;
    }
    return None;
  }

  method CommentOpens(buf: array<char>, s: nat, ghost text: string) returns (r: bool)
    requires Ready(buf[..], text, s)
    ensures r == (At(text, s) == '<' && At(text, s + 1) == '!' && At(text, s + 2) == '-' && At(text, s + 3) == '-')
  {
    r := Thrice(buf, s, '<', '!', '-', text);
    if r {
      Peek(buf[..], text, s, s + 3);
      r := buf[s + 3] == '-';
    }
  }

  /** `parse_doctype_ignore` */
  method PassIgnore(buf: array<char>, start: nat, ghost text: string) returns (r: Option<nat>)
    requires Ready(buf[..], text, start)
    ensures r == DoctypeIgnore(text, start, 0)
  {
    var s, depth: nat := start, 0;
    while true
      invariant s <= |text| && Ready(buf[..], text, s) && DoctypeIgnore(text, s, depth) == DoctypeIgnore(text, start, 0)
      decreases |text| - s
    {
      Peek(buf[..], text, s, s);
      if buf[s] == '\0' {
        return None;
      }
      var opens := Thrice(buf, s, '<', '!', '[', text);
      var closes := Thrice(buf, s, ']', ']', '>', text);
      if opens {
        s, depth := s + 3, depth + 1;
      } else if closes {
        s := s + 3;
        if depth == 0 {
          return Some(s);
        }
        depth := depth - 1;
      } else {
        s := s + 1;
      }
    }
  }

  /** A control group or an ignored section opens at s. */
  method GroupOpens(buf: array<char>, s: nat, ghost text: string) returns (group: bool, ignored: bool)
    requires Ready(buf[..], text, s)
    ensures group == (At(text, s) == '<' && At(text, s + 1) == '!' && At(text, s + 2) != '-')
    ensures ignored == (group && At(text, s + 2) == '[')
  {
    ignored := false;
    group := Twice(buf, s, '<', '!', text);
    if group {
      Peek(buf[..], text, s, s + 2);
      group, ignored := buf[s + 2] != '-', buf[s + 2] == '[';
    }
  }

  /** `parse_doctype_group` */
  method PassGroup(buf: array<char>, endch: char, start: nat, ghost text: string) returns (r: Option<nat>)
    requires Ready(buf[..], text, start)
    ensures r == DoctypeGroup(text, endch, start, 0)
  {
    var s, depth: nat := start, 0;
    while true
      invariant s <= |text| && Ready(buf[..], text, s) && DoctypeGroup(text, endch, s, depth) == DoctypeGroup(text, endch, start, 0)
      decreases |text| - s
    {
      Peek(buf[..], text, s, s);
      if buf[s] == '\0' {
        return if depth != 0 || endch != '>' then None else Some(s);
      }
      var group, ignored := GroupOpens(buf, s, text);
      if ignored || (!group && (buf[s] == '<' || buf[s] == '"' || buf[s] == '\'')) {
        var next := PassPart(buf, endch, s, ignored, text);
        if next.None? {
          return None;
        }
        s := next.value;
      } else if group {
        s, depth := s + 2, depth + 1;
      } else if buf[s] == '>' {
        if depth == 0 {
          return Some(s);
        }
        s, depth := s + 1, depth - 1;
      } else {
        s := s + 1;
      }
    }
  }

  /** An ignored section or a primitive group. */
  method PassPart(buf: array<char>, endch: char, s: nat, ignored: bool, ghost text: string) returns (r: Option<nat>)
    requires Ready(buf[..], text, s) && s < |text| && (ignored ==> text[s] == '<' && At(text, s + 1) == '!' && At(text, s + 2) == '[')
    ensures r == if ignored then DoctypeIgnore(text, s + 3, 0) else DoctypePrimitive(text, endch, s)
    ensures r.Some? ==> s < r.value && Ready(buf[..], text, r.value)
  {
    if ignored {
      ReadyLater(buf[..], text, s, s + 3);
      r := PassIgnore(buf, s + 3, text);
    } else {
      r := PassPrimitive(buf, endch, s, text);
    }
  }
}
