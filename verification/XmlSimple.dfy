/** `node_output_comment`, `node_output_pi_value` and `text_output_cdata`, and what the parser makes of what they write. */
module XmlSimple {
  import opened Wrappers
  import opened XmlChars
  import opened XmlDecode
  import opened XmlSurvive
  import opened XmlMarkup

  // ------------------------------------------------------ comments and instructions

  /** Where text stands that must not contain its own end. */
  datatype Inside = InComment | InPi

  /** Whether a blank has to follow character i, so that the markup does not end there. */
  predicate Breaks(inside: Inside, v: string, i: nat)
    requires i < |v|
  {
    match inside
    case InComment => v[i] == '-' && (At(v, i + 1) == '-' || i + 1 == |v|)
    case InPi => v[i] == '?' && At(v, i + 1) == '>'
  }

  /** What is written for the text from character i on. */
  function Body(inside: Inside, v: string, i: nat): string
    requires i <= |v|
    decreases |v| - i
  {
    if i == |v| then [] else (if Breaks(inside, v, i) then [v[i], ' '] else [v[i]]) + Body(inside, v, i + 1)
  }

  function CommentText(v: string): string {
    "<!--" + (Body(InComment, v, 0) + "-->")
  }

  function PiText(name: string, v: string): string {
    "<?" + (name + ((if v == "" then "" else " " + Body(InPi, v, 0)) + "?>"))
  }

  ghost predicate Guarding(inside: Inside, v: string, i: nat, output: string) {
    i <= |v| && output + Body(inside, v, i) == Body(inside, v, 0)
  }

  lemma {:induction false} GuardRun(inside: Inside, v: string, i: nat, j: nat, output: string)
    requires i <= j <= |v| && Guarding(inside, v, i, output) && forall k | i <= k < j :: !Breaks(inside, v, k)
    ensures Guarding(inside, v, j, output + v[i..j])
    decreases j - i
  {
    if i == j {
      assert output + v[i..j] == output;
    } else {
      Regroup(output, [v[i]], Body(inside, v, i + 1));
      GuardRun(inside, v, i + 1, j, output + [v[i]]);
      assert output + [v[i]] + v[i + 1..j] == output + v[i..j];
    }
  }

  lemma GuardBreak(inside: Inside, v: string, i: nat, output: string)
    requires i < |v| && Guarding(inside, v, i, output) && Breaks(inside, v, i)
    ensures Guarding(inside, v, i + 1, output + [v[i], ' '])
  {
    Regroup(output, [v[i], ' '], Body(inside, v, i + 1));
  }

  /** The end of the run of text that can be written as it is. */
  method ScanRun(inside: Inside, v: string, i: nat) returns (j: nat)
    requires i <= |v|
    ensures i <= j <= |v| && (forall k | i <= k < j :: !Breaks(inside, v, k)) && (j < |v| ==> Breaks(inside, v, j))
  {
    j := i;
    while j < |v| && !Breaks(inside, v, j)
      invariant i <= j <= |v| && forall k | i <= k < j :: !Breaks(inside, v, k)
    {
      j := j + 1;
    }
  }

  /** `node_output_comment` and `node_output_pi_value`: runs are written at once, with a blank where the markup would end. */
  method OutputBody(inside: Inside, v: string) returns (output: string)
    ensures output == Body(inside, v, 0)
  {
    output := [];
    var s := 0;
    assert [] + Body(inside, v, 0) == Body(inside, v, 0);
    while s < |v|
      invariant Guarding(inside, v, s, output)
      decreases |v| - s
    {
      var prev := s;
      s := ScanRun(inside, v, prev);
      GuardRun(inside, v, prev, s, output);
      output := output + v[prev..s];
      if s < |v| {
        GuardBreak(inside, v, s, output);
        output := output + [v[s], ' '];
        s := s + 1;
      }
    }
    assert output + [] == output;
  }

  // -------------------------------------------------------------- they end where they should

  /** The body keeps the first character of the text. */
  lemma BodyBegins(inside: Inside, v: string, i: nat)
    requires i <= |v|
    ensures At(Body(inside, v, i), 0) == At(v, i)
  {
  }

  /** Nowhere in the body is there what ends the markup. */
  predicate Unbroken(inside: Inside, w: string) {
    match inside
    case InComment => forall i | 0 <= i < |w| && w[i] == '-' :: i + 1 < |w| && w[i + 1] != '-'
    case InPi => forall i | 0 <= i < |w| && w[i] == '?' :: At(w, i + 1) != '>'
  }

  lemma UnbrokenOne(inside: Inside, c: char, rest: string)
    requires Unbroken(inside, rest)
    requires if inside == InComment then c == '-' ==> rest != "" && rest[0] != '-' else c == '?' ==> At(rest, 0) != '>'
    ensures Unbroken(inside, [c] + rest)
  {
    var w := [c] + rest;
    assert forall k | 0 <= k < |rest| :: w[k + 1] == rest[k];
    forall k | 0 < k < |w| ensures At(w, k + 1) == At(rest, k) && w[k] == rest[k - 1] {
    }
  }

  lemma UnbrokenBlank(inside: Inside, c: char, rest: string)
    requires Unbroken(inside, rest)
    ensures Unbroken(inside, [c, ' '] + rest)
  {
    UnbrokenOne(inside, ' ', rest);
    UnbrokenOne(inside, c, [' '] + rest);
    assert [c] + ([' '] + rest) == [c, ' '] + rest;
  }

  lemma {:induction false} BodyUnbroken(inside: Inside, v: string, i: nat)
    requires i <= |v|
    ensures Unbroken(inside, Body(inside, v, i))
    decreases |v| - i
  {
    if i < |v| {
      BodyUnbroken(inside, v, i + 1);
      BodyBegins(inside, v, i + 1);
      var rest := Body(inside, v, i + 1);
      if Breaks(inside, v, i) {
        UnbrokenBlank(inside, v[i], rest);
      } else {
        UnbrokenOne(inside, v[i], rest);
      }
    }
  }

  /** Scanning finds the mark where it stands first. */
  lemma {:induction false} FirstMark(mark: Mark, text: string, endch: char, s: nat, e: nat)
    requires s <= e < |text| && MarkAt(mark, text, endch, e) && forall k | s <= k < e :: !MarkAt(mark, text, endch, k)
    ensures ScanFor(mark, text, endch, s) == e
    decreases e - s
  {
    if s < e {
      FirstMark(mark, text, endch, s + 1, e);
    }
  }

  /** The parser skips exactly the comment that was written, with or without its last bracket. */
  lemma CommentSkipped(text: string, endch: char, s: nat, w: string)
    requires Unbroken(InComment, w) && Stands(text, s, w + "--") && EndsWith(text, endch, s + |w| + 2, '>')
    ensures SkipComment(text, endch, s) == Some(if At(text, s + |w| + 2) == '>' then s + |w| + 3 else s + |w| + 2)
  {
    var e := s + |w|;
    StandsSplit(text, s, w, "--");
    assert text[e] == "--"[0] && text[e + 1] == "--"[1];
    forall k | s <= k < e ensures !MarkAt(CommentClose, text, endch, k) {
      assert text[k] == w[k - s];
      assert k + 1 < e ==> text[k + 1] == w[k + 1 - s];
    }
    FirstMark(CommentClose, text, endch, s, e);
  }

  /** The parser skips exactly the processing instruction that was written. */
  lemma PiSkipped(text: string, endch: char, s: nat, w: string)
    requires IsText(text) && Unbroken(InPi, w) && Stands(text, s, w + "?") && EndsWith(text, endch, s + |w| + 1, '>')
    ensures SkipPi(text, endch, s) == Some(if At(text, s + |w| + 1) == '>' then s + |w| + 2 else s + |w| + 1)
  {
    var e := s + |w|;
    StandsSplit(text, s, w, "?");
    assert text[e] == "?"[0];
    forall k | s <= k < e ensures !MarkAt(PiClose, text, endch, k) {
      assert text[k] == w[k - s];
      assert k + 1 < e ==> text[k + 1] == w[k + 1 - s];
    }
    FirstMark(PiClose, text, endch, s, e);
  }

  // --------------------------------------------------------------------- CDATA sections

  predicate ClosesAt(v: string, i: nat) {
    At(v, i) == ']' && At(v, i + 1) == ']' && At(v, i + 2) == '>'
  }

  /** Where the piece of the text that begins at i ends: between the brackets that would close the section, or at the end. */
  function PieceEnd(v: string, i: nat): (e: nat)
    requires i <= |v|
    ensures i <= e <= |v| && (e < |v| ==> i < e)
    decreases |v| - i
  {
    if i == |v| then i else if ClosesAt(v, i) then i + 2 else PieceEnd(v, i + 1)
  }

  /** The texts of the sections that are written for the text from i on. */
  function Pieces(v: string, i: nat): (r: seq<string>)
    requires i <= |v|
    ensures r != []
    decreases |v| - i
  {
    var e := PieceEnd(v, i);
    [v[i..e]] + if e < |v| then Pieces(v, e) else []
  }

  function SectionText(piece: string): string {
    "<![CDATA[" + (piece + "]]>")
  }

  function SectionsText(pieces: seq<string>): string {
    if pieces == [] then "" else SectionText(pieces[0]) + SectionsText(pieces[1..])
  }

  method ScanPiece(v: string, i: nat) returns (e: nat)
    requires i <= |v|
    ensures e == PieceEnd(v, i)
  {
    e := i;
    while e < |v| && !ClosesAt(v, e)
      invariant i <= e <= |v| && PieceEnd(v, e) == PieceEnd(v, i)
    {
      e := e + 1;
    }
    if e < |v| {
      e := e + 2;
    }
  }

  lemma OnePiece(v: string, i: nat, output: string)
    requires i <= |v|
    ensures var e := PieceEnd(v, i);
            output + SectionsText(Pieces(v, i)) ==
            (output + SectionText(v[i..e])) + if e < |v| then SectionsText(Pieces(v, e)) else ""
  {
    var e := PieceEnd(v, i);
    var p := Pieces(v, i);
    assert p[0] == v[i..e] && p[1..] == if e < |v| then Pieces(v, e) else [];
    Regroup(output, SectionText(p[0]), SectionsText(p[1..]));
  }

  /** `text_output_cdata` */
  method OutputSections(v: string) returns (output: string)
    ensures output == SectionsText(Pieces(v, 0))
  {
    output := [];
    var s := 0;
    ghost var all := SectionsText(Pieces(v, 0));
    assert [] + all == all;
    while true
      invariant s <= |v| && output + SectionsText(Pieces(v, s)) == all
      decreases |v| - s
    {
      var e := ScanPiece(v, s);
      OnePiece(v, s, output);
      output := output + SectionText(v[s..e]);
      s := e;
      if s == |v| {
        assert output + "" == output;
        return;
      }
    }
  }

  function Joined(pieces: seq<string>): string {
    if pieces == [] then "" else pieces[0] + Joined(pieces[1..])
  }

  /** No section is closed inside a piece. */
  predicate Closed(piece: string) {
    forall i | 0 <= i < |piece| :: !ClosesAt(piece, i)
  }

  /** Only between the last two brackets of a piece can a section be closed. */
  lemma {:induction false} ClosesLast(v: string, i: nat, k: nat)
    requires i <= |v| && i <= k < PieceEnd(v, i) && ClosesAt(v, k)
    ensures k + 2 == PieceEnd(v, i)
    decreases k - i
  {
    if !ClosesAt(v, i) && k > i {
      ClosesLast(v, i + 1, k);
    }
  }

  lemma PieceClosed(v: string, i: nat)
    requires i <= |v|
    ensures Closed(v[i..PieceEnd(v, i)])
  {
    var e := PieceEnd(v, i);
    var w := v[i..e];
    forall j | 0 <= j < |w| && ClosesAt(w, j) ensures false {
      assert w[j] == v[i + j] && w[j + 1] == v[i + j + 1] && w[j + 2] == v[i + j + 2];
      ClosesLast(v, i, i + j);
    }
  }

  lemma PiecesFrom(v: string, i: nat)
    requires i <= |v|
    ensures var e, p := PieceEnd(v, i), Pieces(v, i);
            p[0] == v[i..e] && p[1..] == (if e < |v| then Pieces(v, e) else []) && v[i..] == v[i..e] + v[e..]
  {
  }

  /** The pieces together are the text. */
  lemma {:induction false} PiecesJoined(v: string, i: nat)
    requires i <= |v|
    ensures Joined(Pieces(v, i)) == v[i..]
    decreases |v| - i
  {
    PiecesFrom(v, i);
    if PieceEnd(v, i) < |v| {
      PiecesJoined(v, PieceEnd(v, i));
    }
  }

  predicate AllClosed(pieces: seq<string>) {
    forall k | 0 <= k < |pieces| :: Closed(pieces[k])
  }

  /** None of the pieces closes its section too early. */
  lemma {:induction false} PiecesClosed(v: string, i: nat)
    requires i <= |v|
    ensures AllClosed(Pieces(v, i))
    decreases |v| - i
  {
    PieceClosed(v, i);
    PiecesFrom(v, i);
    var e, p := PieceEnd(v, i), Pieces(v, i);
    if e < |v| {
      PiecesClosed(v, e);
    }
    forall k | 0 <= k < |p| ensures Closed(p[k]) {
      assert k > 0 ==> p[k] == p[1..][k - 1];
    }
  }

  /** A text that closes no section is one piece. */
  lemma {:induction false} OneEnd(v: string, i: nat)
    requires Closed(v) && i <= |v|
    ensures PieceEnd(v, i) == |v|
    decreases |v| - i
  {
    if i < |v| {
      OneEnd(v, i + 1);
    }
  }

  /** Normalized pieces: none has a carriage return if the text has none. */
  lemma {:induction false} PiecesNoReturn(v: string, i: nat)
    requires i <= |v| && NoReturn(v, 0)
    ensures forall k | 0 <= k < |Pieces(v, i)| :: NoReturn(Pieces(v, i)[k], 0)
    decreases |v| - i
  {
    PiecesFrom(v, i);
    var e, p := PieceEnd(v, i), Pieces(v, i);
    if e < |v| {
      PiecesNoReturn(v, e);
    }
    forall k | 0 <= k < |p| ensures NoReturn(p[k], 0) {
      assert k > 0 ==> p[k] == p[1..][k - 1];
    }
  }

  /** A section stands at p, with or without its last bracket. */
  predicate SectionStands(text: string, endch: char, p: nat, piece: string) {
    Stands(text, p, piece + "]]") && EndsWith(text, endch, p + |piece| + 2, '>')
  }

  /** The text of a section that was written is read back. */
  lemma {:induction false} PieceBack(endch: char, text: string, p: nat, piece: string, i: nat)
    requires IsText(text) && SectionStands(text, endch, p, piece) && Closed(piece) && NoReturn(piece, 0) && i <= |piece|
    ensures p + i <= |text|
    ensures DecodeFrom(Rules(ToLineFeed, false, AtCData(endch)), text, p + i) == Ended(piece[i..], p + |piece| + 1)
    decreases |piece| - i
  {
    StandsSplit(text, p, piece, "]]");
    var e := p + |piece|;
    assert text[e] == "]]"[0] && text[e + 1] == "]]"[1];
    if i < |piece| {
      PieceStep(endch, text, p, piece, i);
      PieceBack(endch, text, p, piece, i + 1);
      assert piece[i..] == [piece[i]] + piece[i + 1..];
    }
  }

  lemma PieceStep(endch: char, text: string, p: nat, piece: string, i: nat)
    requires IsText(text) && Stands(text, p, piece) && p + |piece| + 2 <= |text| && i < |piece|
    requires text[p + |piece|] == ']' && text[p + |piece| + 1] == ']'
    requires Closed(piece) && NoReturn(piece, 0)
    ensures StepAt(Rules(ToLineFeed, false, AtCData(endch)), text, p + i) == More([piece[i]], p + i + 1)
  {
    assert text[p + i] == piece[i] && !ClosesAt(piece, i);
    assert i + 1 < |piece| ==> text[p + i + 1] == piece[i + 1];
    assert i + 2 < |piece| ==> text[p + i + 2] == piece[i + 2];
  }
}
