/** `translate()` and its lookup table for constant arguments. */
module XPathTranslate {
  import opened Wrappers

  /** A C string: no character is the terminator. */
  predicate NulFree(s: string) {
    forall i | 0 <= i < |s| :: s[i] != '\0'
  }

  /** Where ch first occurs among the first n characters. */
  function FindTo(s: string, n: nat, ch: char): (r: Option<nat>)
    requires n <= |s|
    ensures r.Some? ==> r.value < n && s[r.value] == ch && forall j | 0 <= j < r.value :: s[j] != ch
    ensures r.None? ==> forall j | 0 <= j < n :: s[j] != ch
  {
    if n == 0 then None
    else
      var before := FindTo(s, n - 1, ch);
      if before.Some? then before else if s[n - 1] == ch then Some(n - 1) else None
  }

  // ------------------------------------------------------------------ translate

  /** What one character becomes: itself, the character at the same place of `to`, or nothing. */
  function Replaced(ch: char, from: string, to: string): string {
    var pos := FindTo(from, |from|, ch);
    if pos.None? then [ch] else if pos.value < |to| then [to[pos.value]] else []
  }

  function TranslateTo(s: string, n: nat, from: string, to: string): (r: string)
    requires n <= |s|
    ensures |r| <= n
  {
    if n == 0 then [] else TranslateTo(s, n - 1, from, to) + Replaced(s[n - 1], from, to)
  }

  function TranslateText(s: string, from: string, to: string): string {
    TranslateTo(s, |s|, from, to)
  }

  lemma {:induction false} TranslateOfPrefix(s: string, t: string, n: nat, from: string, to: string)
    requires n <= |s| && n <= |t| && s[..n] == t[..n]
    ensures TranslateTo(s, n, from, to) == TranslateTo(t, n, from, to)
  {
    if n > 0 {
      assert s[..n][..n - 1] == s[..n - 1] && t[..n][..n - 1] == t[..n - 1];
      assert s[..n][n - 1] == s[n - 1] && t[..n][n - 1] == t[n - 1];
      TranslateOfPrefix(s, t, n - 1, from, to);
    }
  }

  /** Characters are translated one by one. */
  lemma {:induction false} TranslateConcat(s: string, t: string, from: string, to: string)
    ensures TranslateText(s + t, from, to) == TranslateText(s, from, to) + TranslateText(t, from, to)
    decreases |t|
  {
    var n := |t|;
    if n == 0 {
      assert s + t == s;
    } else {
      var init, last := t[..n - 1], t[n - 1];
      TranslateConcat(s, init, from, to);
      assert t == init + [last] && s + t == (s + init) + [last];
      TranslateAppended(s + init, last, from, to);
      TranslateAppended(init, last, from, to);
      Regroup(TranslateText(s, from, to), TranslateText(init, from, to), Replaced(last, from, to));
    }
  }

  lemma TranslateAppended(s: string, ch: char, from: string, to: string)
    ensures TranslateText(s + [ch], from, to) == TranslateText(s, from, to) + Replaced(ch, from, to)
  {
    assert (s + [ch])[..|s|] == s[..|s|];
    TranslateOfPrefix(s + [ch], s, |s|, from, to);
  }

  /** One character: kept if `from` does not have it, else replaced by its counterpart, or dropped without one. */
  lemma TranslateOne(ch: char, from: string, to: string)
    ensures ch !in from ==> TranslateText([ch], from, to) == [ch]
    ensures forall k | 0 <= k < |from| && from[k] == ch && ch !in from[..k] ::
              TranslateText([ch], from, to) == if k < |to| then [to[k]] else []
  {
    assert TranslateTo([ch], 0, from, to) == [];
    assert TranslateText([ch], from, to) == Replaced(ch, from, to);
  }

  /** A text s rewritten in place: the output so far is in front, what is not read yet is untouched. */
  ghost predicate Rewriting(cur: string, s: string, output: string, write: nat, read: nat) {
    && write <= read <= |s| <= |cur| && cur[..write] == output
    && forall k | read <= k < |s| :: cur[k] == s[k]
  }

  lemma RewriteStep(cur: string, s: string, output: string, write: nat, read: nat, x: char)
    requires Rewriting(cur, s, output, write, read) && read < |s|
    ensures cur[read] == s[read]
    ensures Rewriting(cur, s, output, write, read + 1) && output + [] == output
    ensures Rewriting(cur[write := x], s, output, write, read + 1)
    ensures Rewriting(cur[write := x], s, output + [x], write + 1, read + 1)
  {
    assert cur[write := x][..write] == cur[..write];
    assert cur[write := x][..write + 1] == cur[..write] + [x];
  }

  /** `translate`: rewrites the text in place; the write position never passes the read position. */
  method Translate(buffer: array<char>, length: nat, from: string, to: string) returns (end: nat)
    requires length <= buffer.Length
    modifies buffer
    ensures end <= length && buffer[..end] == TranslateText(old(buffer[..length]), from, to)
  {
    ghost var s, cur := buffer[..length], buffer[..];
    var write, read := 0, 0;
    while read < length
      invariant 0 <= write <= read <= length
      invariant buffer[..] == cur && Rewriting(cur, s, TranslateTo(s, read, from, to), write, read)
    {
      var ch := buffer[read];
      var pos := FindTo(from, |from|, ch);
      ghost var x := if pos.Some? && pos.value < |to| then to[pos.value] else ch;
      RewriteStep(cur, s, TranslateTo(s, read, from, to), write, read, x);
      read := read + 1;
      if pos.None? {
        buffer[write] := ch; // not in the first string: kept
        cur := cur[write := x];
        write := write + 1;
      } else if pos.value < |to| {
        buffer[write] := to[pos.value]; // its counterpart in the second string
        cur := cur[write := x];
        write := write + 1;
      }
    }
    end := write;
  }

  // ------------------------------------------------------------------- the table

  const SKIP: nat := 128

  /** What the table says about a character code: its replacement, or SKIP. */
  function Entry(from: string, to: string, n: nat, code: nat): nat
    requires n <= |from| && code < 128
  {
    var pos := FindTo(from, n, code as char);
    if pos.None? then code else if pos.value < |to| then to[pos.value] as nat else SKIP
  }

  function TableFor(from: string, to: string): (r: seq<nat>)
    ensures |r| == 128
  {
    seq(128, i requires 0 <= i < 128 => Entry(from, to, |from|, i))
  }

  /** All characters that get an entry, and all replacements in use, are ASCII. */
  predicate AsciiPair(from: string, to: string, n: nat)
    requires n <= |from|
  {
    forall i | 0 <= i < n :: from[i] as nat < 128 && (i < |to| ==> to[i] as nat < 128)
  }

  /** The table while it is filled: 0 marks a code without an entry. */
  ghost predicate Filled(table: seq<nat>, from: string, to: string, n: nat) {
    && n <= |from| && |table| == 128
    && forall c: nat | c < 128 :: table[c] == if FindTo(from, n, c as char).None? then 0 else Entry(from, to, n, c)
  }

  /** The table after one more character of `from`: only its first occurrence counts. */
  function FillOne(table: seq<nat>, from: string, to: string, n: nat): seq<nat>
    requires |table| == 128 && n < |from| && from[n] as nat < 128
  {
    var fc, tc := from[n] as nat, if n < |to| then to[n] as nat else 0;
    if table[fc] == 0 then table[fc := if tc != 0 then tc else SKIP] else table
  }

  lemma FillStep(table: seq<nat>, from: string, to: string, n: nat)
    requires Filled(table, from, to, n) && n < |from| && AsciiPair(from, to, n + 1) && NulFree(from) && NulFree(to)
    ensures Filled(FillOne(table, from, to, n), from, to, n + 1)
  {
    var fc := from[n] as nat;
    assert from[n] == fc as char;
    var pos := FindTo(from, n, fc as char);
    assert pos.Some? ==> table[fc] != 0 by {
      assert pos.Some? && pos.value < |to| ==> to[pos.value] != '\0';
    }
    assert n < |to| ==> to[n] != '\0';
  }

  function Completed(table: seq<nat>): (r: seq<nat>)
    ensures |r| == |table|
  {
    seq(|table|, c requires 0 <= c < |table| => if table[c] == 0 then c else table[c])
  }

  /** The last loop of `translate_table_generate`: codes without an entry stand for themselves. */
  method CompleteTable(table: array<nat>)
    modifies table
    ensures table[..] == Completed(old(table[..]))
  {
    ghost var was := table[..];
    var i := 0;
    while i < table.Length
      invariant i <= table.Length && forall c | 0 <= c < table.Length :: table[c] == if c < i then Completed(was)[c] else was[c]
    {
      if table[i] == 0 {
        table[i] := i;
      }
      i := i + 1;
    }
  }

  lemma FilledCompletely(table: seq<nat>, from: string, to: string)
    requires Filled(table, from, to, |from|) && NulFree(to)
    ensures Completed(table) == TableFor(from, to)
  {
  }

  /** `translate_table_generate`: no table when a character beyond ASCII is involved. */
  method TranslateTableGenerate(from: string, to: string) returns (r: Option<seq<nat>>)
    requires NulFree(from) && NulFree(to)
    ensures r == if AsciiPair(from, to, |from|) then Some(TableFor(from, to)) else None
  {
    var table := new nat[128](_ => 0);
    var f, t := 0, 0;
    ghost var cur := table[..];
    while f < |from|
      invariant f <= |from| && t == if f < |to| then f else |to|
      invariant table[..] == cur && Filled(cur, from, to, f) && AsciiPair(from, to, f)
    {
      assert t < |to| ==> to[t] != '\0';
      var fc := from[f] as nat;
      var tc := if t < |to| then to[t] as nat else 0;
      if fc >= 128 || tc >= 128 {
        return None;
      }
      FillStep(cur, from, to, f);
      // code 128 drops the character
      if table[fc] == 0 {
        table[fc] := if tc != 0 then tc else SKIP;
      }
      cur := FillOne(cur, from, to, f);
      f := f + 1;
      if tc != 0 {
        t := t + 1;
      }
    }
    FilledCompletely(cur, from, to);
    CompleteTable(table);
    r := Some(table[..]);
  }

  /** What the table makes of one character. */
  function Looked(ch: char, table: seq<nat>): string
    requires |table| == 128
  {
    if ch as nat >= 128 then [ch]
    else if table[ch as nat] < 128 then [table[ch as nat] as char]
    else []
  }

  function TableTo(s: string, n: nat, table: seq<nat>): (r: string)
    requires n <= |s| && |table| == 128
    ensures |r| <= n
  {
    if n == 0 then [] else TableTo(s, n - 1, table) + Looked(s[n - 1], table)
  }

  function TableText(s: string, table: seq<nat>): string
    requires |table| == 128
  {
    TableTo(s, |s|, table)
  }

  /** `translate_table`: a skipped character is written but not stepped over. */
  method TranslateTable(buffer: array<char>, length: nat, table: seq<nat>) returns (end: nat)
    requires length <= buffer.Length && |table| == 128 && forall i | 0 <= i < 128 :: table[i] <= SKIP
    modifies buffer
    ensures end <= length && buffer[..end] == TableText(old(buffer[..length]), table)
  {
    ghost var s, cur := buffer[..length], buffer[..];
    var write, read := 0, 0;
    while read < length
      invariant 0 <= write <= read <= length
      invariant buffer[..] == cur && Rewriting(cur, s, TableTo(s, read, table), write, read)
    {
      var ch := buffer[read];
      ghost var x := if ch as nat < 128 then table[ch as nat] as char else ch;
      RewriteStep(cur, s, TableTo(s, read, table), write, read, x);
      read := read + 1;
      if ch as nat < 128 {
        var code := table[ch as nat];
        buffer[write] := code as char;
        write := write + 1 - code / 128;
        assert code < 128 || code == 128;
      } else {
        buffer[write] := ch;
        write := write + 1;
      }
      cur := buffer[..];
    }
    end := write;
  }

  lemma LookedIsReplaced(ch: char, from: string, to: string)
    requires AsciiPair(from, to, |from|)
    ensures Looked(ch, TableFor(from, to)) == Replaced(ch, from, to)
  {
    if ch as nat < 128 {
      assert ch as nat as char == ch;
      assert TableFor(from, to)[ch as nat] == Entry(from, to, |from|, ch as nat);
    } else {
      assert forall i | 0 <= i < |from| :: from[i] != ch;
    }
  }

  /** For every text the table does what plain `translate` does. */
  lemma {:induction false} TableMeaning(s: string, n: nat, from: string, to: string)
    requires n <= |s| && AsciiPair(from, to, |from|)
    ensures TableTo(s, n, TableFor(from, to)) == TranslateTo(s, n, from, to)
  {
    if n > 0 {
      TableMeaning(s, n - 1, from, to);
      LookedIsReplaced(s[n - 1], from, to);
    }
  }
}
