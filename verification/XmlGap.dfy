/** `gap`: text is shortened in place while it is read, moving what is kept to the front as late as possible. */
module XmlGap {
  import opened Wrappers
  import opened XmlChars

  /** The collapsed text ends at end - size; between there and end lies what has been dropped. */
  datatype Hole = Hole(end: Option<nat>, size: nat)

  ghost predicate HoleFits(h: Hole, begin: nat, s: nat) {
    if h.end.None? then h.size == 0 && begin <= s else begin + h.size <= h.end.value <= s
  }

  /** What is kept of cur[begin..s]. */
  ghost function Kept(h: Hole, cur: string, begin: nat, s: nat): (r: string)
    requires HoleFits(h, begin, s) && s <= |cur|
    ensures |r| == s - begin - h.size
    ensures forall k | 0 <= k < |r| :: r[k] == cur[Source(h, begin + k)]
  {
    seq(s - begin - h.size, k requires 0 <= k < s - begin - h.size => cur[Source(h, begin + k)])
  }

  /** Where the character stands that belongs at x once the gap is closed. */
  function Source(h: Hole, x: nat): nat {
    if h.end.Some? && x + h.size >= h.end.value then x + h.size else x
  }

  /** now is cur with n characters from src copied to dst. */
  ghost predicate Moved(cur: string, now: string, dst: nat, src: nat, n: nat)
    requires dst <= src && src + n <= |cur|
  {
    |now| == |cur| && forall x | 0 <= x < |cur| :: now[x] == cur[if dst <= x < dst + n then x - dst + src else x]
  }

  /** `memmove` to a lower address. */
  method MoveDown(buf: array<char>, dst: nat, src: nat, n: nat)
    requires dst <= src && src + n <= buf.Length
    modifies buf
    ensures Moved(old(buf[..]), buf[..], dst, src, n)
  {
    ghost var cur := buf[..];
    var i := 0;
    while i < n
      invariant i <= n && Moved(cur, buf[..], dst, src, i)
    {
      assert buf[..][src + i] == cur[src + i];
      buf[dst + i] := buf[src + i];
      i := i + 1;
    }
  }

  /** now is cur with the gap before s closed: what is kept since begin comes first, the rest is as it was. */
  ghost predicate Closed(h: Hole, cur: string, now: string, begin: nat, s: nat) {
    && HoleFits(h, begin, s) && s <= |cur| == |now|
    && (forall x | 0 <= x < begin :: now[x] == cur[x]) && (forall x | s <= x < |cur| :: now[x] == cur[x])
    && forall x | begin <= x < s - h.size :: now[x] == cur[Source(h, x)]
  }

  lemma ClosedText(h: Hole, cur: string, now: string, begin: nat, s: nat)
    requires Closed(h, cur, now, begin, s)
    ensures now[begin..s - h.size] == Kept(h, cur, begin, s)
  {
  }

  class Gap {
    var hole: Hole

    constructor ()
      ensures hole == Hole(None, 0)
    {
      hole := Hole(None, 0);
    }

    /** Closes the gap before s by moving the text between them down. */
    method Collapse(buf: array<char>, s: nat, ghost begin: nat)
      requires HoleFits(hole, begin, s) && s <= buf.Length
      modifies buf
      ensures Closed(hole, old(buf[..]), buf[..], begin, s)
    {
      if hole.end.Some? {
        MoveDown(buf, hole.end.value - hole.size, hole.end.value, s - hole.end.value);
      }
    }

    /** `push`: drops count characters at s; the gap before is collapsed. */
    method Push(buf: array<char>, s: nat, count: nat, ghost begin: nat) returns (next: nat)
      requires HoleFits(hole, begin, s) && s + count <= buf.Length
      modifies this, buf
      ensures next == s + count && Closed(old(hole), old(buf[..]), buf[..], begin, s)
      ensures hole == Hole(Some(next), old(hole.size) + count)
    {
      Collapse(buf, s, begin);
      next := s + count;
      hole := Hole(Some(next), hole.size + count);
    }

    /** `flush`: collapses the gap and returns the end of the text that is kept. */
    method Flush(buf: array<char>, s: nat, ghost begin: nat) returns (end: nat)
      requires HoleFits(hole, begin, s) && s <= buf.Length
      modifies buf
      ensures end == s - hole.size && Closed(hole, old(buf[..]), buf[..], begin, s)
    {
      Collapse(buf, s, begin);
      end := s - hole.size;
    }
  }

  // ------------------------------------------------------------------ a conversion

  /** A text with its terminator inside a buffer. */
  datatype Spot = Spot(whole: string, begin: nat, text: string)

  ghost predicate IsSpot(at: Spot) {
    && at.begin + |at.text| < |at.whole| && IsText(at.text)
    && forall k: nat | k <= |at.text| :: at.whole[at.begin + k] == At(at.text, k)
  }

  /** The buffer is as it was, but for the part of the text that is read already. */
  ghost predicate InPlace(cur: string, at: Spot, pos: nat) {
    && IsSpot(at) && |cur| == |at.whole| && pos <= |at.text|
    && (forall x | 0 <= x < at.begin :: cur[x] == at.whole[x])
    && (forall x | at.begin + pos <= x < |cur| :: cur[x] == at.whole[x])
  }

  /** The first pos characters of the text are read and have become output. */
  ghost predicate Converting(cur: string, at: Spot, h: Hole, pos: nat, output: string) {
    InPlace(cur, at, pos) && HoleFits(h, at.begin, at.begin + pos) && Kept(h, cur, at.begin, at.begin + pos) == output
  }

  /** Reading ahead sees the text. */
  lemma Ahead(cur: string, at: Spot, pos: nat, k: nat)
    requires InPlace(cur, at, pos) && pos <= k <= |at.text|
    ensures cur[at.begin + k] == At(at.text, k)
  {
  }

  lemma KeptMore(h: Hole, cur: string, begin: nat, s: nat, t: nat)
    requires HoleFits(h, begin, s) && s <= t <= |cur|
    ensures Kept(h, cur, begin, t) == Kept(h, cur, begin, s) + cur[s..t]
  {
  }

  /** Characters that stay as they are. */
  lemma Advance(cur: string, at: Spot, h: Hole, pos: nat, output: string, next: nat)
    requires Converting(cur, at, h, pos, output) && pos <= next <= |at.text|
    ensures Converting(cur, at, h, next, output + at.text[pos..next])
  {
    forall k | pos <= k < next ensures cur[at.begin + k] == at.text[k] {
      Ahead(cur, at, pos, k);
    }
    assert cur[at.begin + pos..at.begin + next] == at.text[pos..next];
    KeptMore(h, cur, at.begin, at.begin + pos, at.begin + next);
  }

  /** over is cur with w written at position s. */
  ghost predicate WrittenAt(cur: string, over: string, s: nat, w: string) {
    && s + |w| <= |cur| == |over|
    && forall x | 0 <= x < |cur| :: over[x] == if s <= x < s + |w| then w[x - s] else cur[x]
  }

  lemma WrittenKept(h: Hole, cur: string, over: string, begin: nat, s: nat, w: string)
    requires HoleFits(h, begin, s) && WrittenAt(cur, over, s, w)
    ensures HoleFits(h, begin, s + |w|) && Kept(h, over, begin, s + |w|) == Kept(h, cur, begin, s) + w
  {
    KeptMore(h, over, begin, s, s + |w|);
    assert over[s..s + |w|] == w;
    assert Kept(h, over, begin, s) == Kept(h, cur, begin, s);
  }

  lemma StillInPlace(cur: string, done: string, at: Spot, pos: nat, next: nat)
    requires InPlace(cur, at, pos) && pos <= next <= |at.text| && |done| == |cur|
    requires forall x | 0 <= x < at.begin :: done[x] == cur[x]
    requires forall x | at.begin + next <= x < |cur| :: done[x] == cur[x]
    ensures InPlace(done, at, next)
  {
  }

  /** Replacing the text from pos to next by a text w that is no longer. */
  lemma Replace(cur: string, over: string, done: string, at: Spot, h: Hole, pos: nat, output: string, w: string, next: nat)
    requires Converting(cur, at, h, pos, output) && pos + |w| <= next <= |at.text|
    requires WrittenAt(cur, over, at.begin + pos, w) && Closed(h, over, done, at.begin, at.begin + pos + |w|)
    ensures Converting(done, at, Hole(Some(at.begin + next), h.size + (next - pos - |w|)), next, output + w)
  {
    StillInPlace(cur, done, at, pos, next);
    KeptReplaced(cur, over, done, at.begin, h, at.begin + pos, output, w, at.begin + next);
  }

  /** What is kept once w has been written at s and the gap before it is closed. */
  lemma KeptReplaced(cur: string, over: string, done: string, begin: nat, h: Hole, s: nat, output: string, w: string, next: nat)
    requires HoleFits(h, begin, s) && WrittenAt(cur, over, s, w) && Kept(h, cur, begin, s) == output
    requires Closed(h, over, done, begin, s + |w|) && s + |w| <= next <= |done|
    ensures var hole := Hole(Some(next), h.size + (next - s - |w|));
            HoleFits(hole, begin, next) && Kept(hole, done, begin, next) == output + w
  {
    WrittenKept(h, cur, over, begin, s, w);
    ClosedText(h, over, done, begin, s + |w|);
    ReplacedKept(done, begin, next, h.size, s + |w|, output + w);
  }

  lemma ReplacedKept(done: string, begin: nat, next: nat, size: nat, s: nat, output: string)
    requires begin + size <= s <= next <= |done| && done[begin..s - size] == output
    ensures HoleFits(Hole(Some(next), size + (next - s)), begin, next)
    ensures Kept(Hole(Some(next), size + (next - s)), done, begin, next) == output
  {
  }
}
