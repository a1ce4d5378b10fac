/** `xml_buffered_writer`: output collected in a fixed buffer and handed on in converted chunks. */
module XmlWriter {
  import opened XmlChars
  import opened XmlUtf8

  /** `bufcapacity`: 10240 bytes, shared by the buffer and four bytes of scratch space for each of its characters. */
  const CAPACITY: nat := 2048

  /** `get_valid_length`: where a chunk may end without splitting a sequence. */
  method GetValidLength(data: string) returns (n: nat)
    ensures n <= |data| && (n == 0 <==> |data| < 5)
    ensures 0 < n < |data| ==> !Continues(data[n])
    ensures 0 < n == |data| ==> EndsContinuing(data, 4)
  {
    if |data| < 5 {
      return 0;
    }
    var i := 1;
    while i <= 4
      invariant 1 <= i <= 5 && EndsContinuing(data, i - 1)
    {
      if !Continues(data[|data| - i]) {
        return |data| - i;
      }
      i := i + 1;
    }
    return |data|;
  }

  /** `convert_buffer_output`, or nothing to do in the native encoding. */
  method Convert(encoding: Encoding, data: string) returns (units: seq<nat>)
    ensures units == Encoded(encoding, data) && |units| * UnitSize(encoding) <= 4 * |data|
  {
    EncodedFits(encoding, data);
    if encoding.Native? {
      units := AsBytes(data);
    } else {
      units := Process(encoding, data, 0);
    }
  }

  // --------------------------------------------------------------- what is owed to the sink

  /** The sink has the encoding of everything but the text that is pending, and may be given the rest separately. */
  ghost predicate Owes(encoding: Encoding, sink: seq<nat>, flushed: string, pending: string) {
    sink == Encoded(encoding, flushed) && Cut(encoding, flushed, pending)
  }

  lemma OwesMore(encoding: Encoding, sink: seq<nat>, flushed: string, pending: string, data: string)
    requires Owes(encoding, sink, flushed, pending) && (pending == "" ==> Cut(encoding, flushed, data))
    ensures Owes(encoding, sink, flushed, pending + data)
  {
  }

  /** The pending text is converted on its own. */
  lemma Paid(encoding: Encoding, sink: seq<nat>, flushed: string, pending: string)
    requires Owes(encoding, sink, flushed, pending)
    ensures sink + Encoded(encoding, pending) == Encoded(encoding, flushed + pending)
  {
    EncodedSplit(encoding, flushed, pending);
  }

  /** Data that does not begin inside a sequence may follow anything. */
  predicate Begins(encoding: Encoding, data: string) {
    encoding.Native? || data == "" || !Continues(data[0])
  }

  /** `memcpy` of the first n characters of data. */
  method CopyTo(a: array<char>, at: nat, data: string, n: nat)
    requires n <= |data| && at + n <= a.Length
    modifies a
    ensures a[..at] == old(a[..at]) && a[at..at + n] == data[..n]
  {
    var k := 0;
    while k < n
      invariant k <= n
      invariant forall j | 0 <= j < at :: a[j] == old(a[j])
      invariant forall j | 0 <= j < k :: a[at + j] == data[j]
    {
      a[at + k] := data[k];
      k := k + 1;
    }
  }

  class BufferedWriter {
    const encoding: Encoding
    const buffer: array<char>
    var bufsize: nat
    /** What the sink has received. */
    var sink: seq<nat>
    /** What has been written so far, and whether every piece of it began where a sequence begins. */
    ghost var written: string
    ghost var clean: bool

    ghost predicate Valid()
      reads this, buffer
    {
      && buffer.Length == CAPACITY && bufsize <= CAPACITY && bufsize <= |written|
      && buffer[..bufsize] == written[|written| - bufsize..]
      && (clean ==> Owes(encoding, sink, written[..|written| - bufsize], buffer[..bufsize]))
    }

    constructor (encoding: Encoding)
      ensures Valid() && fresh(buffer) && this.encoding == encoding && written == "" && clean && sink == []
    {
      this.encoding := encoding;
      buffer := new char[CAPACITY];
      bufsize, sink, written, clean := 0, [], "", true;
    }

    /** `flush(data, size)`: converts a chunk and hands it to the sink; what is converted fits the scratch space. */
    method Send(data: string)
      requires encoding.Native? || |data| <= CAPACITY
      modifies this`sink
      ensures sink == old(sink) + Encoded(encoding, data)
    {
      if data == "" {
        NothingEncoded(encoding);
        return;
      }
      var units := Convert(encoding, data);
      assert !encoding.Native? ==> |units| * UnitSize(encoding) <= 4 * CAPACITY;
      sink := sink + units;
    }

    /** `flush()` */
    method Flush()
      requires Valid()
      modifies this`sink, this`bufsize
      ensures Valid() && bufsize == 0 && (clean ==> sink == Encoded(encoding, written))
    {
      ghost var flushed, pending := written[..|written| - bufsize], buffer[..bufsize];
      assert flushed + pending == written;
      if clean {
        Paid(encoding, sink, flushed, pending);
      }
      Send(buffer[..bufsize]);
      bufsize := 0;
      assert written[..|written|] == written;
    }

    /** Counts the characters behind bufsize as pending. */
    method Keep(n: nat, ghost data: string)
      requires Valid() && n == |data| && bufsize + n <= CAPACITY && buffer[bufsize..bufsize + n] == data
      requires clean && bufsize == 0 ==> Cut(encoding, written, data)
      modifies this`bufsize, this`written
      ensures Valid() && bufsize == old(bufsize) + n && written == old(written) + data
    {
      ghost var flushed, pending := written[..|written| - bufsize], buffer[..bufsize];
      assert flushed + pending == written;
      if clean {
        assert bufsize == 0 ==> flushed == written;
        OwesMore(encoding, sink, flushed, pending, data);
      }
      written := written + data;
      bufsize := bufsize + n;
      assert buffer[..bufsize] == pending + data;
      assert written[..|written| - bufsize] == flushed && written[|written| - bufsize..] == pending + data;
    }

    /** Copies data behind the pending text. */
    method Append(data: string)
      requires Valid() && bufsize + |data| <= CAPACITY
      requires clean && bufsize == 0 ==> Cut(encoding, written, data)
      modifies this`bufsize, this`written, buffer
      ensures Valid() && bufsize == old(bufsize) + |data| && written == old(written) + data
    {
      CopyBehind(data, |data|);
      Keep(|data|, data);
    }

    /** Copies the first n characters of data behind the pending text. */
    method CopyBehind(data: string, n: nat)
      requires Valid() && n <= |data| && bufsize + n <= CAPACITY
      modifies buffer
      ensures Valid() && buffer[bufsize..bufsize + n] == data[..n]
    {
      CopyTo(buffer, bufsize, data, n);
    }

    /** Sends data past the empty buffer. */
    method SendNow(data: string)
      requires Valid() && bufsize == 0 && (encoding.Native? || |data| <= CAPACITY)
      requires clean ==> Cut(encoding, written, data)
      modifies this`sink, this`written
      ensures Valid() && written == old(written) + data
    {
      ghost var was := written;
      assert written[..|written|] == written;
      if clean {
        Paid(encoding, sink, was, data);
      }
      Send(data);
      written := was + data;
      assert written[..|written|] == written;
    }

    /** One chunk of a long text that has to be converted. */
    method SendChunk(data: string) returns (n: nat)
      requires Valid() && bufsize == 0 && |data| > CAPACITY
      requires clean ==> Cut(encoding, written, data)
      modifies this`sink, this`written
      ensures Valid() && 0 < n <= CAPACITY && written == old(written) + data[..n]
      ensures clean ==> Cut(encoding, written, data[n..])
    {
      n := GetValidLength(data[..CAPACITY]);
      Shorter(data, CAPACITY, n);
      if clean {
        CutBehind(encoding, written, data, n);
        CutPart(encoding, written, data, n);
      }
      SendNow(data[..n]);
    }

    /** All of a long text but its last chunk. */
    method SendChunks(data: string) returns (rest: string)
      requires Valid() && bufsize == 0 && (clean ==> Cut(encoding, written, data))
      modifies this`sink, this`written
      ensures Valid() && |rest| <= CAPACITY && written + rest == old(written) + data
      ensures clean ==> Cut(encoding, written, rest)
    {
      rest := data;
      while |rest| > CAPACITY
        invariant Valid() && written + rest == old(written) + data && (clean ==> Cut(encoding, written, rest))
        decreases |rest|
      {
        ghost var was := written;
        var n := SendChunk(rest);
        Regrouped(was, rest, n);
        rest := rest[n..];
      }
    }

    /** `write_direct` */
    method WriteDirect(data: string)
      requires Valid() && (clean ==> Cut(encoding, written, data))
      modifies this`sink, this`bufsize, this`written, buffer
      ensures Valid() && written == old(written) + data
    {
      Flush();
      if |data| > CAPACITY && encoding.Native? {
        // nothing to convert: no chunks
        SendNow(data);
      } else {
        var rest := SendChunks(data);
        // small tail is copied
        Append(rest);
      }
    }

    /** `write_buffer` */
    method WriteBuffer(data: string)
      requires Valid()
      modifies this`sink, this`bufsize, this`written, this`clean, buffer
      ensures Valid() && written == old(written) + data && clean == (old(clean) && Begins(encoding, data))
    {
      clean := clean && Begins(encoding, data);
      if bufsize + |data| <= CAPACITY {
        Append(data);
      } else {
        WriteDirect(data);
      }
    }

    /** `write`, for one to six characters. */
    method Write(data: string)
      requires Valid() && 1 <= |data| <= 6
      modifies this`sink, this`bufsize, this`written, this`clean, buffer
      ensures Valid() && written == old(written) + data && clean == (old(clean) && Begins(encoding, data))
    {
      clean := clean && Begins(encoding, data);
      if bufsize > CAPACITY - |data| {
        Flush();
      }
      Append(data);
    }

    /** Takes over the first n of the characters that are copied behind the pending text already. */
    method KeepPart(data: string, length: nat, n: nat)
      requires Valid() && n <= length <= |data| && bufsize + length <= CAPACITY && buffer[bufsize..bufsize + length] == data[..length]
      requires clean ==> Cut(encoding, written, data)
      modifies this`bufsize, this`written
      ensures Valid() && written == old(written) + data[..n]
    {
      Prefixes(buffer[..], bufsize, data, length, n);
      if clean {
        CutPart(encoding, written, data, n);
      }
      Keep(n, data[..n]);
    }

    /** The buffer is full after the first `length` characters: takes back the part of a sequence that was split. */
    method Backtrack(data: string, length: nat)
      requires Valid() && length <= |data| && bufsize + length == CAPACITY && buffer[bufsize..bufsize + length] == data[..length]
      requires clean ==> Cut(encoding, written, data)
      modifies this`sink, this`bufsize, this`written, buffer
      ensures Valid() && written == old(written) + data
    {
      var n := GetValidLength(data[..length]);
      Shorter(data, length, n);
      if clean {
        CutBehind(encoding, written, data, n);
      }
      ghost var was := written;
      KeepPart(data, length, n);
      WriteDirect(data[n..]);
      Regrouped(was, data, n);
    }

    /** `write_string`: writes the part of the string that fits in the buffer first. */
    method WriteString(data: string)
      requires Valid()
      modifies this`sink, this`bufsize, this`written, this`clean, buffer
      ensures Valid() && written == old(written) + data && clean == (old(clean) && Begins(encoding, data))
    {
      clean := clean && Begins(encoding, data);
      var length := if bufsize + |data| < CAPACITY then |data| else CAPACITY - bufsize;
      CopyBehind(data, length);
      if bufsize + length < CAPACITY {
        assert data[..length] == data;
        Keep(length, data);
      } else {
        Backtrack(data, length);
      }
    }
  }

  lemma Prefixes(buffer: string, at: nat, data: string, length: nat, n: nat)
    requires n <= length <= |data| && at + length <= |buffer| && buffer[at..at + length] == data[..length]
    ensures buffer[at..at + n] == data[..n]
  {
    assert buffer[at..at + length][..n] == buffer[at..at + n];
    assert data[..length][..n] == data[..n];
  }

  lemma Shorter(data: string, length: nat, n: nat)
    requires n <= length <= |data|
    ensures data[..length][..n] == data[..n] && (n < length ==> data[..length][n] == data[n])
  {
  }

  lemma Regrouped(before: string, data: string, n: nat)
    requires n <= |data|
    ensures before + data[..n] + data[n..] == before + data
  {
  }

  lemma CutPart(encoding: Encoding, before: string, data: string, n: nat)
    requires Cut(encoding, before, data) && n <= |data|
    ensures Cut(encoding, before, data[..n])
  {
  }

  lemma NothingEncoded(encoding: Encoding)
    ensures Encoded(encoding, "") == []
  {
  }

  /** Where a chunk of valid length ends, the text may be cut. */
  lemma CutBehind(encoding: Encoding, before: string, data: string, n: nat)
    requires n <= |data| && Cut(encoding, before, data)
    requires n == 0 || (n < |data| && !Continues(data[n])) || EndsContinuing(data[..n], 4)
    ensures Cut(encoding, before + data[..n], data[n..])
  {
    if n == 0 {
      assert before + data[..0] == before && data[0..] == data;
    } else if EndsContinuing(data[..n], 4) {
      var a := before + data[..n];
      forall k | |a| - 3 <= k < |a| ensures Continues(a[k]) {
        assert a[k] == data[..n][k - |before|];
      }
    }
  }
}
