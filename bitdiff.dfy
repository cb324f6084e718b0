/** The positional comparison of two files (src/bitdiff.cpp): both files are
    read chunk by chunk, the common prefix is compared byte by byte, and
    every differing byte is counted, its differing bits are counted, and a
    line with its offset and its rendering is emitted. */
module Diff {
  import opened ByteBits
  import opened Numerals
  import opened DataOutput
  import opened Stream

  /** Hex digits of a uintmax_t offset: sizeof(uintmax_t) * (CHAR_BIT >> 2). */
  const OFFSET_WIDTH: nat := 16
  const OUT_DELIM: char := '\t'

  /** The totals `process` returns (diff_count). */
  datatype DiffCount = DiffCount(bytes: nat, bits: nat)

  /** The runtime errors `process` throws. */
  datatype Error =
    | InvalidObject
    | SizeMismatch(bytesRead: nat, expected: nat)

  datatype Result = Success(value: DiffCount) | Failure(error: Error)

  /** One reported difference: the offset and the two bytes found there. */
  datatype DiffLine = DiffLine(offset: nat, a: bv8, b: bv8)

  /** An output line: the offset as zero-padded hexadecimal behind "0x", a
      tab, the rendered pair, a newline. */
  function FormatLine(offset: nat, rendered: string): string {
    "0x" + Padded(offset, HEX_RADIX, OFFSET_WIDTH) + [OUT_DELIM] + rendered + "\n"
  }

  /** The output line of one reported difference. */
  function LineText(kind: Kind, line: DiffLine): string {
    FormatLine(line.offset, Render(kind, OUT_DELIM, line.a, line.b))
  }

  /** The lines the output stream receives for the reported differences, in
      order; the text written is their concatenation. */
  function Report(kind: Kind, lines: seq<DiffLine>): seq<string> {
    if lines == [] then [] else Report(kind, lines[..|lines| - 1]) + [LineText(kind, lines[|lines| - 1])]
  }

  lemma ReportAppend(kind: Kind, lines: seq<DiffLine>, line: DiffLine)
    ensures Report(kind, lines + [line]) == Report(kind, lines) + [LineText(kind, line)]
  {
    assert (lines + [line])[..|lines|] == lines;
  }

  /** The number of indices below `n` where the files differ. */
  function DiffBytes(A: seq<bv8>, B: seq<bv8>, n: nat): (r: nat)
    requires n <= |A| && n <= |B|
    ensures r <= n
  {
    if n == 0 then 0 else DiffBytes(A, B, n - 1) + (if A[n - 1] != B[n - 1] then 1 else 0)
  }

  /** The sum of `popcount(A[i] ^ B[i])` over the indices below `n`: at most
      eight bits for every differing byte. */
  function DiffBits(A: seq<bv8>, B: seq<bv8>, n: nat): (r: nat)
    requires n <= |A| && n <= |B|
    ensures r <= 8 * DiffBytes(A, B, n)
  {
    if n == 0 then 0
    else
      DiffPopcount(A[n - 1], B[n - 1]);
      DiffBits(A, B, n - 1) + Popcount(Xor(A[n - 1], B[n - 1]))
  }

  /** The differences reported for the indices below `n`: one per differing
      index, in index order. */
  function DiffLines(A: seq<bv8>, B: seq<bv8>, n: nat): (lines: seq<DiffLine>)
    requires n <= |A| && n <= |B|
    ensures |lines| == DiffBytes(A, B, n)
  {
    if n == 0 then []
    else DiffLines(A, B, n - 1) + (if A[n - 1] != B[n - 1] then [DiffLine(n - 1, A[n - 1], B[n - 1])] else [])
  }

  /** `line` reports index `line.offset` below `n`, where the files differ,
      with that index's bytes. */
  predicate ReportsDiff(A: seq<bv8>, B: seq<bv8>, n: nat, line: DiffLine)
    requires n <= |A| && n <= |B|
  {
    && line.offset < n
    && line.a == A[line.offset] && line.b == B[line.offset]
    && line.a != line.b
  }

  predicate Increasing(lines: seq<DiffLine>) {
    forall j, k :: 0 <= j < k < |lines| ==> lines[j].offset < lines[k].offset
  }

  /** Every emitted line reports a differing index below `n`, and the
      offsets strictly increase. */
  lemma {:induction false} DiffLinesSound(A: seq<bv8>, B: seq<bv8>, n: nat)
    requires n <= |A| && n <= |B|
    ensures forall j :: 0 <= j < |DiffLines(A, B, n)| ==> ReportsDiff(A, B, n, DiffLines(A, B, n)[j])
    ensures Increasing(DiffLines(A, B, n))
  {
    if n > 0 {
      DiffLinesSound(A, B, n - 1);
      var prev, lines := DiffLines(A, B, n - 1), DiffLines(A, B, n);
      forall j | 0 <= j < |prev|
        ensures lines[j] == prev[j] && ReportsDiff(A, B, n, lines[j])
      {
        assert ReportsDiff(A, B, n - 1, prev[j]);
      }
      if A[n - 1] != B[n - 1] {
        assert lines == prev + [DiffLine(n - 1, A[n - 1], B[n - 1])];
      } else {
        assert lines == prev;
      }
    }
  }

  /** Every index below `n` where the files differ has its line. */
  lemma {:induction false} DiffLinesComplete(A: seq<bv8>, B: seq<bv8>, n: nat, i: nat)
    requires n <= |A| && n <= |B| && i < n && A[i] != B[i]
    ensures exists j :: 0 <= j < |DiffLines(A, B, n)| && DiffLines(A, B, n)[j].offset == i
  {
    var lines := DiffLines(A, B, n);
    if i == n - 1 {
      assert lines[|lines| - 1].offset == i;
    } else {
      DiffLinesComplete(A, B, n - 1, i);
      var j :| 0 <= j < |DiffLines(A, B, n - 1)| && DiffLines(A, B, n - 1)[j].offset == i;
      assert lines[j] == DiffLines(A, B, n - 1)[j];
    }
  }

  /** Both totals are zero, and nothing is reported, exactly when the
      compared prefixes are identical. */
  lemma {:induction false} IdenticalPrefix(A: seq<bv8>, B: seq<bv8>, n: nat)
    requires n <= |A| && n <= |B|
    ensures DiffBytes(A, B, n) == 0 <==> A[..n] == B[..n]
    ensures DiffBits(A, B, n) == 0 <==> A[..n] == B[..n]
    ensures DiffLines(A, B, n) == [] <==> A[..n] == B[..n]
  {
    if n > 0 {
      IdenticalPrefix(A, B, n - 1);
      DiffPopcount(A[n - 1], B[n - 1]);
      assert A[..n] == A[..n - 1] + [A[n - 1]];
      assert B[..n] == B[..n - 1] + [B[n - 1]];
      if A[..n] == B[..n] {
        assert A[..n - 1] == A[..n][..n - 1] && B[..n - 1] == B[..n][..n - 1];
        assert A[n - 1] == A[..n][n - 1] && B[n - 1] == B[..n][n - 1];
      }
    }
  }

  /** The offsets a uintmax_t holds: those below 2^64. */
  const OFFSET_LIMIT: nat := 0x1_0000_0000_0000_0000

  /** An offset that fits a uintmax_t is written as exactly OFFSET_WIDTH
      hexadecimal digits, which read back as the offset. */
  lemma OffsetField(offset: nat)
    requires offset < OFFSET_LIMIT
    ensures var f := Padded(offset, HEX_RADIX, OFFSET_WIDTH);
      && |f| == OFFSET_WIDTH
      && (forall i :: 0 <= i < OFFSET_WIDTH ==> IsDigit(f[i], HEX_RADIX))
      && Parse(f, HEX_RADIX) == offset
  {
    assert Pow(HEX_RADIX, 2) == 0x100;
    PowAdd(HEX_RADIX, 2, 2);
    PowAdd(HEX_RADIX, 4, 4);
    PowAdd(HEX_RADIX, 8, 8);
    DigitsFit(offset, HEX_RADIX, OFFSET_WIDTH);
    PaddedRoundTrip(offset, HEX_RADIX, OFFSET_WIDTH);
  }

  /** An output line is "0x", the offset field, the tab, the rendered pair
      and the newline. */
  lemma LineFields(offset: nat, rendered: string)
    requires offset < OFFSET_LIMIT
    ensures var t, w := FormatLine(offset, rendered), OFFSET_WIDTH;
      && |t| == 2 + w + 1 + |rendered| + 1
      && t[..2] == "0x"
      && (forall i :: 2 <= i < 2 + w ==> IsDigit(t[i], HEX_RADIX))
      && Parse(t[2..2 + w], HEX_RADIX) == offset
      && t[2 + w] == OUT_DELIM
      && t[3 + w..|t| - 1] == rendered
      && t[|t| - 1] == '\n'
  {
    OffsetField(offset);
    var field := Padded(offset, HEX_RADIX, OFFSET_WIDTH);
    var t := FormatLine(offset, rendered);
    assert t == "0x" + field + [OUT_DELIM] + rendered + "\n";
    assert t[2..2 + OFFSET_WIDTH] == field;
    assert t[3 + OFFSET_WIDTH..|t| - 1] == rendered;
  }

  /** `_fillBuffer`: reads up to `len` bytes into the start of `buffer`,
      repeating the read until `len` bytes have been read or the stream is at
      end of file. Every read goes to the start of the buffer; that is sound
      because a read that returns fewer bytes than asked raises the
      end-of-file flag and ends the loop. */
  method FillBuffer(input: InputStream, buffer: array<bv8>, len: nat) returns (read: nat)
    requires input.Valid() && len <= buffer.Length
    modifies input, buffer
    ensures input.Valid()
    ensures read == if old(input.eofBit) then 0 else Min(len, |input.data| - old(input.pos))
    ensures input.pos == old(input.pos) + read
    ensures input.eofBit == (old(input.eofBit) || read < len)
    ensures forall k :: 0 <= k < read ==> buffer[k] == input.data[old(input.pos) + k]
    ensures buffer[read..] == old(buffer[read..])
  {
    read := 0;
    while read < len && !input.Eof()
      invariant input.Valid() && read <= len
      invariant input.pos == old(input.pos) + read
      invariant old(input.eofBit) ==> input.eofBit && read == 0
      invariant input.eofBit ==> old(input.eofBit) || read < len
      invariant !input.eofBit ==> read == 0 || read == len
      invariant buffer[..read] == input.data[old(input.pos)..input.pos]
      invariant buffer[read..] == old(buffer[read..])
      decreases len - read, if input.eofBit then 0 else 1
    {
      var count := input.Read(buffer, len - read);
      read := read + count;
    }
    forall k | 0 <= k < read
      ensures buffer[k] == input.data[old(input.pos) + k]
    {
      assert buffer[..read][k] == input.data[old(input.pos)..input.pos][k];
    }
  }

  /** The running state of the read loop: the bytes compared so far, the
      two counters, and the lines written so far. */
  datatype Tally = Tally(read: nat, bytes: nat, bits: nat, output: seq<string>)

  /** `t` is the state after its first `t.read` indices: the number of
      differing bytes, the sum of their differing bits, and their lines. */
  predicate Tallied(kind: Kind, A: seq<bv8>, B: seq<bv8>, t: Tally) {
    && t.read <= |A| && t.read <= |B|
    && t.bytes == DiffBytes(A, B, t.read)
    && t.bits == DiffBits(A, B, t.read)
    && t.output == Report(kind, DiffLines(A, B, t.read))
  }

  /** Renders a differing pair with the run's renderer and writes its
      output line. */
  method EmitLine(kind: Kind, out: DataOut, offset: nat, a: bv8, b: bv8, output: seq<string>)
    returns (next: seq<string>)
    requires out.Valid() && out.kind == kind && out.delim == OUT_DELIM
    modifies out, out.buffer
    ensures out.Valid() && out.kind == kind && out.delim == OUT_DELIM
    ensures next == output + [LineText(kind, DiffLine(offset, a, b))]
  {
    out.Init(a, b);
    var rendered := out.Print();
    next := output + [FormatLine(offset, rendered)];
  }

  /** One step of the compare loop: the byte pair at offset `t.read`
      extends the counters, and a differing pair is rendered with the run's
      renderer and its line written. */
  method CompareAt(kind: Kind, out: DataOut, a: bv8, b: bv8, ghost A: seq<bv8>, ghost B: seq<bv8>, t: Tally)
    returns (next: Tally)
    requires Tallied(kind, A, B, t) && t.read < |A| && t.read < |B|
    requires a == A[t.read] && b == B[t.read]
    requires out.Valid() && out.kind == kind && out.delim == OUT_DELIM
    modifies out, out.buffer
    ensures out.Valid() && out.kind == kind && out.delim == OUT_DELIM
    ensures next.read == t.read + 1 && Tallied(kind, A, B, next)
  {
    if a != b {
      var output := EmitLine(kind, out, t.read, a, b, t.output);
      ReportAppend(kind, DiffLines(A, B, t.read), DiffLine(t.read, a, b));
      assert DiffLines(A, B, t.read + 1) == DiffLines(A, B, t.read) + [DiffLine(t.read, a, b)];
      next := Tally(t.read + 1, t.bytes + 1, t.bits + Popcount(Xor(a, b)), output);
    } else {
      DiffPopcount(a, b);
      assert DiffLines(A, B, t.read + 1) == DiffLines(A, B, t.read);
      next := Tally(t.read + 1, t.bytes, t.bits, t.output);
    }
  }

  /** The compare loop over one pair of chunks: the first `count` bytes of
      each buffer, which hold the files' bytes from offset `t.read` on,
      extend the counters and the lines written. */
  method DiffChunk(kind: Kind, out: DataOut, bufA: array<bv8>, bufB: array<bv8>, count: nat,
                   ghost A: seq<bv8>, ghost B: seq<bv8>, t: Tally)
    returns (next: Tally)
    requires Tallied(kind, A, B, t)
    requires count <= bufA.Length && count <= bufB.Length
    requires t.read + count <= |A| && t.read + count <= |B|
    requires forall k :: 0 <= k < count ==> bufA[k] == A[t.read + k] && bufB[k] == B[t.read + k]
    requires out.Valid() && out.kind == kind && out.delim == OUT_DELIM
    requires bufA as object != out.buffer as object && bufB as object != out.buffer as object
    modifies out, out.buffer
    ensures out.Valid() && out.kind == kind && out.delim == OUT_DELIM
    ensures next.read == t.read + count && Tallied(kind, A, B, next)
  {
    next := t;
    for i := 0 to count
      invariant next.read == t.read + i && Tallied(kind, A, B, next)
      invariant out.Valid() && out.kind == kind && out.delim == OUT_DELIM
      invariant forall k :: 0 <= k < count ==> bufA[k] == A[t.read + k] && bufB[k] == B[t.read + k]
    {
      next := CompareAt(kind, out, bufA[i], bufB[i], A, B, next);
    }
  }

  /** What a first `process` returns: the totals over the common prefix
      when its length is the expected size, a size mismatch otherwise. */
  function Outcome(A: seq<bv8>, B: seq<bv8>, expected: nat): Result {
    var n := Min(|A|, |B|);
    if n == expected then Success(DiffCount(DiffBytes(A, B, n), DiffBits(A, B, n)))
    else Failure(SizeMismatch(n, expected))
  }

  /** A first `process` succeeds exactly when the common length is the
      expected size; its totals then count at most one byte per compared
      index and at most eight bits per differing byte, and are zero exactly
      when the compared prefixes are identical. */
  lemma OutcomeCounts(A: seq<bv8>, B: seq<bv8>, expected: nat)
    ensures var n := Min(|A|, |B|);
      && (Outcome(A, B, expected).Success? <==> n == expected)
      && (Outcome(A, B, expected).Success? ==>
            var c := Outcome(A, B, expected).value;
            && c.bytes <= n && c.bits <= 8 * c.bytes
            && (c.bytes == 0 <==> A[..n] == B[..n])
            && (c.bits == 0 <==> A[..n] == B[..n]))
  {
    IdenticalPrefix(A, B, Min(|A|, |B|));
  }

  /** When a round of reads leaves either stream at end of file, the round's
      common length brings the byte count to the shorter file's length. */
  lemma LastChunk(lenA: nat, lenB: nat, pos: nat, len: nat, tmpA: nat, tmpB: nat)
    requires pos <= lenA && pos <= lenB
    requires tmpA == Min(len, lenA - pos) && tmpB == Min(len, lenB - pos)
    requires tmpA < len || tmpB < len
    ensures pos + Min(tmpA, tmpB) == Min(lenA, lenB)
  {
  }

  /** The comparison driver: two open streams with a chunk buffer each, the
      file sizes taken when they were opened, and the flag that allows a
      single `process`. */
  class BitDiff {
    const bsize: nat
    const fsizeA: nat
    const fsizeB: nat
    var valid: bool
    const streamA: InputStream
    const streamB: InputStream
    const bufferA: array<bv8>
    const bufferB: array<bv8>

    /** A usable object has both streams unread. */
    ghost predicate Valid()
      reads this, streamA, streamB
    {
      && bsize > 0
      && streamA != streamB && bufferA != bufferB
      && bufferA.Length == bsize && bufferB.Length == bsize
      && streamA.Valid() && streamB.Valid()
      && (valid ==> streamA.pos == 0 && !streamA.eofBit && streamB.pos == 0 && !streamB.eofBit)
    }

    /** Opens both files; `sizeA` and `sizeB` are the sizes the file system
        reported for them. */
    constructor (contentsA: seq<bv8>, contentsB: seq<bv8>, sizeA: nat, sizeB: nat, bufferSize: nat)
      requires bufferSize > 0
      ensures Valid() && valid
      ensures fresh(streamA) && fresh(streamB) && fresh(bufferA) && fresh(bufferB)
      ensures streamA.data == contentsA && streamB.data == contentsB
      ensures fsizeA == sizeA && fsizeB == sizeB && bsize == bufferSize
    {
      bsize := bufferSize;
      fsizeA := sizeA;
      fsizeB := sizeB;
      valid := true;
      streamA := new InputStream.Open(contentsA);
      streamB := new InputStream.Open(contentsB);
      bufferA := new bv8[bufferSize];
      bufferB := new bv8[bufferSize];
    }

    /** The two `_fillBuffer` calls of a pass: each buffer receives the next
        chunk of its file, up to `bsize` bytes, from the common position. */
    method FillBoth() returns (tmpA: nat, tmpB: nat)
      requires Valid() && !valid
      requires streamA.pos == streamB.pos && !streamA.eofBit && !streamB.eofBit
      modifies streamA, streamB, bufferA, bufferB
      ensures Valid() && !valid
      ensures tmpA == Min(bsize, |streamA.data| - old(streamA.pos))
      ensures tmpB == Min(bsize, |streamB.data| - old(streamB.pos))
      ensures streamA.pos == old(streamA.pos) + tmpA && streamB.pos == old(streamB.pos) + tmpB
      ensures streamA.eofBit == (tmpA < bsize) && streamB.eofBit == (tmpB < bsize)
      ensures forall k :: 0 <= k < tmpA ==> bufferA[k] == streamA.data[old(streamA.pos) + k]
      ensures forall k :: 0 <= k < tmpB ==> bufferB[k] == streamB.data[old(streamB.pos) + k]
      ensures bufferA[tmpA..] == old(bufferA[tmpA..]) && bufferB[tmpB..] == old(bufferB[tmpB..])
      ensures streamA.eofBit || streamB.eofBit ==>
        old(streamA.pos) + Min(tmpA, tmpB) == Min(|streamA.data|, |streamB.data|)
      ensures !streamA.eofBit && !streamB.eofBit ==> tmpA == tmpB == bsize
    {
      tmpA := FillBuffer(streamA, bufferA, bsize);
      tmpB := FillBuffer(streamB, bufferB, bsize);
      if streamA.eofBit || streamB.eofBit {
        LastChunk(|streamA.data|, |streamB.data|, old(streamA.pos), bsize, tmpA, tmpB);
      }
    }

    /** One pass of the read loop: fills both buffers, compares their common
        length, and reports whether either stream is now at end of file, and
        whether the chunk lengths differ although neither is. That second
        test never succeeds: a stream not at end of file delivered a full
        chunk, so the read-mismatch error is never thrown. */
    method Round(kind: Kind, out: DataOut, t: Tally) returns (next: Tally, done: bool, mismatch: bool)
      requires Valid() && !valid && Tallied(kind, streamA.data, streamB.data, t)
      requires streamA.pos == t.read && streamB.pos == t.read
      requires !streamA.eofBit && !streamB.eofBit
      requires out.Valid() && out.kind == kind && out.delim == OUT_DELIM
      requires {out as object, out.buffer} !! {streamA as object, streamB, bufferA, bufferB}
      modifies streamA, streamB, bufferA, bufferB, out, out.buffer
      ensures Valid() && Tallied(kind, streamA.data, streamB.data, next)
      ensures out.Valid() && out.kind == kind && out.delim == OUT_DELIM
      ensures done ==> next.read == Min(|streamA.data|, |streamB.data|)
      ensures !done ==> && t.read < next.read
                        && streamA.pos == next.read && streamB.pos == next.read
                        && !streamA.eofBit && !streamB.eofBit
      ensures done <==> streamA.eofBit || streamB.eofBit
      ensures !done ==> next.read == t.read + bsize
      ensures !mismatch
    {
      var tmpA, tmpB := FillBoth();
      var tmpX := Min(tmpA, tmpB);
      next := DiffChunk(kind, out, bufferA, bufferB, tmpX, streamA.data, streamB.data, t);
      done := streamA.Eof() || streamB.Eof();
      mismatch := !done && tmpA != tmpB;
    }

    /** `process`: compares the files up to the shorter one's length, writes
        a line for every differing byte to the output stream (`output`, the
        lines in order), and returns the totals;
        it fails on a second call, and when the bytes read do not match the
        smaller of the recorded sizes, after the lines are written. */
    method Process(kind: Kind) returns (result: Result, output: seq<string>)
      requires Valid()
      modifies this, streamA, streamB, bufferA, bufferB
      ensures Valid() && !valid
      ensures !old(valid) ==> result == Failure(InvalidObject) && output == []
      ensures old(valid) ==> output == Report(kind, DiffLines(streamA.data, streamB.data, Min(|streamA.data|, |streamB.data|)))
      ensures old(valid) ==> result == Outcome(streamA.data, streamB.data, Min(fsizeA, fsizeB))
    {
      if !valid {
        return Failure(InvalidObject), [];
      }
      valid := false;
      var out := new DataOut(kind, OUT_DELIM);
      var t := Tally(0, 0, 0, []);
      var done := false;
      while !done
        invariant Valid() && !valid && Tallied(kind, streamA.data, streamB.data, t)
        invariant out.Valid() && out.kind == kind && out.delim == OUT_DELIM && fresh(out) && fresh(out.buffer)
        invariant !done ==> streamA.pos == t.read && streamB.pos == t.read && !streamA.eofBit && !streamB.eofBit
        invariant done ==> t.read == Min(|streamA.data|, |streamB.data|)
        decreases |streamA.data| - t.read, if done then 0 else 1
      {
        var mismatch;
        t, done, mismatch := Round(kind, out, t);
      }
      output := t.output;
      var expected := Min(fsizeA, fsizeB);
      if t.read != expected {
        return Failure(SizeMismatch(t.read, expected)), output;
      }
      result := Success(DiffCount(t.bytes, t.bits));
    }

    /** `cleanup`: releases the streams and buffers, after which the object
        can no longer be used. */
    method Cleanup()
      requires Valid()
      modifies this
      ensures Valid() && !valid
    {
      valid := false;
    }
  }

  /** Opens two files whose recorded sizes are their lengths and runs
      `process` twice: the first run reports every differing byte of the
      common prefix and succeeds, the second is refused. */
  method ProcessTwice(A: seq<bv8>, B: seq<bv8>, kind: Kind, bufferSize: nat)
    returns (first: Result, output: seq<string>, second: Result)
    requires bufferSize > 0
    ensures first == Success(DiffCount(DiffBytes(A, B, Min(|A|, |B|)), DiffBits(A, B, Min(|A|, |B|))))
    ensures output == Report(kind, DiffLines(A, B, Min(|A|, |B|)))
    ensures second == Failure(InvalidObject)
  {
    var diff := new BitDiff(A, B, |A|, |B|, bufferSize);
    first, output := diff.Process(kind);
    var more;
    second, more := diff.Process(kind);
  }

  /** `cleanup` leaves an unused object unusable as well. */
  method CleanupThenProcess(A: seq<bv8>, B: seq<bv8>, kind: Kind, bufferSize: nat)
    returns (result: Result, output: seq<string>)
    requires bufferSize > 0
    ensures result == Failure(InvalidObject) && output == []
  {
    var diff := new BitDiff(A, B, |A|, |B|, bufferSize);
    diff.Cleanup();
    result, output := diff.Process(kind);
  }

  /** A worked case: the files 00 FF and 00 0F differ in the second byte, in
      its four high bits. */
  lemma ExampleDiff()
    ensures var A, B := [0x00, 0xFF], [0x00, 0x0F];
      && DiffBytes(A, B, 2) == 1 && DiffBits(A, B, 2) == 4
      && DiffLines(A, B, 2) == [DiffLine(1, 0xFF, 0x0F)]
  {
    var A: seq<bv8>, B: seq<bv8> := [0x00, 0xFF], [0x00, 0x0F];
    assert Xor(0xFF, 0x0F) == 0xF0;
    assert Popcount(0xF0) == 4 by {
      assert !Bit(0xF0, 0) && !Bit(0xF0, 1) && !Bit(0xF0, 2) && !Bit(0xF0, 3);
      assert Bit(0xF0, 4) && Bit(0xF0, 5) && Bit(0xF0, 6) && Bit(0xF0, 7);
    }
    assert DiffBytes(A, B, 1) == 0 && DiffBits(A, B, 1) == 0 && DiffLines(A, B, 1) == [];
  }

  /** The bit renderer's text for that difference. */
  lemma ExampleRender()
    ensures Render(Bits, OUT_DELIM, 0xFF, 0x0F) == "0b1111....\t0b0000...."
  {
    assert Xor(0xFF, 0x0F) == 0xF0;
    assert MaskString(0xFF, 0xF0, 8) == "1111....";
    assert MaskString(0x0F, 0xF0, 8) == "0000....";
  }

  /** The offset field of that difference. */
  lemma ExampleOffset()
    ensures Padded(1, HEX_RADIX, OFFSET_WIDTH) == "0000000000000001"
  {
    assert Digits(1, HEX_RADIX) == "1";
    assert Zeros(15) == "000000000000000";
  }
}
