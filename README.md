# bitdiff in Dafny

bitdiff compares two binary files position by position. It reads both files
in chunks of a fixed buffer size and compares the common prefix byte by byte.
For every offset where the bytes differ it writes one line to the output
stream:

- "0x" and the offset as 16 zero-padded lower-case hexadecimal digits;
- a tab;
- the two bytes, rendered by one of three renderers:
  - hexadecimal: `0xa5	0xa0` for the pair (0xa5, 0xa0);
  - binary: `0b10100101	0b10100000` for the same pair;
  - bit mask: `0b.....1.1	0b.....0.0` for the same pair. Only the bits that differ are shown; every other position is `.`.

It returns two totals: the number of differing bytes and the number of
differing bits. It fails when the object has already been used. It also fails
when the number of bytes compared is not the smaller of the two file sizes
recorded when the files were opened.

The project has five modules:

- `ByteBits` (`bits.dfy`): bit access and population count on bytes (`bv8`).
- `Numerals` (`numerals.dfy`): the radix numerals that `std::to_chars`
  writes, the zero padding `_to_chars` adds, and reading a numeral back.
- `DataOutput` (`dataout.dfy`): the renderers of `src/dataout.cpp`.
  - The buffer routines `_to_chars` and `_to_bitwise_string` work in place on
    an `array<char>`.
  - One `DataOut` class, tagged with its `Kind`, stands for the Hex, Binary
    and Bit variants. It holds the stored pair, the cached xor of the bit
    variant and the scratch buffer.
  - `Render` is the specification of what `print` writes.
- `Stream` (`stream.dfy`): the binary `std::ifstream` the driver reads. A
  stream is the file's bytes, a read position and the end-of-file flag, with
  the `read`/`gcount` behaviour of `std::istream`.
- `Diff` (`bitdiff.dfy`): the driver of `src/bitdiff.cpp`.
  - `_fillBuffer` and the `for(;;)` read loop of `process` are methods over
    arrays and streams.
  - The `m_valid` flag is a field of the `BitDiff` class.
  - The results are specified by functions over the two files' contents:
    - `DiffBytes` and `DiffBits` give the totals;
    - `DiffLines` gives the reported differences;
    - `Report` gives the output lines.

The output stream is modelled as the sequence of lines written to it, in
order. Each line already ends in its newline, so the text written is their
concatenation.

Where the headers and the `.cpp` files disagree, the model follows the
`.cpp` files:

- include/bitdiff/bitdiff.hpp declares `process(std::ostream&)` returning one
  number. src/bitdiff.cpp defines `process(output, printHeader, type)`
  returning both totals.
- include/bitdiff/dataout.hpp declares renderers built from the pair, the
  delimiter and an outside buffer, and `process` calls them that way.
  src/dataout.cpp defines a renderer built from a delimiter, with its own
  buffer, which receives each pair through `init`. The model follows
  src/dataout.cpp: `process` creates one renderer of the requested kind and
  calls `Init` and `Print` for each differing pair. The text written is the
  same either way.

## Model

| member | source | states |
|---|---|---|
| ByteBits.PopcountBelow | src/dataout.cpp:77-83 | The popcount of the low `k` bits of a byte is at most `k`. |
| ByteBits.Popcount | src/bitdiff.cpp:48-54 | `popcount` of a byte is at most 8. |
| ByteBits.PopcountBelowZero | src/dataout.cpp:77-83 | The popcount of the low `k` bits is zero exactly when none of those bits is set. |
| ByteBits.PopcountZero | src/dataout.cpp:77-83 | `popcount` of a byte is zero exactly when the byte is zero. |
| ByteBits.BitXor | src/dataout.cpp:185 | Bit `k` of `a ^ b` is set exactly where bit `k` of `a` and of `b` differ. |
| ByteBits.DiffPopcount | src/bitdiff.cpp:238 | `popcount(a ^ b)` is at most 8, is symmetric in `a` and `b`, and is zero exactly when `a == b`. |
| Numerals.Digits | src/dataout.cpp:50 | The numeral `std::to_chars` writes is non-empty, consists of digits of the radix, and has no leading '0' unless the value is 0. |
| Numerals.ParseDigits | src/dataout.cpp:50 | Reading the written numeral back in its radix gives the value. |
| Numerals.ParseZeros | src/dataout.cpp:72 | Leading '0' characters, as `memset` writes them, do not change the value read back. |
| Numerals.DigitsFit | src/dataout.cpp:52-55 | A value below `radix^width` has at most `width` digits, so `std::to_chars` reports no error. |
| Numerals.PaddedRoundTrip | src/dataout.cpp:56-73 | A padded numeral is exactly `width` radix digits, ends in the shortest numeral, and reads back as the value. |
| DataOutput.ByteDigitsFit | src/dataout.cpp:52-55 | Every byte fits the 2-digit hexadecimal field and the 8-digit binary field, so the throw in `_to_chars` is never reached from a renderer. |
| DataOutput.MaskLiterals | src/dataout.cpp:27-46 | The number of non-'.' characters in a mask equals the popcount of the difference mask over the positions covered. |
| DataOutput.MaskCharPair | src/dataout.cpp:33-44 | At one bit position the two masks hold '.' together exactly when the bytes agree there; otherwise each holds its own bit, and the two bits are opposite. |
| DataOutput.BitMaskPair | src/dataout.cpp:188-198 | The bit renderer's two masks are 8 characters each. '.' stands at the same positions in both, exactly where the bytes agree, most significant bit first. Every other position shows each operand's bit, opposite in the two masks. Each mask has `popcount(a ^ b)` literal bits. |
| DataOutput.BitMaskSwap | src/dataout.cpp:188-198 | Rendering `(b, a)` writes the masks of `(a, b)` in swapped order with the same difference mask and popcount. |
| DataOutput.FieldPair | src/dataout.cpp:134-165 | Two equally wide digit fields joined as prefix, field, delimiter, prefix, field sit at fixed positions and read back as they did on their own. |
| DataOutput.FieldRoundTrip | src/dataout.cpp:134-165 | Hex `print` writes `0x`, 2 hex digits, the delimiter, `0x`, 2 hex digits. Binary writes the same shape with `0b` and 8 binary digits. Each field read in its radix gives back its byte. |
| DataOutput.FieldChars | src/dataout.cpp:136-143 | A rendered field is exactly as wide as its kind and holds no NUL, so the C string read from the buffer is the whole field. |
| DataOutput.CStringUpTo | src/dataout.cpp:137-140 | A buffer with no NUL before position `w` and a NUL at `w` is written to a stream as its first `w` characters. |
| DataOutput.ToBitwiseString | src/dataout.cpp:27-46 | Writes exactly `bufferSize` characters and leaves the rest of the buffer. Character `i` is for bit `bufferSize-1-i`. It is '.' exactly when that bit of `x` is 0; otherwise it is '1' or '0' as that bit of `value` is. |
| DataOutput.MemMove | src/dataout.cpp:71 | After a right-moving `memmove` over overlapping ranges, the destination holds the old source characters and everything else is unchanged. |
| DataOutput.MemSet | src/dataout.cpp:72 | `memset` sets exactly the `n` characters from `start` and changes nothing else. |
| DataOutput.ToChars | src/dataout.cpp:48-74 | Succeeds exactly when the numeral fits. It then leaves exactly the field's characters as the radix digits of `value`, right-aligned and left-padded with '0'. Nothing outside the field changes. |
| DataOutput.DataOut.constructor | src/dataout.cpp:105-112 | A new renderer holds the pair (0, 0), the delimiter, and a fresh buffer one character wider than a rendered byte. |
| DataOutput.DataOut.Init | src/dataout.cpp:182-186 | `init` stores the pair; the bit variant also caches `a ^ b`; the delimiter and buffer are untouched. |
| DataOutput.DataOut.GetDiffPopCount | src/dataout.cpp:114-117 | Equals `popcount(a ^ b)` for every variant, the bit variant's cached mask included. It is at most 8 and zero exactly when `a == b`. |
| DataOutput.DataOut.RenderByte | src/dataout.cpp:136-139 | NUL-terminating the buffer and filling it with `_to_chars` or `_to_bitwise_string` writes exactly the field of the byte. |
| DataOutput.DataOut.Print | src/dataout.cpp:134-198 | `print` writes prefix, field of `a`, delimiter, prefix, field of `b` for the renderer's kind. |
| Stream.InputStream.Open | src/bitdiff.cpp:64-76 | An opened stream holds the file's bytes, at position 0 and not at end of file. |
| Stream.InputStream.Read | src/bitdiff.cpp:86-87 | `read` plus `gcount` copies the next `min(n, remaining)` bytes to the start of the buffer. It raises the end-of-file flag when fewer than `n` were left, and copies nothing once at end of file. |
| Diff.DiffBytes | src/bitdiff.cpp:235-237 | The number of differing indices is at most the number compared. |
| Diff.DiffBits | src/bitdiff.cpp:238 | The bit total is at most 8 times the byte total. |
| Diff.DiffLines | src/bitdiff.cpp:230-245 | One difference is reported per differing index. |
| Diff.ReportAppend | src/bitdiff.cpp:242-243 | Reporting one more difference appends exactly its line to the output. |
| Diff.DiffLinesSound | src/bitdiff.cpp:242-247 | Every reported line names an index below the compared length where the files differ, with those bytes. Offsets strictly increase over the whole run. |
| Diff.DiffLinesComplete | src/bitdiff.cpp:230-245 | Every differing index below the compared length is reported. |
| Diff.IdenticalPrefix | src/bitdiff.cpp:235-238 | Byte total, bit total and report are all empty exactly when the compared prefixes are identical. |
| Diff.OffsetField | src/bitdiff.cpp:242 | An offset below 2^64 is written as exactly OFFSET_WIDTH (16) hexadecimal digits that read back as the offset. |
| Diff.LineFields | src/bitdiff.cpp:242-243 | An output line is "0x", the 16-digit offset, the tab, the rendered pair and the newline, at fixed positions. |
| Diff.FillBuffer | src/bitdiff.cpp:78-91 | `_fillBuffer` reads `min(len, remaining)` bytes, at most `len`, into the buffer in file order, and leaves the rest of the buffer as it was. It stops at `len` bytes or end of file, and raises the flag exactly when it read fewer than `len`. |
| Diff.EmitLine | src/bitdiff.cpp:240-243 | Rendering a differing pair appends exactly its report line to the output. |
| Diff.CompareAt | src/bitdiff.cpp:232-244 | One comparison keeps the loop invariant. Totals and output stay those of the differences below the next offset: +1 byte, +`popcount(a ^ b)` bits and one line for a differing pair, nothing for an equal one. |
| Diff.DiffChunk | src/bitdiff.cpp:230-245 | Comparing the first `count` bytes of both chunks extends the invariant from offset `bytesRead` to `bytesRead + count`. |
| Diff.OutcomeCounts | src/bitdiff.cpp:261-273 | `process` succeeds exactly when the compared length equals the smaller recorded size. The totals are then bounded by the compared length and by 8 bits per byte, and are zero exactly when the prefixes are identical. |
| Diff.LastChunk | src/bitdiff.cpp:247-253 | When a round leaves either stream at end of file, the bytes read reach the shorter file's length. |
| Diff.BitDiff.constructor | src/bitdiff.cpp:94-128 | A new object is valid. It has both files open at position 0, two fresh buffers of the buffer size, and the recorded sizes. |
| Diff.BitDiff.FillBoth | src/bitdiff.cpp:225-226 | Both buffers get the next chunk of their file; the rest of each buffer is unchanged. When neither stream hits end of file, both chunks are full. When either does, the common length reaches the shorter file's end. |
| Diff.BitDiff.Round | src/bitdiff.cpp:225-258 | One pass compares `min(tmpA, tmpB)` bytes and advances the read count by it. The loop stops exactly when either stream is at end of file, and then the whole common length has been compared. Otherwise both chunks were full and the count advanced by the buffer size. The read-mismatch test never succeeds. |
| Diff.BitDiff.Process | src/bitdiff.cpp:145-274 | A second call fails with nothing written. A first call marks the object used and writes one line per differing byte of the common prefix, in offset order. It returns the byte and bit totals when the compared length equals the smaller recorded size, and the size-mismatch error otherwise. |
| Diff.BitDiff.Cleanup | src/bitdiff.cpp:276-321 | After `cleanup` the object is no longer usable. |
| Diff.ProcessTwice | src/bitdiff.cpp:147-162 | With the recorded sizes equal to the files' lengths, the first `process` succeeds with the totals and report of the common prefix, and the second is refused. |
| Diff.CleanupThenProcess | src/bitdiff.cpp:147-150 | `process` after `cleanup` is refused and writes nothing. |
| Diff.ExampleDiff | src/bitdiff.cpp:230-245 | Files 00 FF and 00 0F differ in one byte, at offset 1, in four bits. |
| Diff.ExampleRender | src/dataout.cpp:188-198 | The bit renderer writes `0b1111....`, tab, `0b0000....` for the pair (FF, 0F). |
| Diff.ExampleOffset | src/bitdiff.cpp:242 | Offset 1 is written as fifteen '0' characters and a '1'. |

## Left out

- src/reader.cpp, src/main.cpp and src/version.cpp are not part of this
  model: the background reader thread, command-line parsing and the version
  text.
- The header line that `process` writes when `printHeader` is set, and the
  warnings written to `std::cerr`, are not modelled.
- The saving and restoring of the output stream's exception mask and format
  flags is not modelled. The `std::hex`/`std::setw`/`std::setfill('0')`
  formatting is modelled only by its effect on the offset field.
- Opening files and `fs::file_size` are modelled as parameters: the
  constructor takes the two files' contents and the sizes reported for them.
  Failure to open a file is not modelled, and neither is the constructor's
  cleanup on that path.
- Diff.BitDiff.Cleanup: only the clearing of `m_valid` is modelled. Closing the
  streams and freeing the buffers are left out because memory is managed by
  Dafny.
- Diff.BitDiff.constructor: requires a buffer size above zero. The source
  accepts a size of 0, but `process` then never ends: `_fillBuffer` returns 0
  without reading, no end-of-file flag is ever raised, and the `for(;;)` loop
  of src/bitdiff.cpp:223-259 repeats forever. The one caller passes 512 KiB
  (src/main.cpp:19), and the model's termination proof of `Process` relies
  on a non-empty chunk.
- Diff.LineFields: the offset field assumes the output stream's
  `uppercase`, `showbase` and `adjustfield` flags are at their defaults, as
  they are for `std::cout`. `process` sets only `std::hex` and
  `std::setfill('0')` (src/bitdiff.cpp:160), so a caller's `std::uppercase`
  or `std::left` would change the text.
- Diff.BitDiff.Process: the byte and bit totals are unbounded integers, not
  `uintmax_t`. Offsets are assumed to fit 64 bits, as they do for any file
  the source can read.
- DataOutput.MemMove: models only the right-moving `memmove` that
  `_to_chars` performs, not a general `memmove`.
- DataOutput.ToChars: the `std::errc` message text of the exception is not
  modelled. The error is the `false` result, which no renderer can get.
- Diff.BitDiff.Round: the read-mismatch error of src/bitdiff.cpp:255-258 has
  no error value. With `std::istream::read` semantics the test can never
  succeed, and the model proves it false instead of carrying a dead branch.
- `__builtin_popcount` is modelled by a popcount defined bit by bit.
- Stream errors (`badbit`) and the exceptions they would raise are not
  modelled.
