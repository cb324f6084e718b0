/** A binary input file stream (the `std::ifstream` that src/bitdiff.cpp
    reads with `read` and `gcount`): the file's bytes, the read position and
    the end-of-file flag. */
module Stream {

  class InputStream {
    const data: seq<bv8>
    var pos: nat
    var eofBit: bool

    /** The position never passes the end of the file, and the end-of-file
        flag is only raised once the whole file has been read. */
    ghost predicate Valid()
      reads this
    {
      pos <= |data| && (eofBit ==> pos == |data|)
    }

    /** A stream opened on a file with the given contents. */
    constructor Open(contents: seq<bv8>)
      ensures Valid()
      ensures data == contents && pos == 0 && !eofBit
    {
      data := contents;
      pos := 0;
      eofBit := false;
    }

    /** `eof()`. */
    function Eof(): bool
      reads this
    {
      eofBit
    }

    /** `read(s, n)` followed by `gcount()`: copies up to `n` bytes into the
        start of `s` and returns how many it copied. Fewer than `n` means the
        end of the file was hit, which raises the end-of-file flag; a stream
        already at end of file copies nothing. */
    method Read(s: array<bv8>, n: nat) returns (count: nat)
      requires Valid() && n <= s.Length
      modifies this, s
      ensures Valid()
      ensures count == if old(eofBit) then 0 else Min(n, |data| - old(pos))
      ensures pos == old(pos) + count
      ensures eofBit == (old(eofBit) || count < n)
      ensures s[..count] == data[old(pos)..pos]
      ensures s[count..] == old(s[count..])
    {
      if eofBit {
        return 0;
      }
      var from := pos;
      count := Min(n, |data| - from);
      for j := 0 to count
        modifies s
        invariant s[..j] == data[from..from + j]
        invariant s[count..] == old(s[count..])
      {
        s[j] := data[from + j];
      }
      pos := from + count;
      if count < n {
        eofBit := true;
      }
    }
  }

  function Min(x: int, y: int): int {
    if x <= y then x else y
  }
}
