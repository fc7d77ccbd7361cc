/**
  The byte buffer of buffer.c: a growing area of memory, how much of it is filled, and how far
  it has been read.  The read index is an unsigned int: it wraps at 2^32, while the length does not.
 */
module Buffers {
  import opened Bytes

  const WORDS := 0x1_0000_0000

  datatype Char = Eof | Got(c: byte)

  class Buffer {
    var data: seq<byte>
    var dlen: nat
    var i: word

    ghost predicate Valid()
      reads this
    {
      1 <= |data| && dlen <= |data|
    }

    /** The bytes that have been added. */
    ghost function Contents(): seq<byte>
      reads this
      requires Valid()
    {
      data[..dlen]
    }

    constructor ()
      ensures Valid() && Contents() == [] && i == 0
    {
      data := [0];
      dlen := 0;
      i := 0;
    }

    method AddChar(c: byte)
      requires Valid()
      modifies this
      ensures Valid() && Contents() == old(Contents()) + [c] && i == old(i)
    {
      if dlen == |data| {
        data := data + seq(|data|, _ => 0);
      }
      data := data[dlen := c];
      dlen := dlen + 1;
    }

    method Rewind()
      modifies this`i
      ensures i == 0
    {
      i := 0;
    }

    /** The next byte; in a buffer of 2^32 bytes or more the first one follows byte 2^32 - 1. */
    method IterChar() returns (r: Char)
      requires Valid()
      modifies this`i
      ensures i == NextIndex(|Contents()|, old(i))
      ensures r == if old(i) < |Contents()| then Got(Contents()[old(i)]) else Eof
    {
      if i >= dlen {
        return Eof;
      }
      r := Got(data[i]);
      i := (i + 1) % WORDS;
    }

    /** Append the whole of another buffer, which is left read to its end; see ReadToEnd for longer ones. */
    method AddBuf(s: Buffer)
      requires Valid() && s.Valid() && s != this && |s.Contents()| < WORDS
      modifies this, s`i
      ensures Valid() && Contents() == old(Contents()) + s.Contents() && i == old(i)
      ensures s.i == |s.Contents()|
    {
      s.Rewind();
      var c := s.IterChar();
      while c.Got?
        invariant Valid() && i == old(i)
        invariant if c.Got? then 1 <= s.i <= |s.Contents()| && c.c == s.Contents()[s.i - 1] else s.i == |s.Contents()|
        invariant Contents() == old(Contents()) + s.Contents()[..if c.Got? then s.i - 1 else s.i]
        decreases |s.Contents()| - s.i, c.Got?
      {
        AddChar(c.c);
        c := s.IterChar();
      }
    }
  }

  /** A new buffer with the bytes of a file or of a transfer. */
  method Filled(s: seq<byte>) returns (b: Buffer)
    ensures fresh(b) && b.Valid() && b.Contents() == s && b.i == 0
  {
    b := new Buffer();
    for k := 0 to |s|
      invariant b.Valid() && b.Contents() == s[..k] && b.i == 0
    {
      b.AddChar(s[k]);
    }
    assert s[..|s|] == s;
  }

  // ----- reading to the end -----

  /** Where the read index stands after one more call of IterChar, in a buffer of `n` bytes. */
  function NextIndex(n: nat, i: word): word {
    if i < n then (i + 1) % WORDS else i
  }

  /** Where it stands after `k` calls from the front. */
  function IndexAfter(n: nat, k: nat): word {
    if k == 0 then 0 else NextIndex(n, IndexAfter(n, k - 1))
  }

  lemma {:induction false} IndexBelow(n: nat, k: nat)
    requires k <= n && k < WORDS
    ensures IndexAfter(n, k) == k
  {
    if k > 0 { IndexBelow(n, k - 1); }
  }

  /** A loop that reads a buffer until its end comes to that end exactly when there are fewer than 2^32 bytes. */
  lemma ReadToEnd(n: nat)
    ensures (exists k :: IndexAfter(n, k) >= n) <==> n < WORDS
  {
    if n < WORDS {
      IndexBelow(n, n);
    }
  }

  /**
    A stream of the C library between two processes: what has been written to it, and how much of
    that has been read.
   */
  class Wire {
    var bytes: seq<byte>
    var at: nat

    constructor ()
      ensures bytes == [] && at == 0
    {
      bytes := [];
      at := 0;
    }

    method Put(c: byte)
      modifies this`bytes
      ensures bytes == old(bytes) + [c]
    {
      bytes := bytes + [c];
    }

    method Get() returns (r: Char)
      modifies this`at
      ensures if old(at) < |bytes| then r == Got(bytes[old(at)]) && at == old(at) + 1 else r == Eof && at == old(at)
    {
      if at >= |bytes| {
        return Eof;
      }
      r := Got(bytes[at]);
      at := at + 1;
    }
  }
}
