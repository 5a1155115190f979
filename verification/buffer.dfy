/** The byte queue of shared/include/MRD_buffer.h. Pointers are offsets into the allocation `mem`:
    `buffer_begin` is 0 and `buffer_end` is `buf_size`. */
module Buffers {
  import opened Bytes

  const SIZE_MOD: nat := 0x1_0000_0000_0000_0000

  lemma Joined(s: seq<Byte>, i: nat, j: nat, k: nat)
    requires i <= j <= k <= |s|
    ensures s[i..k] == s[i..j] + s[j..k]
  {
  }

  class Buffer {
    var mem: array<Byte>
    var data_begin: nat
    var data_end: nat
    var data_length: nat
    var buf_size: nat

    ghost predicate Valid()
      reads this
    {
      && buf_size == mem.Length
      && data_end == data_begin + data_length <= buf_size
    }

    /** The queued bytes. */
    ghost function Contents(): (s: seq<Byte>)
      requires Valid()
      reads this, mem
    {
      mem[data_begin..data_end]
    }

    lemma Whole()
      requires Valid()
      ensures |Contents()| == data_length && data_end <= mem.Length
      ensures Contents() == mem[data_begin..data_end]
    {
    }

    lemma Part(i: nat, j: nat)
      requires Valid() && i <= j <= data_length
      ensures data_begin + j <= mem.Length && |Contents()| == data_length
      ensures Contents()[i..j] == mem[data_begin + i..data_begin + j]
    {
      var a, b := Contents()[i..j], mem[data_begin + i..data_begin + j];
      forall x | 0 <= x < |a| ensures a[x] == b[x] {
        assert a[x] == Contents()[i + x] == mem[data_begin + (i + x)];
        assert b[x] == mem[(data_begin + i) + x];
      }
    }

    constructor (size: nat)
      ensures Valid() && fresh(mem) && Contents() == [] && buf_size == size
    {
      mem := new Byte[size](_ => 0);
      data_begin, data_end, data_length, buf_size := 0, 0, 0, size;
    }

    /** Drops `n` bytes from the front. Beyond the queued bytes the length wraps around, unless the
        new start lies behind the allocation; then the queue is empty, but still sound only if the
        data reached up to the end of the allocation. */
    method Consume(n: nat)
      requires Valid() && (n <= data_length || n < SIZE_MOD)
      modifies this`data_begin, this`data_length
      ensures n <= old(data_length) ==> Valid() && Contents() == old(Contents())[n..]
      ensures n > old(data_length) ==>
                (Valid() <==> old(data_begin) + n > buf_size && old(data_end) == buf_size)
      ensures n > old(data_length) && Valid() ==> Contents() == []
    {
      data_begin := data_begin + n;
      data_length := if n <= data_length then data_length - n else data_length + SIZE_MOD - n;
      if data_begin > buf_size {
        data_begin := buf_size;
        data_length := 0;
      }
    }

    method Resize(size: nat)
      requires Valid()
      modifies this
      ensures Valid() && Contents() == old(Contents()) && fresh(mem)
      ensures data_begin == 0 && buf_size == old(buf_size) + size
    {
      var newBuff := new Byte[buf_size + size](_ => 0);
      forall i | 0 <= i < data_length {
        newBuff[i] := mem[data_begin + i];
      }
      mem := newBuff;
      data_begin := 0;
      data_end := data_begin + data_length;
      buf_size := buf_size + size;
    }

    method Compact()
      requires Valid()
      modifies this`data_begin, this`data_end, mem
      ensures Valid() && Contents() == old(Contents()) && data_begin == 0
    {
      forall i | 0 <= i < data_length {
        mem[i] := mem[data_begin + i];
      }
      data_begin := 0;
      data_end := data_begin + data_length;
    }

    /** Lines 49-59: makes room for `len` more bytes, growing or compacting as needed. */
    method Reserve(len: nat)
      requires Valid()
      modifies this, mem
      ensures Valid() && Contents() == old(Contents()) && data_end + len <= buf_size
      ensures mem == old(mem) || fresh(mem)
    {
      if len > buf_size {
        Resize(len + data_length - buf_size);
      } else if data_begin + len > buf_size {
        Compact();
      }
      if data_end + len > buf_size {
        Resize(len - (buf_size - data_end));
      }
    }

    /** Overwrites the allocation at offset `at`, inside or outside the queue. */
    method Poke(at: nat, data: seq<Byte>)
      requires Valid() && at + |data| <= mem.Length
      modifies mem
      ensures Valid() && mem[at..at + |data|] == data
      ensures data_end <= at ==> Contents() == old(Contents())
      ensures forall i :: 0 <= i < |Contents()| && !(at <= data_begin + i < at + |data|) ==>
                Contents()[i] == old(Contents())[i]
      ensures data_begin <= at && at + |data| <= data_end ==>
                var s, i := old(Contents()), at - data_begin;
                Contents() == s[..i] + data + s[i + |data|..]
    {
      forall i | 0 <= i < |data| {
        mem[at + i] := data[i];
      }
    }

    method Append(data: seq<Byte>)
      requires Valid()
      modifies this, mem
      ensures Valid() && Contents() == old(Contents()) + data
      ensures mem == old(mem) || fresh(mem)
    {
      var len := |data|;
      Reserve(len);
      Poke(data_end, data);
      Joined(mem[..], data_begin, data_end, data_end + len);
      data_length := data_length + len;
      data_end := data_end + len;
    }

    /** Overwrites bytes that begin `back` bytes before the end of the queue. */
    method Patch(back: nat, data: seq<Byte>)
      requires Valid() && |data| <= back <= data_length
      modifies mem
      ensures Valid()
      ensures var s, i := old(Contents()), data_length - back;
              Contents() == s[..i] + data + s[i + |data|..]
    {
      Poke(data_end - back, data);
    }
  }
}
