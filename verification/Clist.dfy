/**
 The queue of characters between the line discipline and the serial device: blocks of fixed size, filled and drained in
 place.
 */
module Clist {
  import opened Prelude

  const ACBUFSIZE: nat := 56

  /** `len` characters are in use, from `start` on. */
  datatype Block = Block(start: nat, len: nat, data: seq<Byte>) {
    predicate Valid() {
      |data| == ACBUFSIZE && 0 < len && start + len <= ACBUFSIZE
    }

    function Text(): seq<Byte>
      requires Valid()
    {
      data[start..start + len]
    }
  }

  ghost predicate AllValid(blocks: seq<Block>) {
    forall i :: 0 <= i < |blocks| ==> blocks[i].Valid()
  }

  ghost function Text(blocks: seq<Block>): seq<Byte>
    requires AllValid(blocks)
  {
    if blocks == [] then [] else Text(blocks[..|blocks| - 1]) + blocks[|blocks| - 1].Text()
  }

  /** The first block comes first. */
  lemma {:induction false} TextFirst(blocks: seq<Block>)
    requires AllValid(blocks) && blocks != []
    ensures Text(blocks) == blocks[0].Text() + Text(blocks[1..])
    decreases |blocks|
  {
    hide Block.Valid, Block.Text;
    var n := |blocks| - 1;
    if n > 0 {
      var init, rest := blocks[..n], blocks[1..];
      TextFirst(init);
      assert init[1..] == rest[..n - 1] && rest[n - 1] == blocks[n];
      assert Text(rest) == Text(init[1..]) + blocks[n].Text();
    } else {
      assert blocks[..0] == [] && blocks[1..] == [];
    }
  }

  /** The blocks left when a write took `n` characters of the first one. */
  function Taken(blocks: seq<Block>, n: nat): seq<Block>
    requires blocks != [] && 1 <= n <= blocks[0].len
  {
    var b := blocks[0];
    if n == b.len then blocks[1..] else [Block(b.start + n, b.len - n, b.data)] + blocks[1..]
  }

  lemma BlockTaken(b: Block, n: nat)
    requires b.Valid() && 1 <= n < b.len
    ensures Block(b.start + n, b.len - n, b.data).Valid()
    ensures b.Text() == b.Text()[..n] + Block(b.start + n, b.len - n, b.data).Text()
  {
  }

  lemma TakenText(blocks: seq<Block>, n: nat)
    requires AllValid(blocks) && blocks != [] && 1 <= n <= blocks[0].len
    ensures AllValid(Taken(blocks, n))
    ensures Text(blocks) == blocks[0].Text()[..n] + Text(Taken(blocks, n))
  {
    hide Text, Block.Valid, Block.Text;
    var rest := Taken(blocks, n);
    var b := blocks[0];
    if n < b.len {
      BlockTaken(b, n);
      assert AllValid(rest) && rest[1..] == blocks[1..];
      TextFirst(rest);
    } else {
      WholeBlock(b);
    }
    TextFirst(blocks);
  }

  lemma WholeBlock(b: Block)
    requires b.Valid()
    ensures b.Text()[..b.len] == b.Text()
  {
  }

  lemma BlockAdded(blocks: seq<Block>, block: Block, before: seq<Byte>, buf: seq<Byte>, i: nat, n: nat)
    requires AllValid(blocks) && block.Valid() && i + n <= |buf| && block.Text() == buf[i..i + n]
    requires Text(blocks) == before + buf[..i]
    ensures AllValid(blocks + [block]) && Text(blocks + [block]) == before + buf[..i + n]
  {
    hide Block.Valid, Block.Text;
    var all := blocks + [block];
    assert all[..|all| - 1] == blocks;
    assert buf[..i] + buf[i..i + n] == buf[..i + n];
    Assoc(before, buf[..i], buf[i..i + n]);
  }

  class Queue {
    var count: nat
    var blocks: seq<Block>

    /** The count is that of the characters, and no block is ever empty. */
    ghost predicate Valid()
      reads this
    {
      AllValid(blocks) && count == |Text(blocks)|
    }

    ghost function Contents(): seq<Byte>
      requires Valid()
      reads this
    {
      Text(blocks)
    }

    constructor ()
      ensures Valid() && Contents() == []
    {
      count, blocks := 0, [];
    }

    /** Append one character, in the last block if it has room behind its text. */
    method Putc(c: Byte)
      requires Valid()
      modifies this
      ensures Valid() && Contents() == old(Contents()) + [c]
    {
      var n := |blocks| - 1;
      if count == 0 || blocks[n].start + blocks[n].len >= ACBUFSIZE {
        EmptyIffZero(blocks);
        blocks := blocks + [Block(0, 1, seq(ACBUFSIZE, _ => c))];
        assert blocks[..|blocks| - 1] == old(blocks);
      } else {
        var b := blocks[n];
        blocks := blocks[n := Block(b.start, b.len + 1, b.data[b.start + b.len := c])];
        assert blocks[..n] == old(blocks)[..n];
        assert blocks[n].Text() == b.Text() + [c];
      }
      count := count + 1;
    }

    /** Append a run of characters, in as many new blocks as it takes. */
    method Append(buf: seq<Byte>)
      requires Valid()
      modifies this
      ensures Valid() && Contents() == old(Contents()) + buf
    {
      hide Text;
      count := count + |buf|;
      var i := 0;
      while i < |buf|
        invariant 0 <= i <= |buf| && AllValid(blocks)
        invariant count == old(count) + |buf| && Text(blocks) == old(Text(blocks)) + buf[..i]
      {
        var n := if |buf| - i > ACBUFSIZE then ACBUFSIZE else |buf| - i;
        var block := Block(0, n, buf[i..i + n] + seq(ACBUFSIZE - n, _ => 0));
        assert block.Text() == buf[i..i + n];
        BlockAdded(blocks, block, old(Text(blocks)), buf, i, n);
        blocks := blocks + [block];
        i := i + n;
      }
      assert buf[..|buf|] == buf;
    }

    /**
     Write everything out. A write takes as much of the first block as it likes, but at least one character; what was
     taken is in the order in which it was put.
     */
    method Drain() returns (written: seq<Byte>)
      requires Valid()
      modifies this
      ensures Valid() && Contents() == [] && count == 0
      ensures written == old(Contents())
    {
      written := [];
      while count > 0
        invariant Valid() && old(Contents()) == written + Contents()
        decreases count
      {
        EmptyIffZero(blocks);
        hide Text, Block.Valid;
        var b := blocks[0];
        var n: nat :| 1 <= n <= b.len;
        TakenText(blocks, n);
        written := written + b.Text()[..n];
        blocks := Taken(blocks, n);
        count := count - n;
      }
    }
  }

  lemma EmptyIffZero(blocks: seq<Block>)
    requires AllValid(blocks)
    ensures Text(blocks) == [] <==> blocks == []
  {
  }
}
