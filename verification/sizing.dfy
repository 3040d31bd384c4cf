/** How the receiver sizes its buffers (lfutil/src/net/conncb.cpp): attachments, response buffers and draining. */
module Sizing {
  import opened Words

  /** The size limit of one receive buffer. */
  type Limit = n: nat | 0 < n < 0x8000_0000 witness 1

  function Blocks(len: nat, block: Limit): nat { (len + block - 1) / block }

  /** Buffers for len bytes: full blocks and then what is left. */
  function Sizes(len: nat, block: Limit): (r: seq<nat>)
    requires len > 0
    ensures Sum(r) == len && |r| > 0
    ensures forall i :: 0 <= i < |r| ==> 0 < r[i] <= block
  {
    if len <= block then [len] else [block] + Sizes(len - block, block)
  }

  /** All blocks but the last are full. */
  lemma {:induction false} SizesAreFull(len: nat, block: Limit)
    requires len > 0
    ensures forall i :: 0 <= i < |Sizes(len, block)| - 1 ==> Sizes(len, block)[i] == block
  {
    if len > block {
      SizesAreFull(len - block, block);
    }
  }

  function Repeat(x: nat, n: nat): seq<nat> {
    if n == 0 then [] else [x] + Repeat(x, n - 1)
  }

  lemma {:induction false} RepeatSnoc(x: nat, n: nat)
    ensures Repeat(x, n + 1) == Repeat(x, n) + [x]
  {
    if n > 0 {
      RepeatSnoc(x, n - 1);
    }
  }

  lemma {:induction false} RepeatSum(x: nat, n: nat)
    ensures Sum(Repeat(x, n)) == n * x && |Repeat(x, n)| == n
    ensures forall i :: 0 <= i < n ==> Repeat(x, n)[i] == x
  {
    if n > 0 {
      RepeatSum(x, n - 1);
    }
  }

  lemma BlocksStep(len: nat, block: Limit)
    ensures len == 0 ==> Blocks(len, block) == 0
    ensures 0 < len <= block ==> Blocks(len, block) == 1
    ensures len > block ==> Blocks(len, block) == Blocks(len - block, block) + 1
  {
    if len == 0 {
      Remainder(block, 0, block - 1, len + block - 1);
    } else if len <= block {
      Remainder(block, 1, len - 1, len + block - 1);
    } else {
      var q, r := (len - 1) / block, (len - 1) % block;
      assert len - 1 == block * q + r && block * (q + 1) == block * q + block;
      Remainder(block, q + 1, r, len + block - 1);
    }
  }

  lemma {:induction false} BlocksBounds(len: nat, block: Limit)
    requires len > 0
    ensures Blocks(len, block) >= 1
    ensures block * (Blocks(len, block) - 1) < len <= block * Blocks(len, block)
    decreases len
  {
    BlocksStep(len, block);
    if len > block {
      BlocksBounds(len - block, block);
      var n := Blocks(len, block);
      assert block * n == block * (n - 1) + block && block * (n - 1) == block * (n - 2) + block;
    }
  }

  lemma OneBlock(len: nat, block: Limit)
    requires len > 0
    ensures Blocks(len, block) >= 1 && (Blocks(len, block) == 1 <==> len <= block)
  {
    BlocksStep(len, block);
    if len > block {
      BlocksBounds(len - block, block);
    }
  }

  /** The closed form the allocation loop follows. */
  lemma {:induction false} SizesAreBlocks(len: nat, block: Limit)
    requires len > 0
    ensures |Sizes(len, block)| == Blocks(len, block) >= 1
    ensures 0 < len - block * (Blocks(len, block) - 1)
    ensures Sizes(len, block) == Repeat(block, Blocks(len, block) - 1) + [len - block * (Blocks(len, block) - 1)]
    decreases len
  {
    BlocksStep(len, block);
    if len > block {
      SizesAreBlocks(len - block, block);
      var n := Blocks(len, block);
      assert block * (n - 1) == block * (n - 2) + block;
      assert Repeat(block, n - 1) == [block] + Repeat(block, n - 2);
    }
  }

  /** allocAttachIoVecs: full blocks, then one of the remaining length. */
  method AllocAttachIoVecs(mems: seq<nat>, baseLen: nat, block: Limit) returns (grown: seq<nat>)
    requires baseLen > 0
    ensures grown == mems + Sizes(baseLen, block)
  {
    hide Sizes, Repeat;
    SizesAreBlocks(baseLen, block);
    RepeatSum(block, 0);
    var blockCount := (baseLen + block - 1) / block;
    assert (blockCount - 1) * block == block * (blockCount - 1);
    grown := mems;
    for i := 0 to blockCount - 1
      invariant grown == mems + Repeat(block, i)
    {
      RepeatSnoc(block, i);
      grown := grown + [block];
    }
    var lastSize := baseLen - (blockCount - 1) * block;
    grown := grown + [lastSize];
  }

  // ---------- response buffers

  /** The caller's buffers shortened to hold no more than left bytes. */
  function Truncate(user: seq<nat>, left: int): (r: seq<nat>)
    ensures |r| == |user|
  {
    if user == [] then []
    else if left <= 0 then [0] + Truncate(user[1..], 0)
    else if user[0] > left then [left] + Truncate(user[1..], 0)
    else [user[0]] + Truncate(user[1..], left - user[0])
  }

  lemma {:induction false} TruncateSum(user: seq<nat>, left: int)
    requires left <= Sum(user)
    ensures Sum(Truncate(user, left)) == if left > 0 then left else 0
  {
    if user != [] {
      TruncateSum(user[1..], if left <= 0 || user[0] > left then 0 else left - user[0]);
    }
  }

  /** Each buffer keeps its place and takes what the ones before it have left over. */
  lemma {:induction false} TruncateFills(user: seq<nat>, left: int, i: nat)
    requires i < |user|
    ensures var rest := left - Sum(user[..i]);
      Truncate(user, left)[i] == if rest <= 0 then 0 else if user[i] > rest then rest else user[i]
  {
    if i > 0 {
      assert user[..i] == [user[0]] + user[1..][..i - 1];
      var left' := if left <= 0 || user[0] > left then 0 else left - user[0];
      TruncateFills(user[1..], left', i - 1);
    }
  }

  /** The buffers a response attachment of attLen bytes is received into. */
  function ResponseSizes(user: seq<nat>, attLen: u32, block: Limit): seq<nat>
    requires attLen > 0
  {
    var total := Wrap32(Sum(user));
    if user == [] then Sizes(attLen, block)
    else if total == attLen then user
    else if total > attLen then Truncate(user, Signed32(attLen))
    else user + Sizes(attLen - total, block)
  }

  /** The sizes add up exactly when no 32-bit sum or signed length in the code wraps. */
  lemma ResponseSizesConserve(user: seq<nat>, attLen: u32, block: Limit)
    requires attLen > 0
    ensures Sum(ResponseSizes(user, attLen, block)) == attLen
       <==> if Wrap32(Sum(user)) > attLen then attLen < TWO31 else Sum(user) < TWO32
  {
    var total := Wrap32(Sum(user));
    assert total <= Sum(user) && (Sum(user) < TWO32 ==> total == Sum(user));
    if user != [] {
      if total > attLen {
        TruncateSum(user, Signed32(attLen));
      } else if total < attLen {
        SumAppend(user, Sizes(attLen - total, block));
      }
    }
  }

  /** No caller buffer is enlarged or moved, and every added one is a positive block. */
  lemma ResponseSizesRespectCaller(user: seq<nat>, attLen: u32, block: Limit)
    requires attLen > 0
    ensures var r := ResponseSizes(user, attLen, block);
      |user| <= |r| && |r| > 0
      && (forall i :: 0 <= i < |user| ==> r[i] <= user[i])
      && (forall i :: |user| <= i < |r| ==> 0 < r[i] <= block)
      && (forall i :: |user| <= i < |r| - 1 ==> r[i] == block)
      && (Sum(user) <= attLen ==> user <= r && (Sum(user) == attLen && user != [] ==> r == user))
  {
    forall i | 0 <= i < |user|
      ensures ResponseSizes(user, attLen, block)[i] <= user[i]
    {
      TruncateFills(user, Signed32(attLen), i);
    }
    if user == [] {
      SizesAreFull(attLen, block);
    } else if Wrap32(Sum(user)) < attLen {
      SizesAreFull(attLen - Wrap32(Sum(user)), block);
    }
  }

  lemma WrapAdd(a: nat, b: nat)
    ensures Wrap32(Wrap32(a) + b) == Wrap32(a + b)
  {
    var q := a / TWO32;
    assert a == TWO32 * q + a % TWO32;
    var q', r := (a % TWO32 + b) / TWO32, (a % TWO32 + b) % TWO32;
    assert a + b == TWO32 * (q + q') + r;
    Remainder(TWO32, q + q', r, a + b);
  }

  /** recvPrepareRspAttach. */
  method PrepareRspAttach(user: seq<nat>, attLen: u32, block: Limit) returns (mems: seq<nat>)
    requires attLen > 0
    ensures mems == ResponseSizes(user, attLen, block)
  {
    mems := user;
    if |mems| == 0 {
      mems := AllocAttachIoVecs(mems, attLen, block);
    } else {
      var allocLen: u32 := 0;
      for i := 0 to |mems|
        invariant allocLen == Wrap32(Sum(user[..i]))
      {
        WrapAdd(Sum(user[..i]), user[i]);
        assert user[..i + 1] == user[..i] + [user[i]];
        SumAppend(user[..i], [user[i]]);
        allocLen := Wrap32(allocLen + mems[i]);
      }
      assert user[..|user|] == user;
      if allocLen == attLen {
      } else if allocLen > attLen {
        mems := TruncateAttach(user, Signed32(attLen));
      } else {
        mems := AllocAttachIoVecs(mems, attLen - allocLen, block);
      }
    }
  }

  /** The truncating loops, in place on the sizes. */
  method TruncateAttach(user: seq<nat>, left: int) returns (mems: seq<nat>)
    requires left <= Sum(user)
    ensures mems == Truncate(user, left)
  {
    hide Truncating, Truncate, Sum, Repeat;
    mems := user;
    var leftSize := left;
    var i := 0;
    TruncatingBegins(user, left);
    while leftSize > 0
      invariant 0 <= i <= |user| == |mems| && Truncating(user, left, mems, i, leftSize)
      decreases |user| - i
    {
      TruncatingStep(user, left, mems, i, leftSize);
      if mems[i] > leftSize {
        mems := mems[i := leftSize];
        leftSize := 0;
        i := i + 1;
        break;
      } else {
        leftSize := leftSize - mems[i];
      }
      i := i + 1;
    }
    TruncatingEnds(user, left, mems, i, leftSize);
    mems := ZeroFrom(mems, i);
  }

  /** The first i sizes are settled, and left bytes remain for the others. */
  ghost predicate Truncating(user: seq<nat>, all: int, mems: seq<nat>, i: nat, left: int) {
    i <= |user| == |mems| && mems[i..] == user[i..] && left <= Sum(user[i..])
    && Truncate(user, all) == mems[..i] + Truncate(user[i..], left)
  }

  lemma TruncatingBegins(user: seq<nat>, all: int)
    requires all <= Sum(user)
    ensures Truncating(user, all, user, 0, all)
  {
    assert user[0..] == user;
  }

  lemma TruncatingStep(user: seq<nat>, all: int, mems: seq<nat>, i: nat, left: int)
    requires Truncating(user, all, mems, i, left) && left > 0
    ensures i < |user|
    ensures if mems[i] > left then Truncating(user, all, mems[i := left], i + 1, 0)
            else Truncating(user, all, mems, i + 1, left - mems[i])
  {
    hide Truncate, Sum;
    TruncateStep(user[i..], left);
    assert user[i..][1..] == user[i + 1..] && mems[i] == mems[i..][0];
    assert mems[..i + 1] == mems[..i] + [mems[i]];
    assert mems[i := left][..i + 1] == mems[..i] + [left];
  }

  lemma TruncatingEnds(user: seq<nat>, all: int, mems: seq<nat>, i: nat, left: int)
    requires Truncating(user, all, mems, i, left) && left <= 0
    ensures Truncate(user, all) == mems[..i] + Repeat(0, |user| - i)
  {
    TruncateNone(user[i..], left);
  }

  method ZeroFrom(sizes: seq<nat>, from: nat) returns (mems: seq<nat>)
    requires from <= |sizes|
    ensures mems == sizes[..from] + Repeat(0, |sizes| - from)
  {
    mems := sizes;
    for i := from to |mems|
      invariant |mems| == |sizes| && mems[..i] == sizes[..from] + Repeat(0, i - from)
    {
      RepeatSnoc(0, i - from);
      mems := mems[i := 0];
      assert mems[..i + 1] == mems[..i] + [0];
    }
    assert mems[..|mems|] == mems;
  }

  lemma TruncateStep(user: seq<nat>, left: int)
    requires 0 < left <= Sum(user)
    ensures |user| > 0 && left - user[0] <= Sum(user[1..])
    ensures Truncate(user, left)
         == if user[0] > left then [left] + Truncate(user[1..], 0) else [user[0]] + Truncate(user[1..], left - user[0])
  {
  }

  lemma {:induction false} TruncateNone(user: seq<nat>, left: int)
    requires left <= 0
    ensures Truncate(user, left) == Repeat(0, |user|)
  {
    if user != [] {
      TruncateNone(user[1..], 0);
    }
  }

  // ---------- draining

  /** The vectors still to come when remain of them, the current one included, are left of len bytes. */
  function DrainTail(remain: nat, len: nat, block: Limit): seq<nat> {
    if remain <= 1 then [] else if remain == 2 then [len % block] else [block] + DrainTail(remain - 1, len, block)
  }

  function DrainSizes(len: nat, block: Limit): seq<nat> {
    [if block > len then len else block] + DrainTail(Blocks(len, block), len, block)
  }

  /** What a drain of len bytes really takes from the stream. */
  function Drained(len: nat, block: Limit): nat { Sum(DrainSizes(len, block)) }

  lemma {:induction false} DrainTailSum(remain: nat, len: nat, block: Limit)
    requires remain >= 2
    ensures Sum(DrainTail(remain, len, block)) == block * (remain - 2) + len % block
  {
    if remain > 2 {
      DrainTailSum(remain - 1, len, block);
      assert block * (remain - 2) == block * (remain - 3) + block;
    }
  }

  /** A drain is exact if and only if it fits one block or is no multiple of the block; otherwise it is a block short. */
  lemma DrainedExactly(len: nat, block: Limit)
    requires len > 0
    ensures Drained(len, block) == len <==> len <= block || len % block != 0
    ensures Drained(len, block) == len || Drained(len, block) == len - block
  {
    BlocksStep(len, block);
    if len > block {
      BlocksBounds(len, block);
      var n := Blocks(len, block);
      DrainTailSum(n, len, block);
      assert Drained(len, block) == block + (block * (n - 2) + len % block);
      var r := len - block * (n - 1);
      assert block * n == block * (n - 1) + block && block * (n - 1) == block * (n - 2) + block;
      if r < block {
        Remainder(block, n - 1, r, len);
        assert len % block == r && Drained(len, block) == len;
      } else {
        Remainder(block, n, 0, len);
        assert len % block == 0 && Drained(len, block) == len - block;
      }
    } else {
      assert DrainSizes(len, block) == [len];
      assert Sum([len]) == len + Sum([]);
    }
  }

  /** Two full blocks: the second one is never read. */
  lemma TwoBlocksLoseOne(block: Limit)
    ensures Drained(2 * block, block) == block
  {
    Remainder(block, 2, 0, 2 * block);
    DrainedExactly(2 * block, block);
  }

  /** A response of 2^31 bytes into slightly larger buffers: the signed length is negative and nothing is received. */
  lemma HugeResponseLosesAll(block: Limit)
    ensures Sum(ResponseSizes([0x7FFF_FFFF, 2], 0x8000_0000, block)) == 0
  {
    var user: seq<nat> := [0x7FFF_FFFF, 2];
    assert Sum(user) == user[0] + Sum(user[1..]) && user[1..] == [2] && Sum([2]) == 2 + Sum([]);
    TruncateSum(user, Signed32(0x8000_0000));
  }
}
