/** md5.cc: how data is buffered into 64-byte blocks, and counted. */
module Md5 {
  import opened ByteCursors

  const WORD: nat := 0x1_0000_0000
  const COUNT: nat := 0x1_0000_0000_0000_0000
  const BLOCK: nat := 64

  type Word = w: int | 0 <= w < 0x1_0000_0000 witness 0

  /** The four words of state. */
  datatype State = State(a: Word, b: Word, c: Word, d: Word)

  const START := State(0x67452301, 0xefcdab89, 0x98badcfe, 0x10325476)

  /** The initial words, as bytes from the lightest on: 01 23 45 67 and so on up, and down again. */
  lemma StartBytes()
    ensures START.a == Number(false, [0x01, 0x23, 0x45, 0x67]) && START.b == Number(false, [0x89, 0xab, 0xcd, 0xef])
    ensures START.c == Number(false, [0xfe, 0xdc, 0xba, 0x98]) && START.d == Number(false, [0x76, 0x54, 0x32, 0x10])
  {
    NumberOfFour(0x01, 0x23, 0x45, 0x67);
    NumberOfFour(0x89, 0xab, 0xcd, 0xef);
    NumberOfFour(0xfe, 0xdc, 0xba, 0x98);
    NumberOfFour(0x76, 0x54, 0x32, 0x10);
  }

  /** MD5Transform: any function of the state and a block. */
  type Transform = (State, seq<Byte>) -> State

  /** A whole context: state, count of bits, and the buffered block. */
  datatype Context = Context(state: State, bits: nat, input: seq<Byte>) {
    predicate Valid() {
      |input| == BLOCK && bits < COUNT
    }

    /** Bytes already in the block. */
    function Filled(): (t: nat)
      ensures t < BLOCK
    {
      bits / 8 % 64
    }

    /** One byte more; a block is transformed as soon as it is full. */
    function Feed(transform: Transform, b: Byte): (r: Context)
      requires Valid()
      ensures r.Valid()
    {
      var now := input[Filled() := b];
      Context(if Filled() == BLOCK - 1 then transform(state, now) else state, (bits + 8) % COUNT, now)
    }

    function FeedAll(transform: Transform, data: seq<Byte>): (r: Context)
      requires Valid()
      ensures r.Valid()
      decreases |data|
    {
      if data == [] then this else Feed(transform, data[0]).FeedAll(transform, data[1..])
    }
  }

  // ---------------------------------------------------------- counting bits

  lemma NextBits(bits: nat, n: nat)
    requires bits < COUNT
    ensures ((bits + 8) % COUNT + 8 * n) % COUNT == (bits + 8 * (n + 1)) % COUNT
    ensures (bits + 8) % COUNT / 8 % 64 == if bits / 8 % 64 == 63 then 0 else bits / 8 % 64 + 1
  {
    if bits + 8 < COUNT {
      assert (bits + 8) / 8 == bits / 8 + 1;
    } else {
      assert (bits + 8) % COUNT == bits + 8 - COUNT;
    }
  }

  /** Eight times a length, as a high and a low word. */
  lemma EightTimes(len: nat)
    ensures var add := len % WORD * 8 % WORD; 8 * len == len / 0x2000_0000 * WORD + add
  {
    var q, r := len / 0x2000_0000, len % 0x2000_0000;
    assert len == q * 0x2000_0000 + r;
    var k := q / 8;
    assert len % WORD == (q - 8 * k) * 0x2000_0000 + r by {
      assert len == k * WORD + ((q - 8 * k) * 0x2000_0000 + r);
    }
  }

  lemma Carry(low: nat, add: nat)
    requires low < WORD && add < WORD
    ensures var now := (low + add) % WORD; low + add == (if now < low then WORD else 0) + now
  {
    if low + add >= WORD {
      assert (low + add) % WORD == low + add - WORD;
    }
  }

  lemma HighHalf(h: nat, low: nat)
    requires low < WORD
    ensures (h * WORD + low) % COUNT == h % WORD * WORD + low
  {
    var q, r := h / WORD, h % WORD;
    assert h * WORD + low == q * COUNT + (r * WORD + low);
    WholeCounts(q, r * WORD + low);
  }

  lemma WholeCounts(q: nat, rest: nat)
    requires rest < COUNT
    ensures (q * COUNT + rest) % COUNT == rest
  {
  }

  lemma WordSum(a: nat, b: nat)
    ensures (a + b % WORD) % WORD == (a + b) % WORD
  {
    var q := b / WORD;
    assert a + b == (a + b % WORD) + q * WORD;
  }

  /** The two halves of the count, with a carry, count modulo 2^64. */
  lemma TwoHalves(low: nat, high: nat, len: nat)
    requires low < WORD && high < WORD
    ensures var now := (low + len % WORD * 8 % WORD) % WORD;
            var carry := if now < low then 1 else 0;
            (high + carry + len / 0x2000_0000 % WORD) % WORD * WORD + now == (high * WORD + low + 8 * len) % COUNT
  {
    var add := len % WORD * 8 % WORD;
    var now := (low + add) % WORD;
    var carry := if now < low then 1 else 0;
    EightTimes(len);
    Carry(low, add);
    var h := high + carry + len / 0x2000_0000;
    assert high * WORD + low + 8 * len == h * WORD + now;
    HighHalf(h, now);
    WordSum(high + carry, len / 0x2000_0000);
  }

  // ------------------------------------------------------------ many bytes

  lemma {:induction false} FeedConcat(ctx: Context, transform: Transform, a: seq<Byte>, b: seq<Byte>)
    requires ctx.Valid()
    ensures ctx.FeedAll(transform, a + b) == ctx.FeedAll(transform, a).FeedAll(transform, b)
    decreases |a|
  {
    if a == [] {
      assert a + b == b;
    } else {
      assert (a + b)[1..] == a[1..] + b;
      FeedConcat(ctx.Feed(transform, a[0]), transform, a[1..], b);
    }
  }

  /** The block with these bytes written at `t`. */
  function Patched(input: seq<Byte>, t: nat, data: seq<Byte>): seq<Byte>
    requires t + |data| <= |input|
  {
    input[..t] + data + input[t + |data|..]
  }

  lemma PatchedNext(input: seq<Byte>, t: nat, data: seq<Byte>)
    requires data != [] && t + |data| <= |input|
    ensures Patched(input[t := data[0]], t + 1, data[1..]) == Patched(input, t, data)
  {
  }

  /** Bytes that do not fill the block are only buffered. */
  lemma {:induction false} FeedWithin(ctx: Context, transform: Transform, data: seq<Byte>)
    requires ctx.Valid() && ctx.Filled() + |data| < BLOCK
    ensures ctx.FeedAll(transform, data) ==
            Context(ctx.state, (ctx.bits + 8 * |data|) % COUNT, Patched(ctx.input, ctx.Filled(), data))
    ensures ctx.FeedAll(transform, data).Filled() == ctx.Filled() + |data|
    decreases |data|
  {
    if data == [] {
      assert Patched(ctx.input, ctx.Filled(), data) == ctx.input;
    } else {
      NextBits(ctx.bits, |data| - 1);
      FeedWithin(ctx.Feed(transform, data[0]), transform, data[1..]);
      PatchedNext(ctx.input, ctx.Filled(), data);
    }
  }

  /** Bytes that fill the block exactly transform it. */
  lemma {:induction false} FeedBlock(ctx: Context, transform: Transform, data: seq<Byte>)
    requires ctx.Valid() && data != [] && ctx.Filled() + |data| == BLOCK
    ensures var block := Patched(ctx.input, ctx.Filled(), data);
            ctx.FeedAll(transform, data) == Context(transform(ctx.state, block), (ctx.bits + 8 * |data|) % COUNT, block)
    ensures ctx.FeedAll(transform, data).Filled() == 0
    decreases |data|
  {
    if |data| > 1 {
      NextBits(ctx.bits, |data| - 1);
      FeedBlock(ctx.Feed(transform, data[0]), transform, data[1..]);
      PatchedNext(ctx.input, ctx.Filled(), data);
    } else {
      FeedLast(ctx, transform, data);
    }
  }

  lemma FeedLast(ctx: Context, transform: Transform, data: seq<Byte>)
    requires ctx.Valid() && |data| == 1 && ctx.Filled() == BLOCK - 1
    ensures var block := Patched(ctx.input, ctx.Filled(), data);
            ctx.FeedAll(transform, data) == Context(transform(ctx.state, block), (ctx.bits + 8) % COUNT, block)
    ensures ctx.FeedAll(transform, data).Filled() == 0
  {
    NextBits(ctx.bits, 0);
    assert data[1..] == [];
    assert ctx.FeedAll(transform, data) == ctx.Feed(transform, data[0]);
    assert Patched(ctx.input, ctx.Filled(), data) == ctx.input[ctx.Filled() := data[0]];
  }

  lemma {:induction false} FeedBits(ctx: Context, transform: Transform, data: seq<Byte>)
    requires ctx.Valid()
    ensures ctx.FeedAll(transform, data).bits == (ctx.bits + 8 * |data|) % COUNT
    decreases |data|
  {
    if data != [] {
      NextBits(ctx.bits, |data| - 1);
      FeedBits(ctx.Feed(transform, data[0]), transform, data[1..]);
    }
  }

  /** The state once all whole 64-byte blocks of a stream have been transformed, in order. */
  function Transformed(transform: Transform, state: State, data: seq<Byte>): State
    decreases |data|
  {
    if |data| < 64 then state else Transformed(transform, transform(state, data[..64]), data[64..])
  }

  lemma BlockFed(ctx: Context, transform: Transform, data: seq<Byte>)
    requires ctx.Valid() && ctx.Filled() == 0 && 64 <= |data|
    ensures var next := ctx.FeedAll(transform, data[..64]);
            && next.Filled() == 0 && next.state == transform(ctx.state, data[..64])
            && ctx.FeedAll(transform, data) == next.FeedAll(transform, data[64..])
  {
    assert data == data[..64] + data[64..];
    FeedConcat(ctx, transform, data[..64], data[64..]);
    FeedBlock(ctx, transform, data[..64]);
    assert Patched(ctx.input, 0, data[..64]) == data[..64];
  }

  /** What is left over when whole blocks have been taken. */
  function Leftover(data: seq<Byte>): seq<Byte> {
    data[|data| - |data| % 64..]
  }

  lemma SameLeftover(data: seq<Byte>)
    requires 64 <= |data|
    ensures |data[64..]| % 64 == |data| % 64 && Leftover(data[64..]) == Leftover(data)
  {
  }

  /** A stream fed to an empty block: its whole blocks are transformed, the rest is at the
      start of the block, and eight bits are counted for each byte. */
  lemma {:induction false} StreamFed(ctx: Context, transform: Transform, data: seq<Byte>)
    requires ctx.Valid() && ctx.Filled() == 0
    ensures var r := ctx.FeedAll(transform, data);
            && r.state == Transformed(transform, ctx.state, data)
            && r.bits == (ctx.bits + 8 * |data|) % 0x1_0000_0000_0000_0000
            && r.Filled() == |data| % 64 && r.input[..|data| % 64] == Leftover(data)
    decreases |data|
  {
    FeedBits(ctx, transform, data);
    if |data| < 64 {
      FeedWithin(ctx, transform, data);
    } else {
      BlockFed(ctx, transform, data);
      StreamFed(ctx.FeedAll(transform, data[..64]), transform, data[64..]);
      SameLeftover(data);
    }
  }

  // ----------------------------------------------------------------- the code

  class MD5Context {
    const transform: Transform
    var buf: State
    var bits0: Word
    var bits1: Word
    const input: array<Byte>

    ghost predicate Valid()
      reads this, input
    {
      input.Length == BLOCK
    }

    ghost function Value(): Context
      reads this, input
    {
      Context(buf, bits1 * WORD + bits0, input[..])
    }

    /** MD5Init leaves the block as it was. */
    constructor (transform: Transform, input: array<Byte>)
      requires input.Length == BLOCK
      ensures Valid() && this.transform == transform && this.input == input
      ensures Value() == Context(START, 0, old(input[..]))
    {
      this.transform, this.input := transform, input;
      buf := START;
      bits0, bits1 := 0, 0;
    }

    /** The count goes up by eight a byte, modulo 2^64. */
    method UpdateBitcount(len: nat) returns (t: nat)
      requires Valid()
      modifies this`bits0, this`bits1
      ensures bits1 * WORD + bits0 == (old(bits1) * WORD + old(bits0) + 8 * len) % COUNT
      ensures t == old(Value()).Filled()
    {
      TwoHalves(bits0, bits1, len);
      ghost var low, high := bits0, bits1;
      t := bits0;
      bits0 := (t + len % WORD * 8 % WORD) % WORD;
      if bits0 < t {
        bits1 := (bits1 + 1) % WORD;
      }
      WordSums(high, if bits0 < low then 1 else 0, len / 0x2000_0000 % WORD);
      bits1 := (bits1 + len / 0x2000_0000 % WORD) % WORD;
      FilledLow(low, high);
      t := t / 8 % 64;
    }

    /** memcpy into the block */
    method CopyIn(at: nat, data: seq<Byte>)
      requires Valid() && at + |data| <= BLOCK
      modifies input
      ensures input[..] == Patched(old(input[..]), at, data)
    {
      forall i | 0 <= i < |data| {
        input[at + i] := data[i];
      }
    }

    method MD5Update(data: seq<Byte>)
      requires Valid()
      modifies this`buf, this`bits0, this`bits1, input
      ensures Valid() && Value() == old(Value()).FeedAll(transform, data)
    {
      ghost var was := Value();
      var t := UpdateBitcount(|data|);
      FeedBits(was, transform, data);
      var done: nat := 0;
      assert data[..0] == [];
      if t != 0 {
        t := 64 - t;
        if |data| < t {
          FeedWithin(was, transform, data);
          CopyIn(64 - t, data);
          return;
        }
        FeedBlock(was, transform, data[..t]);
        CopyIn(64 - t, data[..t]);
        buf := transform(buf, input[..]);
        done := t;
      }
      while |data| - done >= 64
        invariant done <= |data| && Fed(was, data, done)
        invariant bits1 * WORD + bits0 == was.FeedAll(transform, data).bits
      {
        BlockNext(was, transform, data, done);
        CopyIn(0, data[done..done + 64]);
        buf := transform(buf, input[..]);
        done := done + 64;
      }
      RestNext(was, transform, data, done);
      CopyIn(0, data[done..]);
    }

    /** State and block are as after so many bytes, at the start of a block. */
    ghost predicate Fed(was: Context, data: seq<Byte>, done: nat)
      reads this`buf, input
      requires was.Valid() && done <= |data|
    {
      var now := was.FeedAll(transform, data[..done]);
      now.Filled() == 0 && buf == now.state && input[..] == now.input
    }
  }

  lemma FilledLow(low: Word, high: Word)
    ensures (high * WORD + low) / 8 % 64 == low / 8 % 64
  {
    assert (high * WORD + low) / 8 == high * 0x2000_0000 + low / 8;
    Multiple64(high * 0x80_0000, low / 8);
  }

  lemma Multiple64(k: nat, n: nat)
    ensures (64 * k + n) % 64 == n % 64
  {
  }

  lemma WordSums(a: nat, b: nat, c: nat)
    requires b <= 1
    ensures ((a + b) % WORD + c) % WORD == (a + b + c) % WORD
    ensures (a % WORD + c) % WORD == (a + c) % WORD
  {
    WordSum(c, a + b);
    WordSum(c, a);
  }

  lemma BlockNext(was: Context, transform: Transform, data: seq<Byte>, done: nat)
    requires was.Valid() && done + 64 <= |data| && was.FeedAll(transform, data[..done]).Filled() == 0
    ensures var now, next := was.FeedAll(transform, data[..done]), was.FeedAll(transform, data[..done + 64]);
            var block := Patched(now.input, 0, data[done..done + 64]);
            next.Filled() == 0 && next.state == transform(now.state, block) && next.input == block
  {
    assert data[..done] + data[done..done + 64] == data[..done + 64];
    FeedConcat(was, transform, data[..done], data[done..done + 64]);
    FeedBlock(was.FeedAll(transform, data[..done]), transform, data[done..done + 64]);
  }

  lemma RestNext(was: Context, transform: Transform, data: seq<Byte>, done: nat)
    requires was.Valid() && done <= |data| < done + 64 && was.FeedAll(transform, data[..done]).Filled() == 0
    ensures var now, next := was.FeedAll(transform, data[..done]), was.FeedAll(transform, data);
            next.state == now.state && next.input == Patched(now.input, 0, data[done..])
  {
    assert data[..done] + data[done..] == data;
    FeedConcat(was, transform, data[..done], data[done..]);
    FeedWithin(was.FeedAll(transform, data[..done]), transform, data[done..]);
  }
}
