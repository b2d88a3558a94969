// md5.c: the MD5 digest of a message that arrives in pieces. The block function
// (section 3.4 of RFC 1321) is a parameter: what is proved is the buffering, the
// counting and the padding around it.
module Md5 {
  import opened HashBuffer

  datatype Chain = Chain(a: nat, b: nat, c: nat, d: nat)

  // Section 3.3 of RFC 1321.
  const INIT := Chain(0x67452301, 0xefcdab89, 0x98badcfe, 0x10325476)

  // Sections 3.1 and 3.2 of RFC 1321.
  function Padded(msg: seq<byte>): (p: seq<byte>)
    ensures |p| % 64 == 0
  {
    assert (|msg| + PadLength(|msg|) + 8) % 64 == 0;
    msg + Fill(PadLength(|msg|)) + LittleEndian32(BitsLow(|msg|)) + LittleEndian32(BitsHigh(|msg|))
  }

  lemma PaddedMeans(msg: seq<byte>) returns (digits: seq<nat>)
    ensures PaddedRight(msg, Padded(msg), digits) && LittleEndianNumber(digits) == 8 * |msg| % 0x1_0000_0000_0000_0000
  {
    hide LittleEndianNumber, Spells, Digits32, Backwards, LittleEndian32, Fill, PadLength, BitsHigh, BitsLow, PaddedRight;
    var n, m := BitsHigh(|msg|), BitsLow(|msg|);
    var high, low := Backwards(Digits32(n)), Backwards(Digits32(m));
    digits := low + high;
    LengthDigits(|msg|);
    Word32Spelled(n);
    Word32Spelled(m);
    SpellsJoined(LittleEndian32(m), low, LittleEndian32(n), high);
    PadMeans(msg, LittleEndian32(m) + LittleEndian32(n), digits);
    assert Padded(msg) == msg + Fill(PadLength(|msg|)) + (LittleEndian32(m) + LittleEndian32(n));
  }

  // Section 3.3 of RFC 1321 gives the initial value by bytes, the low byte first: they
  // count up by 0x22, and then down again.
  lemma InitMeans()
    ensures INIT.a == 0x01 + 0x100 * (0x23 + 0x100 * (0x45 + 0x100 * 0x67))
    ensures INIT.b == 0x89 + 0x100 * (0xab + 0x100 * (0xcd + 0x100 * 0xef))
    ensures INIT.c == 0xfe + 0x100 * (0xdc + 0x100 * (0xba + 0x100 * 0x98))
    ensures INIT.d == 0x76 + 0x100 * (0x54 + 0x100 * (0x32 + 0x100 * 0x10))
  {
  }

  // The digest is the four numbers, the low byte of each first.
  lemma OutputMeans(h: Chain) returns (a: seq<nat>, b: seq<nat>, c: seq<nat>, d: seq<nat>)
    ensures |a| == |b| == |c| == |d| == 4 && Spells(Output(h), a + b + c + d)
    ensures LittleEndianNumber(a) == h.a % WORD && LittleEndianNumber(b) == h.b % WORD
    ensures LittleEndianNumber(c) == h.c % WORD && LittleEndianNumber(d) == h.d % WORD
  {
    a, b, c, d := Backwards(Digits32(h.a)), Backwards(Digits32(h.b)), Backwards(Digits32(h.c)), Backwards(Digits32(h.d));
    assert LittleEndianNumber([]) == 0;
    hide LittleEndianNumber, Spells, Digits32, Backwards, LittleEndian32;
    WordMeans(h.a);
    WordMeans(h.b);
    WordMeans(h.c);
    WordMeans(h.d);
    SpellsJoined(LittleEndian32(h.a), a, LittleEndian32(h.b), b);
    SpellsJoined(LittleEndian32(h.a) + LittleEndian32(h.b), a + b, LittleEndian32(h.c), c);
    SpellsJoined(LittleEndian32(h.a) + LittleEndian32(h.b) + LittleEndian32(h.c), a + b + c, LittleEndian32(h.d), d);
  }

  lemma WordMeans(n: nat)
    ensures Spells(LittleEndian32(n), Backwards(Digits32(n))) && LittleEndianNumber(Backwards(Digits32(n))) == n % WORD
  {
    assert LittleEndianNumber([]) == 0;
    hide LittleEndianNumber, Spells, Digits32, Backwards, LittleEndian32;
    Word32Spelled(n);
    Word32Numbers(n, []);
    assert Backwards(Digits32(n)) + [] == Backwards(Digits32(n));
  }

  // md5_read_ctx
  function Output(h: Chain): seq<byte> {
    LittleEndian32(h.a) + LittleEndian32(h.b) + LittleEndian32(h.c) + LittleEndian32(h.d)
  }

  function Digest(block: (Chain, seq<byte>) -> Chain, msg: seq<byte>): seq<byte> {
    Output(Fold(block, INIT, Padded(msg)))
  }

  class Context {
    const block: (Chain, seq<byte>) -> Chain
    var chain: Chain
    var total0: nat
    var total1: nat
    var buflen: nat
    const buffer: array<byte>

    // md5_init_ctx
    constructor (block: (Chain, seq<byte>) -> Chain)
      ensures this.block == block && fresh(buffer) && Holds([]) && Counted([])
    {
      this.block := block;
      chain := INIT;
      total0, total1, buflen := 0, 0, 0;
      buffer := new byte[128];
      new;
      RepresentsNothing(block, INIT);
    }

    ghost predicate Valid()
      reads this
    {
      buffer.Length == 128 && total0 < WORD && total1 < WORD && buflen <= 64
    }

    // The bytes of msg were given to this context, in whatever pieces.
    ghost predicate Holds(msg: seq<byte>)
      reads this, buffer
    {
      Valid() && Represents(block, INIT, chain, buffer[..buflen], msg)
    }

    // The two-word counter has the length of the folded blocks, modulo 2^64.
    ghost predicate Counted(msg: seq<byte>)
      reads this
    {
      buflen <= |msg| && CountIs(total0, total1, |msg| - buflen)
    }

    // md5_process_block
    method ProcessBlock(data: seq<byte>)
      requires |data| % 64 == 0 && total0 < WORD && total1 < WORD
      modifies this`chain, this`total0, this`total1
      ensures chain == Fold(block, old(chain), data)
      ensures total0 == AddLow(old(total0), |data|) && total1 == AddHigh(old(total0), old(total1), |data|)
      ensures total0 < WORD && total1 < WORD
    {
      total0 := (total0 + |data|) % WORD;
      if total0 < |data| {
        total1 := (total1 + 1) % WORD;
      }
      var rest := data;
      while rest != []
        invariant |rest| % 64 == 0
        invariant total0 == AddLow(old(total0), |data|) && total1 == AddHigh(old(total0), old(total1), |data|)
        invariant Fold(block, chain, rest) == Fold(block, old(chain), data)
        decreases |rest|
      {
        chain := block(chain, rest[..64]);
        rest := rest[64..];
      }
    }

    // As Holds, while up to two blocks are waiting.
    ghost predicate Filled(msg: seq<byte>)
      reads this, buffer
    {
      && buffer.Length == 128 && total0 < WORD && total1 < WORD && buflen <= 128
      && Represents(block, INIT, chain, buffer[..buflen], msg)
    }

    // Puts more bytes behind those that wait.
    method Append(data: seq<byte>, ghost msg: seq<byte>)
      requires Holds(msg) && buflen + |data| <= 128
      modifies this`buflen, buffer
      ensures Filled(msg + data) && buflen == old(buflen) + |data|
    {
      hide Represents;
      Buffered(block, INIT, chain, buffer[..buflen], msg, data);
      CopyInto(buffer, buflen, data);
      buflen := buflen + |data|;
      assert buffer[..buflen] == old(buffer[..buflen]) + data;
    }

    // Folds the whole blocks in the buffer and moves what is left to its front.
    method FlushWhole(ghost msg: seq<byte>)
      requires Filled(msg)
      modifies this, buffer
      ensures Holds(msg) && buflen == old(buflen) % 64
      ensures old(Counted(msg)) ==> Counted(msg)
    {
      hide Represents, Fold, CountIs, AddLow, AddHigh;
      var left := buflen % 64;
      var whole := buflen - left;
      ghost var waiting := buffer[..buflen];
      assert waiting == waiting[..whole] + waiting[whole..];
      Flushed(block, INIT, chain, waiting[..whole], waiting[whole..], msg);
      if Counted(msg) { CountMoves(total0, total1, |msg| - buflen, whole); }
      assert buffer[..whole] == waiting[..whole];
      ProcessBlock(buffer[..whole]);
      buflen := left;
      CopyInto(buffer, 0, buffer[whole..whole + left]);
      assert buffer[..buflen] == waiting[whole..];
    }

    // The first part of md5_process_bytes: fill up what is already buffered, and
    // fold it when it holds more than one block.
    method FillBuffer(data: seq<byte>, ghost msg: seq<byte>) returns (add: nat)
      requires Holds(msg)
      modifies this, buffer
      ensures add <= |data| && (add < |data| ==> buflen == 0)
      ensures Holds(msg + data[..add])
      ensures old(Counted(msg)) ==> Counted(msg + data[..add])
    {
      hide Represents;
      add := 0;
      assert msg + data[..0] == msg;
      if buflen != 0 {
        add := if 128 - buflen > |data| then |data| else 128 - buflen;
        Append(data[..add], msg);
        if buflen > 64 {
          FlushWhole(msg + data[..add]);
        }
      }
    }

    // Whole blocks straight from the caller's data.
    method ProcessDirect(blocks: seq<byte>, ghost msg: seq<byte>)
      requires Holds(msg) && buflen == 0 && |blocks| % 64 == 0
      modifies this`chain, this`total0, this`total1
      ensures Holds(msg + blocks)
      ensures old(Counted(msg)) && |blocks| < WORD ==> Counted(msg + blocks)
    {
      hide Represents, Fold, CountIs, AddLow, AddHigh;
      Direct(block, INIT, chain, msg, blocks);
      assert buffer[..0] == [];
      if Counted(msg) && |blocks| < WORD { CountMoves(total0, total1, |msg|, |blocks|); }
      ProcessBlock(blocks);
    }

    // md5_process_bytes. Whole blocks are folded only while more bytes follow, so a
    // full block may stay in the buffer.
    method ProcessBytes(data: seq<byte>, ghost msg: seq<byte>)
      requires Holds(msg)
      modifies this, buffer
      ensures Holds(msg + data)
      ensures old(Counted(msg)) && |data| < WORD ==> Counted(msg + data)
    {
      hide Represents;
      var add := FillBuffer(data, msg);
      ghost var now := msg + data[..add];
      var rest := data[add..];
      assert now + rest == msg + data;
      if |rest| > 64 {
        var whole := |rest| - |rest| % 64;
        ProcessDirect(rest[..whole], now);
        assert now + rest == now + rest[..whole] + rest[whole..];
        now := now + rest[..whole];
        rest := rest[whole..];
      }
      if |rest| > 0 {
        Append(rest, now);
      } else {
        assert now + rest == now;
      }
    }

    // The padding and the length in bits, after the bytes that still wait.
    method WriteTail(pad: nat)
      requires buffer.Length == 128 && buflen + pad + 8 <= 128 && total0 < WORD && total1 < WORD
      modifies buffer
      ensures buffer[..buflen + pad + 8]
           == old(buffer[..buflen]) + Fill(pad) + LittleEndian32(ShiftLow(total0)) + LittleEndian32(ShiftHigh(total0, total1))
    {
      hide *;
      var at := buflen + pad;
      CopyInto(buffer, buflen, Fill(pad));
      assert buffer[..at] == old(buffer[..buflen]) + Fill(pad);
      CopyInto(buffer, at, LittleEndian32(ShiftLow(total0)));
      assert buffer[at..at + 4] == LittleEndian32(ShiftLow(total0));
      assert buffer[..at] == old(buffer[..buflen]) + Fill(pad);
      CopyInto(buffer, at + 4, LittleEndian32(ShiftHigh(total0, total1)));
      assert buffer[at..at + 4] == LittleEndian32(ShiftLow(total0));
      assert buffer[at + 4..at + 8] == LittleEndian32(ShiftHigh(total0, total1));
      assert buffer[..at] == old(buffer[..buflen]) + Fill(pad);
      assert buffer[..at + 8] == buffer[..at] + buffer[at..at + 4] + buffer[at + 4..at + 8];
    }

    // md5_finish_ctx
    method Finish(ghost msg: seq<byte>) returns (digest: seq<byte>)
      requires Holds(msg)
      modifies this, buffer
      ensures old(Counted(msg)) ==> digest == Digest(block, msg)
    {
      hide Represents, Fold, LittleEndian32, BitsLow, BitsHigh, ShiftLow, ShiftHigh, Fill, CountIs, AddLow, AddHigh;
      var bytes := buflen;
      if Counted(msg) { FinalCount(total0, total1, |msg|, bytes); }
      FinalWords(total0, total1, bytes);
      total0 := (total0 + bytes) % WORD;
      if total0 < bytes {
        total1 := (total1 + 1) % WORD;
      }
      var pad := if bytes >= 56 then 64 + 56 - bytes else 56 - bytes;
      ghost var waiting := buffer[..bytes];
      WaitingLength(block, INIT, chain, waiting, msg);
      SamePad(|msg|, bytes);
      WriteTail(pad);
      ghost var tail := Fill(pad) + LittleEndian32(ShiftLow(total0)) + LittleEndian32(ShiftHigh(total0, total1));
      assert buffer[..bytes + pad + 8] == waiting + tail;
      LastBlocks(block, INIT, chain, waiting, tail, msg);
      if old(Counted(msg)) {
        assert msg + tail == Padded(msg);
      }
      ProcessBlock(buffer[..bytes + pad + 8]);
      digest := Output(chain);
    }
  }

  // Init, any number of pieces, finish: how the message is cut makes no difference.
  method DigestPieces(block: (Chain, seq<byte>) -> Chain, chunks: seq<seq<byte>>) returns (digest: seq<byte>)
    ensures (forall k :: 0 <= k < |chunks| ==> |chunks[k]| < WORD) ==> digest == Digest(block, Joined(chunks))
  {
    hide Represents, CountIs, Digest;
    var ctx := new Context(block);
    ghost var msg := [];
    for k := 0 to |chunks|
      invariant ctx.block == block
      invariant fresh(ctx) && fresh(ctx.buffer) && msg == Joined(chunks[..k]) && ctx.Holds(msg)
      invariant (forall i :: 0 <= i < k ==> |chunks[i]| < WORD) ==> ctx.Counted(msg)
    {
      assert chunks[..k + 1][..k] == chunks[..k];
      ctx.ProcessBytes(chunks[k], msg);
      msg := msg + chunks[k];
    }
    assert chunks[..|chunks|] == chunks;
    digest := ctx.Finish(msg);
  }
}
