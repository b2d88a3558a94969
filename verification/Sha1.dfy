// sha.c: the SHA-1 digest of a message that arrives in pieces.
module Sha1 {
  import opened HashBuffer
  import opened Sha1Spec
  import Sha1Block

  class Context {
    var chain: Hash
    var total0: nat
    var total1: nat
    var buflen: nat
    const buffer: array<byte>

    // sha_init_ctx
    constructor ()
      ensures fresh(buffer) && Holds([]) && Counted([])
    {
      chain := INIT;
      total0, total1, buflen := 0, 0, 0;
      buffer := new byte[128];
      new;
      RepresentsNothing(Compress, INIT);
    }

    ghost predicate Valid()
      reads this
    {
      buffer.Length == 128 && total0 < WORD && total1 < WORD && buflen <= 64
    }

    // The bytes of msg were given to this context, in whatever pieces.
    ghost predicate Holds(msg: seq<byte>)
      reads this, buffer
    {
      Valid() && Represents(Compress, INIT, chain, buffer[..buflen], msg)
    }

    // The two-word counter has the length of the folded blocks, modulo 2^64.
    ghost predicate Counted(msg: seq<byte>)
      reads this
    {
      buflen <= |msg| && CountIs(total0, total1, |msg| - buflen)
    }

    // sha_process_block
    method ProcessBlock(data: seq<byte>)
      requires |data| % 64 == 0 && total0 < WORD && total1 < WORD
      modifies this`chain, this`total0, this`total1
      ensures chain == Fold(Compress, old(chain), data)
      ensures total0 == AddLow(old(total0), |data|) && total1 == AddHigh(old(total0), old(total1), |data|)
      ensures total0 < WORD && total1 < WORD
    {
      hide Compress;
      total0 := (total0 + |data|) % WORD;
      if total0 < |data| {
        total1 := (total1 + 1) % WORD;
      }
      var rest := data;
      while rest != []
        invariant |rest| % 64 == 0
        invariant total0 == AddLow(old(total0), |data|) && total1 == AddHigh(old(total0), old(total1), |data|)
        invariant Fold(Compress, chain, rest) == Fold(Compress, old(chain), data)
        decreases |rest|
      {
        chain := Sha1Block.CompressBlock(chain, rest[..64]);
        rest := rest[64..];
      }
    }

    // As Holds, while up to two blocks are waiting.
    ghost predicate Filled(msg: seq<byte>)
      reads this, buffer
    {
      && buffer.Length == 128 && total0 < WORD && total1 < WORD && buflen <= 128
      && Represents(Compress, INIT, chain, buffer[..buflen], msg)
    }

    // Puts more bytes behind those that wait.
    method Append(data: seq<byte>, ghost msg: seq<byte>)
      requires Holds(msg) && buflen + |data| <= 128
      modifies this`buflen, buffer
      ensures Filled(msg + data) && buflen == old(buflen) + |data|
    {
      hide Represents;
      Buffered(Compress, INIT, chain, buffer[..buflen], msg, data);
      CopyInto(buffer, buflen, data);
      buflen := buflen + |data|;
      assert buffer[..buflen] == old(buffer[..buflen]) + data;
    }

    // Folds the whole blocks in the buffer and moves what is left to its front.
    method FlushWhole(ghost msg: seq<byte>)
      requires Filled(msg)
      modifies this, buffer
      ensures Holds(msg) && buflen == old(buflen) % 64
      ensures old(Counted(msg)) ==> Counted(msg)
    {
      hide Represents, Fold, CountIs, AddLow, AddHigh;
      var left := buflen % 64;
      var whole := buflen - left;
      ghost var waiting := buffer[..buflen];
      assert waiting == waiting[..whole] + waiting[whole..];
      Flushed(Compress, INIT, chain, waiting[..whole], waiting[whole..], msg);
      if Counted(msg) { CountMoves(total0, total1, |msg| - buflen, whole); }
      assert buffer[..whole] == waiting[..whole];
      ProcessBlock(buffer[..whole]);
      buflen := left;
      CopyInto(buffer, 0, buffer[whole..whole + left]);
      assert buffer[..buflen] == waiting[whole..];
    }

    // The first part of sha_process_bytes: fill up what is already buffered, and
    // fold it when it holds more than one block.
    method FillBuffer(data: seq<byte>, ghost msg: seq<byte>) returns (add: nat)
      requires Holds(msg)
      modifies this, buffer
      ensures add <= |data| && (add < |data| ==> buflen == 0)
      ensures Holds(msg + data[..add])
      ensures old(Counted(msg)) ==> Counted(msg + data[..add])
    {
      hide Represents;
      add := 0;
      assert msg + data[..0] == msg;
      if buflen != 0 {
        add := if 128 - buflen > |data| then |data| else 128 - buflen;
        Append(data[..add], msg);
        if buflen > 64 {
          FlushWhole(msg + data[..add]);
        }
      }
    }

    // Whole blocks straight from the caller's data.
    method ProcessDirect(blocks: seq<byte>, ghost msg: seq<byte>)
      requires Holds(msg) && buflen == 0 && |blocks| % 64 == 0
      modifies this`chain, this`total0, this`total1
      ensures Holds(msg + blocks)
      ensures old(Counted(msg)) && |blocks| < WORD ==> Counted(msg + blocks)
    {
      hide Represents, Fold, CountIs, AddLow, AddHigh;
      Direct(Compress, INIT, chain, msg, blocks);
      assert buffer[..0] == [];
      if Counted(msg) && |blocks| < WORD { CountMoves(total0, total1, |msg|, |blocks|); }
      ProcessBlock(blocks);
    }

    // The same from a pointer that is not aligned: every block passes the buffer, and
    // the last whole one stays with the remaining bytes.
    method ProcessCopied(data: seq<byte>, ghost msg: seq<byte>) returns (used: nat)
      requires Holds(msg) && buflen == 0 && |data| >= 64
      modifies this, buffer
      ensures used < |data| && |data| - used <= 64 && buflen == 0
      ensures Holds(msg + data[..used])
      ensures old(Counted(msg)) && |data| < WORD ==> Counted(msg + data[..used])
    {
      hide Represents;
      used := 0;
      assert msg + data[..0] == msg;
      while |data| - used > 64
        invariant used < |data| && Holds(msg + data[..used]) && buflen == 0
        invariant old(Counted(msg)) ==> Counted(msg + data[..used])
      {
        ghost var now := msg + data[..used];
        CopyInto(buffer, 0, data[used..used + 64]);
        assert buffer[..0] == [] && buffer[..64] == data[used..used + 64];
        ProcessDirect(buffer[..64], now);
        assert now + data[used..used + 64] == msg + data[..used + 64];
        used := used + 64;
      }
    }

    // sha_process_bytes. When the pointer is not aligned, blocks are copied to the
    // buffer one at a time, and the last whole block goes with the remaining bytes.
    method ProcessBytes(data: seq<byte>, ghost msg: seq<byte>, unaligned: bool)
      requires Holds(msg)
      modifies this, buffer
      ensures Holds(msg + data)
      ensures old(Counted(msg)) && |data| < WORD ==> Counted(msg + data)
    {
      hide Represents, CountIs;
      var add := FillBuffer(data, msg);
      ghost var now := msg + data[..add];
      var rest := data[add..];
      assert now + rest == msg + data;
      if |rest| >= 64 {
        var used := |rest| - |rest| % 64;
        if unaligned {
          used := ProcessCopied(rest, now);
        } else {
          ProcessDirect(rest[..used], now);
        }
        assert now + rest == now + rest[..used] + rest[used..];
        now := now + rest[..used];
        rest := rest[used..];
      }
      if |rest| > 0 {
        Append(rest, now);
        if buflen >= 64 {
          FlushWhole(msg + data);
        }
      } else {
        assert now + rest == now;
      }
    }

    // The padding and the length in bits, after the bytes that still wait.
    method WriteTail(pad: nat)
      requires buffer.Length == 128 && buflen + pad + 8 <= 128 && total0 < WORD && total1 < WORD
      modifies buffer
      ensures buffer[..buflen + pad + 8]
           == old(buffer[..buflen]) + Fill(pad) + BigEndian32(ShiftHigh(total0, total1)) + BigEndian32(ShiftLow(total0))
    {
      hide *;
      var at := buflen + pad;
      CopyInto(buffer, buflen, Fill(pad));
      assert buffer[..at] == old(buffer[..buflen]) + Fill(pad);
      ReversedStore(ShiftLow(total0));
      CopyInto(buffer, at + 4, LittleEndian32(Reversed32(ShiftLow(total0))));
      assert buffer[..at] == old(buffer[..buflen]) + Fill(pad);
      assert buffer[at + 4..at + 8] == BigEndian32(ShiftLow(total0));
      ReversedStore(ShiftHigh(total0, total1));
      CopyInto(buffer, at, LittleEndian32(Reversed32(ShiftHigh(total0, total1))));
      assert buffer[at..at + 4] == BigEndian32(ShiftHigh(total0, total1));
      assert buffer[at + 4..at + 8] == BigEndian32(ShiftLow(total0));
      assert buffer[..at] == old(buffer[..buflen]) + Fill(pad);
      assert buffer[..at + 8] == buffer[..at] + buffer[at..at + 4] + buffer[at + 4..at + 8];
    }

    // sha_finish_ctx
    method Finish(ghost msg: seq<byte>) returns (digest: seq<byte>)
      requires Holds(msg)
      modifies this, buffer
      ensures old(Counted(msg)) ==> digest == Digest(msg)
    {
      hide Represents, Fold, Compress, BigEndian32, BitsLow, BitsHigh, ShiftLow, ShiftHigh, Fill, CountIs, AddLow, AddHigh;
      var bytes := buflen;
      if Counted(msg) { FinalCount(total0, total1, |msg|, bytes); }
      FinalWords(total0, total1, bytes);
      total0 := (total0 + bytes) % WORD;
      if total0 < bytes {
        total1 := (total1 + 1) % WORD;
      }
      var pad := if bytes >= 56 then 64 + 56 - bytes else 56 - bytes;
      ghost var waiting := buffer[..bytes];
      WaitingLength(Compress, INIT, chain, waiting, msg);
      SamePad(|msg|, bytes);
      WriteTail(pad);
      ghost var tail := Fill(pad) + BigEndian32(ShiftHigh(total0, total1)) + BigEndian32(ShiftLow(total0));
      assert buffer[..bytes + pad + 8] == waiting + tail;
      LastBlocks(Compress, INIT, chain, waiting, tail, msg);
      if old(Counted(msg)) {
        assert msg + tail == Padded(msg);
      }
      ProcessBlock(buffer[..bytes + pad + 8]);
      digest := WordBytes(chain.a) + WordBytes(chain.b) + WordBytes(chain.c) + WordBytes(chain.d) + WordBytes(chain.e);
    }
  }

  // Init, any number of pieces, finish: how the message is cut, and how each piece
  // is aligned, makes no difference.
  method DigestPieces(chunks: seq<seq<byte>>, unaligned: nat -> bool) returns (digest: seq<byte>)
    ensures (forall k :: 0 <= k < |chunks| ==> |chunks[k]| < WORD) ==> digest == Digest(Joined(chunks))
  {
    hide Represents, CountIs, Digest;
    var ctx := new Context();
    ghost var msg := [];
    for k := 0 to |chunks|
      invariant fresh(ctx) && fresh(ctx.buffer) && msg == Joined(chunks[..k]) && ctx.Holds(msg)
      invariant (forall i :: 0 <= i < k ==> |chunks[i]| < WORD) ==> ctx.Counted(msg)
    {
      assert chunks[..k + 1][..k] == chunks[..k];
      ctx.ProcessBytes(chunks[k], msg, unaligned(k));
      msg := msg + chunks[k];
    }
    assert chunks[..|chunks|] == chunks;
    digest := ctx.Finish(msg);
  }

  const BLOCKSIZE := 4096

  // A stream that may deliver fewer bytes than asked for (but at least one while
  // there are any), may notice its end early, and may fail.
  datatype Stream = Stream(content: seq<byte>, delivers: nat -> nat, noticesEnd: nat -> bool, fails: nat -> bool)

  // The inner loop of sha_stream: one buffer full, or what is left.
  method ReadBlock(stream: Stream, at: nat, call: nat) returns (sum: nat, last: bool, failed: bool, next: nat)
    requires at <= |stream.content|
    ensures at + sum <= |stream.content| && sum <= BLOCKSIZE
    ensures !last && !failed ==> sum == BLOCKSIZE
    ensures last && !failed ==> at + sum == |stream.content|
    ensures call < next && failed == stream.fails(next - 1) && forall n :: call <= n < next - 1 ==> !stream.fails(n)
  {
    sum, last, failed, next := 0, false, false, call;
    while true
      invariant at + sum <= |stream.content| && sum < BLOCKSIZE && !last && !failed
      invariant call <= next && forall n :: call <= n < next ==> !stream.fails(n)
      decreases |stream.content| - at - sum
    {
      var left := |stream.content| - at - sum;
      var most := if left < BLOCKSIZE - sum then left else BLOCKSIZE - sum;
      var n := if stream.fails(next) || most == 0 then 0
               else if 1 <= stream.delivers(next) <= most then stream.delivers(next) else most;
      failed := stream.fails(next);
      next := next + 1;
      sum := sum + n;
      if sum == BLOCKSIZE {
        return;
      }
      if n == 0 {
        last := !failed;
        return;
      }
      if at + sum == |stream.content| && stream.noticesEnd(next) {
        last := true;
        return;
      }
    }
  }

  // sha_stream: the digest of everything read, for files of any length.
  method DigestStream(stream: Stream) returns (failed: bool, digest: seq<byte>)
    ensures !failed ==> digest == Digest(stream.content)
    ensures failed ==> exists n: nat :: stream.fails(n)
  {
    hide Represents, CountIs, Digest;
    var ctx := new Context();
    var at, call, last, sum := 0, 0, false, 0;
    while true
      invariant fresh(ctx) && fresh(ctx.buffer) && at <= |stream.content| && ctx.buflen == 0
      invariant ctx.Holds(stream.content[..at]) && ctx.Counted(stream.content[..at])
      decreases |stream.content| - at
    {
      sum, last, failed, call := ReadBlock(stream, at, call);
      if failed {
        return true, [];
      }
      assert stream.content[..at] + stream.content[at..at + sum] == stream.content[..at + sum];
      if last {
        break;
      }
      ctx.ProcessDirect(stream.content[at..at + sum], stream.content[..at]);
      at := at + sum;
    }
    if sum > 0 {
      ctx.ProcessBytes(stream.content[at..at + sum], stream.content[..at], false);
    }
    assert stream.content[..at + sum] == stream.content;
    digest := ctx.Finish(stream.content);
  }
}
