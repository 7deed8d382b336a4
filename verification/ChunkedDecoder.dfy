/** The in-place chunked decoder: two cursors over one buffer, refining the automaton of ChunkedAutomaton.dfy. */
module ChunkedDecoder {
  import opened Bytes
  import opened ChunkedAutomaton

  /** Overlap-safe copy within one buffer. */
  method Memmove(buf: array<Byte>, dst: nat, src: nat, n: nat)
    requires dst + n <= buf.Length && src + n <= buf.Length
    modifies buf
    ensures buf[dst..dst + n] == old(buf[src..src + n])
    ensures forall i :: 0 <= i < buf.Length && !(dst <= i < dst + n) ==> buf[i] == old(buf[i])
  {
    forall i | dst <= i < dst + n {
      buf[i] := buf[i - dst + src];
    }
  }

  /** `if (dst != src) memmove(buf + dst, buf + src, n)`: moves `n` bytes down, and nothing else up to `end`. */
  method MoveDown(buf: array<Byte>, dst: nat, src: nat, n: nat, end: nat)
    requires dst <= src && src + n <= end <= buf.Length
    modifies buf
    ensures buf[..dst + n] == old(buf[..dst] + buf[src..src + n])
    ensures forall i :: src + n <= i < end ==> buf[i] == old(buf[i])
    ensures buf[end..] == old(buf[end..])
  {
    if dst != src {
      Memmove(buf, dst, src, n);
    }
    assert buf[dst..dst + n] == old(buf[src..src + n]);
  }

  /** Moves `n` unread bytes to the front. */
  method MoveUnread(ghost orig: seq<Byte>, buf: array<Byte>, bufsz: nat, dst: nat, src: nat, n: nat)
    requires dst <= src && src + n <= |orig| == bufsz <= buf.Length && Unread(buf, orig, src)
    modifies buf
    ensures Unread(buf, orig, src + n) && buf[..dst + n] == old(buf[..dst]) + orig[src..src + n]
    ensures buf[bufsz..] == old(buf[bufsz..])
  {
    assert orig[src..src + n] == buf[src..src + n];
    MoveDown(buf, dst, src, n, bufsz);
  }

  /** The input from `src` on is still where it was. */
  ghost predicate Unread(buf: array<Byte>, orig: seq<Byte>, src: nat)
    reads buf
  {
    src <= |orig| <= buf.Length && forall i :: src <= i < |orig| ==> buf[i] == orig[i]
  }

  /** Where control goes after one case of the switch. */
  datatype Jump = Onward | ToExit | ToError | ToComplete

  class PhrChunkedDecoder {
    var bytesLeftInChunk: nat
    var consumeTrailer: bool
    var hexCount: nat
    var state: State

    /** The ranges of the structure's fields, as a zero-filled start gives them. */
    ghost predicate Valid()
      reads this
    {
      bytesLeftInChunk < SIZE_MODULUS && hexCount <= MAX_HEX_DIGITS
    }

    ghost function Value(): Decoder
      reads this
    {
      Decoder(bytesLeftInChunk, consumeTrailer, hexCount, state)
    }

    constructor (consumeTrailer: bool)
      ensures Valid() && Value() == Fresh(consumeTrailer)
    {
      this.bytesLeftInChunk, this.consumeTrailer, this.hexCount, this.state := 0, consumeTrailer, 0, ChunkSize;
    }

    ghost function Running(done: seq<Byte>): Outcome
      reads this
    {
      Outcome(Normalize(Value()), done, [], Incomplete)
    }

    /** The decoder is in step with the automaton, which has decoded `orig[..src]` into `done`. */
    ghost predicate Synced(d0: Decoder, orig: seq<Byte>, done: seq<Byte>, src: nat)
      reads this
    {
      src <= |orig| && ChunkedAutomaton.Decode(d0, orig[..src]) == Running(done)
    }

    /** The decoder will be in step once the byte at `src`, if any, is dealt with. */
    ghost predicate Pending(d0: Decoder, orig: seq<Byte>, done: seq<Byte>, src: nat)
      reads this
    {
      src <= |orig| &&
      if src < |orig| then
        && ChunkedAutomaton.Decode(d0, orig[..src]).verdict == Incomplete
        && ChunkedAutomaton.Decode(d0, orig[..src + 1]) == Feed(Running(done), orig[src])
      else
        ChunkedAutomaton.Decode(d0, orig) == Running(done)
    }

    /** The decoder has left the loop by `jump`, and the automaton has stopped with it. */
    ghost predicate Stopped(jump: Jump, d0: Decoder, orig: seq<Byte>, done: seq<Byte>, src: nat)
      reads this
    {
      && jump != Onward
      && src <= |orig|
      && ChunkedAutomaton.Decode(d0, orig) == Outcome(Value(), done, orig[src..],
           match jump case ToError => Failed case ToComplete => Complete case _ => Incomplete)
      && (jump == ToExit ==> src == |orig|)
    }

    lemma SyncedIsPending(d0: Decoder, orig: seq<Byte>, done: seq<Byte>, src: nat)
      requires Synced(d0, orig, done, src)
      ensures Pending(d0, orig, done, src)
    {
      if src < |orig| {
        DecodeSnoc(d0, orig[..src], orig[src]);
        assert orig[..src + 1] == orig[..src] + [orig[src]];
      } else {
        assert orig[..src] == orig;
      }
    }

    /** case CHUNKED_IN_CHUNK_SIZE: reads digits up to the first byte that is none. */
    method ScanSize(ghost d0: Decoder, ghost orig: seq<Byte>, ghost done: seq<Byte>,
        buf: array<Byte>, bufsz: nat, start: nat)
      returns (jump: Jump, src: nat)
      requires Valid() && state == ChunkSize && Synced(d0, orig, done, start)
      requires |orig| == bufsz && Unread(buf, orig, start)
      modifies this
      ensures Valid() && start <= src <= bufsz
      ensures jump == Onward ==> state == ChunkExt && src < bufsz && Pending(d0, orig, done, src)
      ensures jump != Onward ==> Stopped(jump, d0, orig, done, src)
    {
      hide ChunkedAutomaton.Decode;
      src := start;
      while true
        invariant Valid() && state == ChunkSize && start <= src && Synced(d0, orig, done, src)
        decreases bufsz - src
      {
        if src == bufsz {
          assert orig[..src] == orig;
          return ToExit, src;
        }
        SizeByte(d0, orig, src, Value(), done);
        var v := DecodeHex(buf[src]);
        if v == -1 {
          if hexCount == 0 {
            return ToError, src;
          }
          break;
        }
        if hexCount == MAX_HEX_DIGITS {
          return ToError, src;
        }
        bytesLeftInChunk := (bytesLeftInChunk * 16 + v) % SIZE_MODULUS;
        hexCount := hexCount + 1;
        src := src + 1;
      }
      hexCount := 0;
      state := ChunkExt;
      jump := Onward;
    }

    /** case CHUNKED_IN_CHUNK_EXT: skips to the end of the size line. */
    method ScanExt(ghost d0: Decoder, ghost orig: seq<Byte>, ghost done: seq<Byte>,
        buf: array<Byte>, bufsz: nat, start: nat)
      returns (jump: Jump, src: nat)
      requires Valid() && state == ChunkExt && Pending(d0, orig, done, start)
      requires start <= |orig| == bufsz && Unread(buf, orig, start)
      modifies this
      ensures Valid() && start <= src <= bufsz
      ensures jump == Onward ==> state in {ChunkData, TrailersLineHead} && start < src && Synced(d0, orig, done, src)
      ensures jump == Onward && state == ChunkData ==> bytesLeftInChunk > 0
      ensures jump != Onward ==> Stopped(jump, d0, orig, done, src)
    {
      hide ChunkedAutomaton.Decode;
      src := start;
      while true
        modifies {}
        invariant Valid() && state == ChunkExt && start <= src && Pending(d0, orig, done, src)
        decreases bufsz - src
      {
        if src == bufsz {
          return ToExit, src;
        }
        if buf[src] == LF {
          break;
        }
        src := src + 1;
        SyncedIsPending(d0, orig, done, src);
      }
      src := src + 1;
      jump := Onward;
      if bytesLeftInChunk == 0 {
        if consumeTrailer {
          state := TrailersLineHead;
        } else {
          StopsAt(d0, orig, src - 1);
          jump := ToComplete;
        }
      } else {
        state := ChunkData;
      }
    }

    /** case CHUNKED_IN_CHUNK_DATA: moves what there is of the chunk to the front. */
    method CopyData(ghost d0: Decoder, ghost orig: seq<Byte>, buf: array<Byte>, bufsz: nat, dst0: nat, src0: nat)
      returns (jump: Jump, dst: nat, src: nat)
      requires Valid() && state == ChunkData
      requires dst0 <= src0 <= |orig| == bufsz <= buf.Length && Unread(buf, orig, src0)
      requires Synced(d0, orig, buf[..dst0], src0)
      modifies this, buf
      ensures Valid() && dst <= src && src0 <= src <= bufsz && Unread(buf, orig, src)
      ensures jump == Onward ==> state == ChunkCrlf && Synced(d0, orig, buf[..dst], src)
      ensures jump != Onward ==> Stopped(jump, d0, orig, buf[..dst], src)
      ensures buf[bufsz..] == old(buf[bufsz..])
    {
      var avail := bufsz - src0;
      var n := if avail < bytesLeftInChunk then avail else bytesLeftInChunk;
      dst, src := dst0 + n, src0 + n;
      DecodeThrough(d0, orig, buf[..dst0], src0, n);
      hide ChunkedAutomaton.Decode;
      MoveUnread(orig, buf, bufsz, dst0, src0, n);
      if avail < bytesLeftInChunk {
        bytesLeftInChunk := bytesLeftInChunk - avail;
        assert orig[..src] == orig;
        return ToExit, dst, src;
      }
      bytesLeftInChunk := 0;
      state := ChunkCrlf;
      jump := Onward;
    }

    lemma DecodeThrough(d0: Decoder, orig: seq<Byte>, done: seq<Byte>, src: nat, n: nat)
      requires state == ChunkData && Synced(d0, orig, done, src)
      requires src + n <= |orig| && n <= bytesLeftInChunk
      ensures ChunkedAutomaton.Decode(d0, orig[..src + n]) ==
        Outcome(Normalize(Value().(bytesLeft := bytesLeftInChunk - n)), done + orig[src..src + n], [], Incomplete)
    {
      var data := orig[src..src + n];
      assert orig[..src + n] == orig[..src] + data;
      if bytesLeftInChunk > 0 {
        DecodeBulk(d0, orig[..src], data);
      } else {
        assert data == [] && orig[..src + n] == orig[..src];
      }
    }

    /** case CHUNKED_IN_CHUNK_CRLF: carriage returns, then the line feed behind the chunk. */
    method ScanCrlf(ghost d0: Decoder, ghost orig: seq<Byte>, ghost done: seq<Byte>,
        buf: array<Byte>, bufsz: nat, start: nat)
      returns (jump: Jump, src: nat)
      requires Valid() && state == ChunkCrlf && Synced(d0, orig, done, start)
      requires |orig| == bufsz && Unread(buf, orig, start)
      modifies this
      ensures Valid() && start <= src <= bufsz
      ensures jump == Onward ==> state == ChunkSize && start < src && Synced(d0, orig, done, src)
      ensures jump != Onward ==> Stopped(jump, d0, orig, done, src)
    {
      hide ChunkedAutomaton.Decode;
      src := start;
      while true
        modifies {}
        invariant Valid() && state == ChunkCrlf && start <= src && Synced(d0, orig, done, src)
        decreases bufsz - src
      {
        SyncedIsPending(d0, orig, done, src);
        if src == bufsz {
          return ToExit, src;
        }
        if buf[src] != CR {
          break;
        }
        src := src + 1;
      }
      if buf[src] != LF {
        StopsAt(d0, orig, src);
        return ToError, src;
      }
      src := src + 1;
      state := ChunkSize;
      jump := Onward;
    }

    /** case CHUNKED_IN_TRAILERS_LINE_HEAD: the empty line ends the message, any other byte starts a trailer line. */
    method ScanTrailerHead(ghost d0: Decoder, ghost orig: seq<Byte>, ghost done: seq<Byte>,
        buf: array<Byte>, bufsz: nat, start: nat)
      returns (jump: Jump, src: nat)
      requires Valid() && state == TrailersLineHead && Synced(d0, orig, done, start)
      requires |orig| == bufsz && Unread(buf, orig, start)
      modifies this
      ensures Valid() && start <= src <= bufsz
      ensures jump == Onward ==> state == TrailersLineMiddle && start < src && Synced(d0, orig, done, src)
      ensures jump != Onward ==> Stopped(jump, d0, orig, done, src)
    {
      hide ChunkedAutomaton.Decode;
      src := start;
      while true
        modifies {}
        invariant Valid() && state == TrailersLineHead && start <= src && Synced(d0, orig, done, src)
        decreases bufsz - src
      {
        SyncedIsPending(d0, orig, done, src);
        if src == bufsz {
          return ToExit, src;
        }
        if buf[src] != CR {
          break;
        }
        src := src + 1;
      }
      src := src + 1;
      if buf[src - 1] == LF {
        StopsAt(d0, orig, src - 1);
        return ToComplete, src;
      }
      state := TrailersLineMiddle;
      jump := Onward;
    }

    /** case CHUNKED_IN_TRAILERS_LINE_MIDDLE: skips to the end of the trailer line. */
    method ScanTrailerMiddle(ghost d0: Decoder, ghost orig: seq<Byte>, ghost done: seq<Byte>,
        buf: array<Byte>, bufsz: nat, start: nat)
      returns (jump: Jump, src: nat)
      requires Valid() && state == TrailersLineMiddle && Synced(d0, orig, done, start)
      requires |orig| == bufsz && Unread(buf, orig, start)
      modifies this
      ensures Valid() && start <= src <= bufsz
      ensures jump == Onward ==> state == TrailersLineHead && start < src && Synced(d0, orig, done, src)
      ensures jump != Onward ==> Stopped(jump, d0, orig, done, src)
    {
      hide ChunkedAutomaton.Decode;
      src := start;
      while true
        modifies {}
        invariant Valid() && state == TrailersLineMiddle && start <= src && Synced(d0, orig, done, src)
        decreases bufsz - src
      {
        SyncedIsPending(d0, orig, done, src);
        if src == bufsz {
          return ToExit, src;
        }
        if buf[src] == LF {
          break;
        }
        src := src + 1;
      }
      src := src + 1;
      state := TrailersLineHead;
      jump := Onward;
    }

    /** The switch.  Its cases fall through in this order, so each is entered by the test of its own state. */
    method Dispatch(ghost d0: Decoder, ghost orig: seq<Byte>, buf: array<Byte>, bufsz: nat, dst0: nat, src0: nat)
      returns (jump: Jump, dst: nat, src: nat)
      requires Valid() && dst0 <= src0 <= |orig| == bufsz <= buf.Length
      requires Unread(buf, orig, src0)
      requires Synced(d0, orig, buf[..dst0], src0)
      modifies this, buf
      ensures Valid() && dst <= src && src0 <= src <= bufsz && Unread(buf, orig, src)
      ensures jump == Onward ==> src0 < src && Synced(d0, orig, buf[..dst], src)
      ensures jump != Onward ==> Stopped(jump, d0, orig, buf[..dst], src)
      ensures buf[bufsz..] == old(buf[bufsz..])
    {
      jump, dst, src := Onward, dst0, src0;
      ghost var done := buf[..dst];
      if state == ChunkSize {
        jump, src := ScanSize(d0, orig, done, buf, bufsz, src);
      } else if state == ChunkExt {
        SyncedIsPending(d0, orig, done, src);
      }
      if jump == Onward && state == ChunkExt {
        jump, src := ScanExt(d0, orig, done, buf, bufsz, src);
        if jump == Onward && state == TrailersLineHead {
          return;
        }
      }
      if jump == Onward && state == ChunkData {
        jump, dst, src := CopyData(d0, orig, buf, bufsz, dst, src);
        done := buf[..dst];
      }
      if jump == Onward && state == ChunkCrlf {
        jump, src := ScanCrlf(d0, orig, done, buf, bufsz, src);
        return;
      }
      if jump == Onward && state == TrailersLineHead {
        jump, src := ScanTrailerHead(d0, orig, done, buf, bufsz, src);
      }
      if jump == Onward && state == TrailersLineMiddle {
        jump, src := ScanTrailerMiddle(d0, orig, done, buf, bufsz, src);
      }
    }

    /** Decodes `buf[..bufsz]` in place.  The decoded data is moved to the front, and the bytes behind the point
        where decoding stopped directly after it. */
    method Decode(buf: array<Byte>, bufsz: nat) returns (ret: int, decoded: nat)
      requires Valid() && bufsz <= buf.Length
      modifies this, buf
      ensures Valid()
      ensures var o := ChunkedAutomaton.Decode(old(Value()), old(buf[..bufsz]));
        && Value() == o.decoder
        && decoded == |o.output| && decoded + |o.rest| <= bufsz
        && buf[..decoded] == o.output
        && buf[decoded..decoded + |o.rest|] == o.rest
        && ret == (match o.verdict case Incomplete => -2 case Failed => -1 case Complete => |o.rest|)
      ensures buf[bufsz..] == old(buf[bufsz..])
    {
      ghost var d0, orig := Value(), buf[..bufsz];
      var dst: nat, src: nat := 0, 0;
      var jump := Onward;
      assert orig[..0] == [] && buf[..0] == [];
      while jump == Onward
        invariant Valid() && |orig| == bufsz <= buf.Length && dst <= src <= bufsz
        invariant Unread(buf, orig, src)
        invariant if jump == Onward then Synced(d0, orig, buf[..dst], src) else Stopped(jump, d0, orig, buf[..dst], src)
        invariant buf[bufsz..] == old(buf[bufsz..])
        decreases if jump == Onward then bufsz - src + 1 else 0
      {
        jump, dst, src := Dispatch(d0, orig, buf, bufsz, dst, src);
      }
      hide ChunkedAutomaton.Decode;
      ret := match jump case ToComplete => bufsz - src case ToError => -1 case _ => -2;
      MoveTail(orig, buf, bufsz, dst, src);
      decoded := dst;
    }
  }

  /** The label Exit: moves what is left over directly behind the decoded data. */
  method MoveTail(ghost orig: seq<Byte>, buf: array<Byte>, bufsz: nat, dst: nat, src: nat)
    requires dst <= src <= |orig| == bufsz <= buf.Length && Unread(buf, orig, src)
    modifies buf
    ensures buf[..dst] == old(buf[..dst]) && buf[dst..dst + (bufsz - src)] == orig[src..]
    ensures buf[bufsz..] == old(buf[bufsz..])
  {
    ghost var tail := orig[src..];
    assert orig[src..src + |tail|] == tail;
    MoveUnread(orig, buf, bufsz, dst, src, bufsz - src);
    assert buf[dst..dst + |tail|] == buf[..dst + |tail|][dst..];
    assert buf[..dst] == buf[..dst + |tail|][..dst];
  }
}
