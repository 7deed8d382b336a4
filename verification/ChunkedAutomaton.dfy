/** The chunked-transfer decoder as a byte automaton: what one input byte does to a decoder,
    and what a whole input does.  The in-place loop of ChunkedDecoder.dfy refines it. */
module ChunkedAutomaton {

  import opened Bytes

  /** The number of values of a 64-bit size_t; sizes wrap at it. */
  const SIZE_MODULUS: nat := 0x1_0000_0000_0000_0000

  /** sizeof(size_t) * 2: the number of hex digits that fit a size_t. */
  const MAX_HEX_DIGITS: nat := 16

  datatype State =
    | ChunkSize
    | ChunkExt
    | ChunkData
    | ChunkCrlf
    | TrailersLineHead
    | TrailersLineMiddle

  /** The fields of the decoder structure. */
  datatype Decoder = Decoder(bytesLeft: nat, consumeTrailer: bool, hexCount: nat, state: State)

  /** A zero-filled decoder, with the trailer flag as the caller sets it. */
  function Fresh(consumeTrailer: bool): Decoder {
    Decoder(0, consumeTrailer, 0, ChunkSize)
  }

  datatype Verdict = Incomplete | Failed | Complete

  /** What a decoder has made of an input: its own state, the data decoded so far, the bytes
      behind the point where it stopped, and why it stopped. */
  datatype Outcome = Outcome(decoder: Decoder, output: seq<Byte>, rest: seq<Byte>, verdict: Verdict)

  predicate IsHex(b: Byte) {
    '0' as int <= b <= '9' as int || 'A' as int <= b <= 'F' as int || 'a' as int <= b <= 'f' as int
  }

  function DecodeHex(b: Byte): (v: int)
    ensures v == -1 || 0 <= v < 16
    ensures v == -1 <==> !IsHex(b)
  {
    if '0' as int <= b <= '9' as int then b - '0' as int
    else if 'A' as int <= b <= 'F' as int then b - 'A' as int + 0xa
    else if 'a' as int <= b <= 'f' as int then b - 'a' as int + 0xa
    else -1
  }

  /** What one byte does to a running decoder.  A byte that makes the decoder fail is not consumed. */
  datatype Reaction = Stay(decoder: Decoder, emitted: seq<Byte>) | Reject(rejected: Decoder) | Finish(finished: Decoder)

  function ReactInSize(d: Decoder, b: Byte): Reaction {
    var v := DecodeHex(b);
    if v == -1 then
      if d.hexCount == 0 then Reject(d) else ReactInExt(d.(hexCount := 0, state := ChunkExt), b)
    else if d.hexCount == MAX_HEX_DIGITS then Reject(d)
    else Stay(d.(bytesLeft := (d.bytesLeft * 16 + v) % SIZE_MODULUS, hexCount := d.hexCount + 1), [])
  }

  function ReactInExt(d: Decoder, b: Byte): Reaction {
    if b != LF then Stay(d, [])
    else if d.bytesLeft != 0 then Stay(d.(state := ChunkData), [])
    else if d.consumeTrailer then Stay(d.(state := TrailersLineHead), [])
    else Finish(d)
  }

  function ReactInCrlf(d: Decoder, b: Byte): Reaction {
    if b == CR then Stay(d, [])
    else if b == LF then Stay(d.(state := ChunkSize), [])
    else Reject(d)
  }

  function ReactInHead(d: Decoder, b: Byte): Reaction {
    if b == CR then Stay(d, [])
    else if b == LF then Finish(d)
    else Stay(d.(state := TrailersLineMiddle), [])
  }

  function ReactInMiddle(d: Decoder, b: Byte): Reaction {
    if b == LF then Stay(d.(state := TrailersLineHead), []) else Stay(d, [])
  }

  /** A decoder whose chunk is used up waits for the line end behind it, whether or not a byte has come. */
  function Normalize(d: Decoder): Decoder {
    if d.state == ChunkData && d.bytesLeft == 0 then d.(state := ChunkCrlf) else d
  }

  function React(d: Decoder, b: Byte): Reaction {
    match d.state
    case ChunkSize => ReactInSize(d, b)
    case ChunkExt => ReactInExt(d, b)
    case ChunkData =>
      if d.bytesLeft == 0 then ReactInCrlf(Normalize(d), b)
      else Stay(Normalize(d.(bytesLeft := d.bytesLeft - 1)), [b])
    case ChunkCrlf => ReactInCrlf(d, b)
    case TrailersLineHead => ReactInHead(d, b)
    case TrailersLineMiddle => ReactInMiddle(d, b)
  }

  /** Feeds one more byte; a decoder that has stopped only lengthens what it left over. */
  function Feed(o: Outcome, b: Byte): Outcome {
    if o.verdict != Incomplete then o.(rest := o.rest + [b])
    else
      match React(o.decoder, b)
      case Stay(d, emitted) => o.(decoder := d, output := o.output + emitted)
      case Reject(d) => o.(decoder := d, rest := [b], verdict := Failed)
      case Finish(d) => o.(decoder := d, verdict := Complete)
  }

  /** What decoder `d` makes of input `s`. */
  function Decode(d: Decoder, s: seq<Byte>): Outcome {
    if |s| == 0 then Outcome(Normalize(d), [], [], Incomplete)
    else Feed(Decode(d, s[..|s| - 1]), s[|s| - 1])
  }

  lemma DecodeSnoc(d: Decoder, s: seq<Byte>, b: Byte)
    ensures Decode(d, s + [b]) == Feed(Decode(d, s), b)
  {
    assert (s + [b])[..|s|] == s;
  }

  // ---------- Every byte is accounted for ----------

  /** Only an interrupted decode leaves bytes over, and decoding never adds a byte. */
  lemma {:induction false} DecodeSizes(d: Decoder, s: seq<Byte>)
    ensures var o := Decode(d, s);
      && |o.output| + |o.rest| <= |s|
      && (o.verdict == Incomplete ==> o.rest == [])
      && s[|s| - |o.rest|..] == o.rest
  {
    if |s| > 0 {
      var pre, b := s[..|s| - 1], s[|s| - 1];
      DecodeSizes(d, pre);
      var o, p := Decode(d, s), Decode(d, pre);
      if p.verdict != Incomplete {
        assert s[|s| - |o.rest|..] == pre[|pre| - |p.rest|..] + [b];
      }
    }
  }

  // ---------- Fragmentation ----------

  /** One call on `a + b` against a call on `a` followed by a call on `b` with the decoder it left. */
  function Resume(first: Outcome, b: seq<Byte>): Outcome {
    if first.verdict != Incomplete then first.(rest := first.rest + b)
    else
      var second := Decode(first.decoder, b);
      second.(output := first.output + second.output)
  }

  lemma {:induction false} DecodedIsNormal(d: Decoder, s: seq<Byte>)
    ensures var o := Decode(d, s); o.verdict == Incomplete ==> Normalize(o.decoder) == o.decoder
  {
    if |s| > 0 {
      DecodedIsNormal(d, s[..|s| - 1]);
    }
  }

  /** Splitting an input anywhere changes nothing: output, decoder, leftover and verdict agree, from every decoder. */
  lemma {:induction false} FragmentationInvariance(d: Decoder, a: seq<Byte>, b: seq<Byte>)
    ensures Decode(d, a + b) == Resume(Decode(d, a), b)
  {
    if |b| == 0 {
      assert a + b == a;
      DecodedIsNormal(d, a);
      var o := Decode(d, a);
      assert o.rest + b == o.rest && o.output + [] == o.output;
      DecodeSizes(d, a);
    } else {
      var pre, x := b[..|b| - 1], b[|b| - 1];
      FragmentationInvariance(d, a, pre);
      assert a + b == (a + pre) + [x];
      DecodeSnoc(d, a + pre, x);
      assert b == pre + [x];
      var o := Decode(d, a);
      if o.verdict != Incomplete {
        assert o.rest + b == (o.rest + pre) + [x];
      } else {
        DecodeSnoc(o.decoder, pre, x);
        var p := Decode(o.decoder, pre);
        if p.verdict == Incomplete {
          match React(p.decoder, x) {
            case Stay(_, emitted) => assert o.output + (p.output + emitted) == (o.output + p.output) + emitted;
            case Reject(_) =>
            case Finish(_) =>
          }
        }
      }
    }
  }

  function Concat(fragments: seq<seq<Byte>>): seq<Byte> {
    if |fragments| == 0 then [] else Concat(fragments[..|fragments| - 1]) + fragments[|fragments| - 1]
  }

  /** The caller's protocol: one call per fragment for as long as the decoder asks for more. */
  function DecodeFragments(d: Decoder, fragments: seq<seq<Byte>>): Outcome {
    if |fragments| == 0 then Decode(d, [])
    else Resume(DecodeFragments(d, fragments[..|fragments| - 1]), fragments[|fragments| - 1])
  }

  /** Any number of calls on any cutting of the stream decodes what one call on the whole stream decodes. */
  lemma {:induction false} AnyFragmentation(d: Decoder, fragments: seq<seq<Byte>>)
    ensures DecodeFragments(d, fragments) == Decode(d, Concat(fragments))
  {
    if |fragments| > 0 {
      var front := fragments[..|fragments| - 1];
      AnyFragmentation(d, front);
      FragmentationInvariance(d, Concat(front), fragments[|fragments| - 1]);
    }
  }

  /** A decoder that stops at byte `k` leaves over what is behind it: from `k` on if it fails, from `k + 1` on if it
      completes. */
  lemma StopsAt(d: Decoder, s: seq<Byte>, k: nat)
    requires k < |s|
    requires Decode(d, s[..k]).verdict == Incomplete != Decode(d, s[..k + 1]).verdict
    ensures var o := Decode(d, s[..k + 1]);
      Decode(d, s) == o.(rest := if o.verdict == Failed then s[k..] else s[k + 1..])
  {
    var front, tail := s[..k + 1], s[k + 1..];
    FragmentationInvariance(d, front, tail);
    assert s == front + tail;
    assert front == s[..k] + [s[k]];
    DecodeSnoc(d, s[..k], s[k]);
    DecodeSizes(d, s[..k]);
    hide Decode, React;
    var o := Decode(d, front);
    assert o.rest == if o.verdict == Failed then [s[k]] else [];
    assert [s[k]] + tail == s[k..];
    assert [] + tail == tail;
  }

  /** What one byte does in the size state, in terms of whole inputs. */
  lemma SizeByte(d0: Decoder, s: seq<Byte>, k: nat, d: Decoder, done: seq<Byte>)
    requires k < |s| && d.state == ChunkSize
    requires Decode(d0, s[..k]) == Outcome(d, done, [], Incomplete)
    ensures var v := DecodeHex(s[k]);
      if v == -1 then
        if d.hexCount == 0 then Decode(d0, s) == Outcome(d, done, s[k..], Failed)
        else Decode(d0, s[..k + 1]) == Feed(Outcome(d.(hexCount := 0, state := ChunkExt), done, [], Incomplete), s[k])
      else
        if d.hexCount == MAX_HEX_DIGITS then Decode(d0, s) == Outcome(d, done, s[k..], Failed)
        else Decode(d0, s[..k + 1]) == Outcome(
          d.(bytesLeft := (d.bytesLeft * 16 + v) % SIZE_MODULUS, hexCount := d.hexCount + 1), done, [], Incomplete)
  {
    assert s[..k + 1] == s[..k] + [s[k]];
    DecodeSnoc(d0, s[..k], s[k]);
    assert done + [] == done;
    if React(d, s[k]).Reject? {
      StopsAt(d0, s, k);
    }
  }

  // ---------- Size arithmetic ----------

  function Pow16(n: nat): nat {
    if n == 0 then 1 else 16 * Pow16(n - 1)
  }

  lemma {:induction false} Pow16Monotone(m: nat, n: nat)
    requires m <= n
    ensures 1 <= Pow16(m) <= Pow16(n)
  {
    if m < n {
      Pow16Monotone(m, n - 1);
    } else if n > 0 {
      Pow16Monotone(n - 1, n - 1);
    }
  }

  lemma SixteenDigitsFit()
    ensures Pow16(MAX_HEX_DIGITS) == SIZE_MODULUS
  {
    assert Pow16(4) == 0x1_0000;
    assert Pow16(8) == 0x1_0000_0000;
    assert Pow16(12) == 0x1_0000_0000_0000;
  }

  /** What every decoder reached from a fresh one satisfies. */
  ghost predicate WellSized(d: Decoder) {
    && d.hexCount <= MAX_HEX_DIGITS
    && d.bytesLeft < Pow16(if d.state == ChunkSize then d.hexCount else MAX_HEX_DIGITS)
    && (d.state != ChunkSize ==> d.hexCount == 0)
    && (d.state == ChunkData ==> d.bytesLeft > 0)
    && (d.state in {ChunkCrlf, TrailersLineHead, TrailersLineMiddle} ==> d.bytesLeft == 0)
  }

  /** In the size state another digit is only taken when it cannot wrap, so `% SIZE_MODULUS` never shows. */
  lemma DigitFits(d: Decoder, b: Byte)
    requires WellSized(d) && d.state == ChunkSize && d.hexCount < MAX_HEX_DIGITS && IsHex(b)
    ensures d.bytesLeft * 16 + DecodeHex(b) < Pow16(d.hexCount + 1) <= SIZE_MODULUS
  {
    SixteenDigitsFit();
    Pow16Monotone(d.hexCount + 1, MAX_HEX_DIGITS);
  }

  /** One byte keeps the bounds, and a new size line starts from zero digits and zero bytes. */
  lemma WellSizedStep(d: Decoder, b: Byte)
    requires WellSized(d)
    ensures match React(d, b)
      case Stay(d', _) => WellSized(d') && (d.state != ChunkSize == d'.state ==> d'.bytesLeft == 0 && d'.hexCount == 0)
      case Reject(d') => WellSized(d')
      case Finish(d') => WellSized(d') && d'.bytesLeft == 0
  {
    SixteenDigitsFit();
    Pow16Monotone(d.hexCount, MAX_HEX_DIGITS);
    if d.state == ChunkSize && d.hexCount < MAX_HEX_DIGITS && IsHex(b) {
      DigitFits(d, b);
      hide Pow16;
    } else {
      hide Pow16;
    }
  }

  /** The bounds hold in every run, however the input is cut. */
  lemma {:induction false} SizeNeverWraps(consumeTrailer: bool, fragments: seq<seq<Byte>>)
    ensures WellSized(DecodeFragments(Fresh(consumeTrailer), fragments).decoder)
  {
    AnyFragmentation(Fresh(consumeTrailer), fragments);
    WellSizedRun(consumeTrailer, Concat(fragments));
  }

  lemma {:induction false} WellSizedRun(consumeTrailer: bool, s: seq<Byte>)
    ensures WellSized(Decode(Fresh(consumeTrailer), s).decoder)
  {
    if |s| > 0 {
      var pre := s[..|s| - 1];
      WellSizedRun(consumeTrailer, pre);
      WellSizedStep(Decode(Fresh(consumeTrailer), pre).decoder, s[|s| - 1]);
    }
  }

  // ---------- Chunk data in bulk ----------

  /** `|data|` bytes that fit the current chunk are copied through. */
  lemma {:induction false} DecodeBulk(d: Decoder, s: seq<Byte>, data: seq<Byte>)
    requires Decode(d, s).verdict == Incomplete
    requires Decode(d, s).decoder.state == ChunkData
    requires |data| <= Decode(d, s).decoder.bytesLeft
    ensures var o := Decode(d, s);
      Decode(d, s + data) ==
        o.(decoder := Normalize(o.decoder.(bytesLeft := o.decoder.bytesLeft - |data|)), output := o.output + data)
  {
    var o := Decode(d, s);
    DecodedIsNormal(d, s);
    if |data| == 0 {
      assert s + data == s;
      assert o.output + data == o.output;
    } else {
      var pre, x := data[..|data| - 1], data[|data| - 1];
      DecodeBulk(d, s, pre);
      assert s + data == (s + pre) + [x];
      DecodeSnoc(d, s + pre, x);
      assert o.output + data == (o.output + pre) + [x];
    }
  }
}
